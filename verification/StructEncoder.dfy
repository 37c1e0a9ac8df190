/**
 The encoding struct calls on a buffer. A user's encoder function is a list of
 field macros; here it is the loop over the fields of a schema.
 */
module StructEncoder {
  import opened Words
  import opened Float64
  import opened Gobber
  import opened Wire
  import opened Arrays
  import opened Buffers
  import opened Schema

  // ---------------------------------------------------------------- encoding

  method EncodeArrayStart(enc: Buffer, id: TypeId, len: u64) returns (n: int)
    requires enc.Valid()
    modifies enc, enc.buf
    ensures n >= 0 ==> enc.Appends(EncArrayStart(id, len)) && n == |EncArrayStart(id, len)|
    ensures |EncArrayStart(id, len)| <= old(enc.Free()) ==> n >= 0
    ensures enc.user == old(enc.user)
  {
    hide EncU, EncType, DecU;
    n := enc.EncodeBaseType(GLME_ARRAY);
    if n < 0 {
      return -1;
    }
    var n0 := enc.EncodeType(id);
    if n0 < 0 {
      return -1;
    }
    var n1 := enc.EncodeValueUint64(len);
    if n1 < 0 {
      return -1;
    }
    return 1 + (n1 + n0);
  }

  /** The element loop of a numeric array. */
  method EncodeScalarData(enc: Buffer, elems: seq<Scalar>) returns (n: int)
    requires enc.Valid()
    modifies enc, enc.buf
    ensures n >= 0 ==> enc.Appends(EncScalars(elems)) && n == |EncScalars(elems)|
    ensures |EncScalars(elems)| <= old(enc.Free()) ==> n >= 0
    ensures enc.user == old(enc.user)
  {
    hide EncU;
    var start := enc.count;
    var k := 0;
    assert elems[0..] == elems;
    while k < |elems|
      invariant 0 <= k <= |elems|
      invariant enc.Valid() && enc.user == old(enc.user) && enc.current == old(enc.current)
      invariant enc.buf == old(enc.buf) || fresh(enc.buf)
      invariant enc.buflen >= old(enc.buflen)
      invariant enc.Written() + EncScalars(elems[k..]) == old(enc.Written()) + EncScalars(elems)
    {
      assert elems[k..][0] == elems[k] && elems[k..][1..] == elems[k + 1..];
      ghost var before := enc.Written();
      n := enc.EncodeValue(elems[k]);
      if n < 0 {
        return;
      }
      Regroup(before, EncValue(elems[k]), EncScalars(elems[k + 1..]));
      k := k + 1;
    }
    assert elems[k..] == [];
    assert enc.Written() == old(enc.Written()) + EncScalars(elems);
    return enc.count - start;
  }

  /** The element loop of a struct array. */
  method EncodeRecordData(enc: Buffer, env: Env, id: UserId, recs: seq<Rec>) returns (n: int)
    requires enc.Valid() && FitAll(env, id, recs)
    modifies enc, enc.buf
    ensures n >= 0 ==> enc.Appends(EncRecords(env, id, recs)) && n == |EncRecords(env, id, recs)|
    ensures |EncRecords(env, id, recs)| <= old(enc.Free()) ==> n >= 0
    ensures enc.user == old(enc.user)
    decreases recs, 3
  {
    var start := enc.count;
    var k := 0;
    assert recs[0..] == recs;
    while k < |recs|
      invariant 0 <= k <= |recs| && FitAll(env, id, recs[k..])
      invariant enc.Valid() && enc.user == old(enc.user) && enc.current == old(enc.current)
      invariant enc.buf == old(enc.buf) || fresh(enc.buf)
      invariant enc.buflen >= old(enc.buflen)
      invariant enc.Written() + EncRecords(env, id, recs[k..]) == old(enc.Written()) + EncRecords(env, id, recs)
    {
      assert recs[k..][0] == recs[k] && recs[k..][1..] == recs[k + 1..];
      ghost var before := enc.Written();
      n := EncodeRecord(enc, env, id, recs[k].vals);
      if n < 0 {
        return;
      }
      Regroup(before, EncRecord(env, id, recs[k].vals), EncRecords(env, id, recs[k + 1..]));
      k := k + 1;
    }
    assert recs[k..] == [];
    assert enc.Written() == old(enc.Written()) + EncRecords(env, id, recs);
    return enc.count - start;
  }

  /** `glme_encode_array` of numbers. */
  method EncodeScalarArray(enc: Buffer, ty: Ty, elems: seq<Scalar>) returns (n: int)
    requires enc.Valid() && |elems| <= INT_MAX
    modifies enc, enc.buf
    ensures n >= 0 ==> enc.Appends(EncArrayStart(TypeCode(ty), |elems|) + EncScalars(elems))
    ensures n >= 0 ==> n == enc.count - old(enc.count)
    ensures |EncArrayStart(TypeCode(ty), |elems|) + EncScalars(elems)| <= old(enc.Free()) ==> n >= 0
    ensures enc.user == old(enc.user)
  {
    hide EncArrayStart, EncScalars;
    var start := enc.count;
    n := EncodeArrayStart(enc, TypeCode(ty), |elems|);
    if n < 0 {
      return -1;
    }
    n := EncodeScalarData(enc, elems);
    return if n < 0 then -1 else enc.count - start;
  }

  /** `glme_encode_array` of structs. */
  method EncodeRecordArray(enc: Buffer, env: Env, id: UserId, recs: seq<Rec>) returns (n: int)
    requires enc.Valid() && |recs| <= INT_MAX && FitAll(env, id, recs)
    modifies enc, enc.buf
    ensures n >= 0 ==> enc.Appends(EncArrayStart(id, |recs|) + EncRecords(env, id, recs))
    ensures n >= 0 ==> n == enc.count - old(enc.count)
    ensures |EncArrayStart(id, |recs|) + EncRecords(env, id, recs)| <= old(enc.Free()) ==> n >= 0
    ensures enc.user == old(enc.user)
    decreases recs, 4
  {
    hide EncArrayStart, EncRecords, FitAll;
    var start := enc.count;
    n := EncodeArrayStart(enc, id, |recs|);
    if n < 0 {
      return -1;
    }
    n := EncodeRecordData(enc, env, id, recs);
    return if n < 0 then -1 else enc.count - start;
  }

  /** What a field call puts on the wire: nothing, or the offset and the field. */
  function EncField(env: Env, delta: nat, k: Kind, v: Field): bytes
    requires FitsField(env, k, v) && delta < TWO_32
  {
    if Omitted(k, v) then [] else EncU(delta) + EncBody(env, k, v)
  }

  /** The `esize` argument of the field macros: zero stands for a value that need not be sent. */
  function SizeArgument(k: Kind, v: Field): nat {
    match k
    case Single(d) => if v.SingleVal? && v.x.EqualInC(d) then 0 else 1
    case Vector(_) => if v.VectorVal? && |v.data| > 0 then 1 else 0
    case _ => 1
  }

  method EncodeField(enc: Buffer, env: Env, delta: nat, k: Kind, v: Field) returns (n: int, next: nat)
    requires enc.Valid() && FitsField(env, k, v) && delta < TWO_32
    modifies enc, enc.buf
    ensures n >= 0 ==> enc.Appends(EncField(env, delta, k, v)) && n == |EncField(env, delta, k, v)|
    // nothing is appended just for defaults, empty vectors and arrays, and null pointers
    ensures n >= 0 ==>
              (n == 0 <==>
               match k
               case Single(I(i)) => v.x.i == i
               case Single(U(u)) => v.x.u == u
               case Single(F(f)) => IeeeEqual(v.x.f, f)
               case Vector(_) => |v.data| == 0
               case Array(_) => |v.elems| == 0
               case Structs(_) => |v.recs| == 0
               case Pointer(_) => v == Null
               case Embed(_) => false)
    ensures n >= 0 ==> next == if n == 0 then delta + 1 else 1
    ensures |EncField(env, delta, k, v)| <= old(enc.Free()) ==> n >= 0
    ensures enc.user == old(enc.user)
    decreases v, 1
  {
    hide EncU, EncBody, IeeeEqual;
    OmittedMeans(env, k, v);
    var start := enc.count;
    if v.Null? || SizeArgument(k, v) == 0 {
      return 0, delta + 1;
    }
    if k.IsArray() && (if v.ArrayVal? then |v.elems| else |v.recs|) == 0 {
      return 0, delta + 1;
    }
    n := enc.EncodeValueUint64(delta);
    if n < 0 {
      return -1, delta;
    }
    n := EncodeBody(enc, env, k, v);
    if n < 0 {
      return -1, delta;
    }
    return enc.count - start, 1;
  }

  /** The switch of `glme_encode_field`. */
  method EncodeBody(enc: Buffer, env: Env, k: Kind, v: Field) returns (n: int)
    requires enc.Valid() && FitsField(env, k, v) && !Omitted(k, v)
    modifies enc, enc.buf
    ensures n >= 0 ==> enc.Appends(EncBody(env, k, v))
    ensures |EncBody(env, k, v)| <= old(enc.Free()) ==> n >= 0
    ensures enc.user == old(enc.user)
    decreases v, 0
  {
    hide EncScalar, EncVector, EncArrayStart, EncType, EncScalars, EncRecords, EncRecord, Fits, FitAll;
    match k
    case Single(_) => n := enc.EncodeScalar(v.x);
    case Vector(_) => n := enc.EncodeVector(v.data);
    case Array(ty) => n := EncodeScalarArray(enc, ty, v.elems);
    case Embed(id) => n := EncodeStruct(enc, env, id, v.rec);
    case Pointer(id) => n := EncodeStruct(enc, env, id, v.rec);
    case Structs(id) => n := EncodeRecordArray(enc, env, id, v.recs);
  }

  /** A user's encoder function: start, one macro for each field, end mark. */
  method EncodeRecord(enc: Buffer, env: Env, id: UserId, rec: seq<Field>) returns (n: int)
    requires enc.Valid() && Fits(env, Fields(env, id), rec)
    modifies enc, enc.buf
    ensures n >= 0 ==> enc.Appends(EncRecord(env, id, rec)) && n == |EncRecord(env, id, rec)|
    ensures |EncRecord(env, id, rec)| <= old(enc.Free()) ==> n >= 0
    ensures enc.user == old(enc.user)
    decreases rec, 2
  {
    hide EncU, EncBody, FitsField, Omitted;
    var start := enc.count;
    var kinds := Fields(env, id);
    var delta: nat, i := 1, 0;
    assert kinds[0..] == kinds && rec[0..] == rec;
    while i < |kinds|
      invariant 0 <= i <= |kinds| && delta <= i + 1
      invariant enc.Valid() && enc.user == old(enc.user) && enc.current == old(enc.current)
      invariant enc.buf == old(enc.buf) || fresh(enc.buf)
      invariant enc.buflen >= old(enc.buflen)
      invariant Fits(env, kinds[i..], rec[i..])
      invariant enc.Written() + EncFields(env, kinds[i..], rec[i..], delta)
             == old(enc.Written()) + EncRecord(env, id, rec)
    {
      assert kinds[i..][0] == kinds[i] && kinds[i..][1..] == kinds[i + 1..];
      assert rec[i..][0] == rec[i] && rec[i..][1..] == rec[i + 1..];
      ghost var before := enc.Written();
      ghost var sent := EncField(env, delta, kinds[i], rec[i]);
      FieldByField(env, kinds[i..], rec[i..], delta);
      n, delta := EncodeField(enc, env, delta, kinds[i], rec[i]);
      if n < 0 {
        return;
      }
      Regroup(before, sent, EncFields(env, kinds[i + 1..], rec[i + 1..], delta));
      i := i + 1;
    }
    assert kinds[i..] == [] && rec[i..] == [];
    n := enc.EncodeValueUint64(0);
    if n < 0 {
      return -4;
    }
    return enc.count - start;
  }

  lemma {:induction false} FieldByField(env: Env, kinds: seq<Kind>, vals: seq<Field>, delta: nat)
    requires Fits(env, kinds, vals) && kinds != [] && delta + |kinds| <= TWO_32
    ensures EncFields(env, kinds, vals, delta)
         == EncField(env, delta, kinds[0], vals[0])
            + EncFields(env, kinds[1..], vals[1..], if Omitted(kinds[0], vals[0]) then delta + 1 else 1)
  {
    hide EncU, EncBody, FitsField, Omitted;
  }

  /** A type id and a struct: a whole message, or a nested struct field. */
  method EncodeStruct(enc: Buffer, env: Env, id: UserId, rec: seq<Field>) returns (n: int)
    requires enc.Valid() && Fits(env, Fields(env, id), rec)
    modifies enc, enc.buf
    ensures n >= 0 ==> enc.Appends(EncStruct(env, id, rec)) && n == |EncStruct(env, id, rec)|
    ensures |EncStruct(env, id, rec)| <= old(enc.Free()) ==> n >= 0
    ensures enc.user == old(enc.user)
    decreases rec, 3
  {
    hide EncType, EncRecord, Fits;
    var start := enc.count;
    n := enc.EncodeType(id);
    if n < 0 {
      return -1;
    }
    n := EncodeRecord(enc, env, id, rec);
    if n < 0 {
      return n;
    }
    return enc.count - start;
  }
}
