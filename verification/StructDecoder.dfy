/**
 The decoding struct calls on a buffer. On a negative code nothing is promised
 beyond the read pointer staying within the data and not moving back. On any
 other code the call did what the schema's decoder does with the unread bytes,
 or it has stopped at an unfinished number, at which every later call fails.
 */
module StructDecoder {
  import opened Words
  import opened Gobber
  import opened Wire
  import opened Arrays
  import opened Buffers
  import opened Schema

  lemma {:induction false} EndIsZeroByte(s: bytes)
    ensures DecEnd(s).Record? <==> s != [] && s[0] == 0
    ensures DecEnd(s).Record? ==> DecEnd(s).rest == s[1..]
  {
  }

  method DecodeEnd(dec: Buffer) returns (n: int)
    requires dec.Valid()
    modifies dec`current, dec`lastError
    ensures dec.Valid() && dec.current >= old(dec.current)
    ensures match DecEnd(old(dec.Unread()))
            case RecordFail => n < 0
            case Record(_, rest) => n == 1 && dec.Unread() == rest
    // the mark is one byte, and that is zero
    ensures n == 1 <==> old(dec.Unread()) != [] && old(dec.Unread())[0] == 0
    ensures n == 1 ==> dec.Unread() == old(dec.Unread())[1..]
  {
    EndIsZeroByte(dec.Unread());
    hide DecU;
    var mark: u64;
    n, mark := dec.PeekUint64();
    if n != 1 || mark != 0 {
      return -1;
    }
    dec.Skip(n);
  }

  method DecodeArrayStart(dec: Buffer) returns (n: int, id: int, len: u64)
    requires dec.Valid()
    modifies dec`current, dec`lastError
    ensures dec.Valid() && dec.current >= old(dec.current)
    ensures match DecArrayStart(old(dec.Unread()))
            case StartFail => n < 0
            case Start(t, l, rest) =>
              n == dec.current - old(dec.current) > 0 && id == t && len == l && dec.Unread() == rest
    ensures n >= 0 ==> old(dec.Unread()) != [] && old(dec.Unread())[0] == 20
  {
    hide DecU, TypeOfWord;
    id, len := 0, 0;
    n := dec.DecodeBaseType(GLME_ARRAY);
    if n < 0 {
      return;
    }
    var nc := n;
    n, id := dec.DecodeType();
    nc := nc + n;
    n, len := dec.DecodeValueUint64();
    return if n < 0 then n else nc + n, id, len;
  }

  lemma {:induction false} DecScalarsStep(ty: Ty, n: nat, done: seq<Scalar>, s: bytes)
    requires n > 0
    ensures match DecValue(ty, ZeroScalar(ty), s)
            case SFail => DecScalars(ty, n, s) == ScalarsFail
            case SDone(x, t) =>
              WithScalars(done, DecScalars(ty, n, s)) == WithScalars(done + [x], DecScalars(ty, n - 1, t))
  {
    hide DecValue;
    match DecValue(ty, ZeroScalar(ty), s)
    case SFail =>
    case SDone(x, t) =>
      match DecScalars(ty, n - 1, t)
      case ScalarsFail =>
      case Scalars(xs, rest) => assert done + ([x] + xs) == (done + [x]) + xs;
  }

  /** The outcome of a loop that has already decoded `done`. */
  ghost function WithScalars(done: seq<Scalar>, d: ScalarsDec): ScalarsDec {
    match d
    case ScalarsFail => ScalarsFail
    case Scalars(xs, rest) => Scalars(done + xs, rest)
  }

  lemma {:induction false} DecScalarsEnd(ty: Ty, s: bytes)
    ensures DecScalars(ty, 0, s) == Scalars([], s)
  {
  }

  /** The element loop of a numeric array, into zeroed memory from the allocator. */
  method DecodeScalarData(dec: Buffer, ty: Ty, len: nat) returns (n: int, elems: seq<Scalar>)
    requires dec.Valid()
    modifies dec`current, dec`lastError
    ensures dec.Valid() && dec.current >= old(dec.current)
    ensures n >= 0 ==> len <= INT_MAX && n == dec.current - old(dec.current)
    ensures n >= 0 ==> DecScalars(ty, len, old(dec.Unread())) == Scalars(elems, dec.Unread())
    ensures len == 0 ==> n == 0 && elems == [] && dec.Unread() == old(dec.Unread())
    ensures dec.reliable && len <= INT_MAX && DecScalars(ty, len, old(dec.Unread())).Scalars? ==> n >= 0
  {
    hide DecU, DecValue, DecScalars, ZeroScalar;
    DecScalarsEnd(ty, dec.Unread());
    var start := dec.current;
    elems := [];
    if len == 0 {
      return 0, [];
    }
    var ok := dec.Granted(len);
    if !ok {
      return -1, [];
    }
    var ptr := new Scalar[len](_ => ZeroScalar(ty));
    var k := 0;
    ghost var whole := DecScalars(ty, len, dec.Unread());
    assert WithScalars([], whole) == whole;
    while k < len
      invariant 0 <= k <= len
      invariant dec.Valid() && dec.current >= start
      invariant forall j | k <= j < len :: ptr[j] == ZeroScalar(ty)
      invariant whole == WithScalars(ptr[..k], DecScalars(ty, len - k, dec.Unread()))
    {
      DecScalarsStep(ty, len - k, ptr[..k], dec.Unread());
      ghost var done := ptr[..k];
      var x;
      n, x := dec.DecodeValue(ty, ptr[k]);
      if n < 0 {
        return;
      }
      ptr[k] := x;
      assert ptr[..k + 1] == done + [x];
      k := k + 1;
    }
    DecScalarsEnd(ty, dec.Unread());
    assert ptr[..len] == ptr[..];
    return dec.current - start, ptr[..];
  }

  ghost function WithRecords(done: seq<Rec>, d: RecordsDec): RecordsDec {
    match d
    case RecordsFail => RecordsFail
    case Records(rs, rest) => Records(done + rs, rest)
  }

  lemma {:induction false} DecRecordsStep(env: Env, id: UserId, n: nat, done: seq<Rec>, s: bytes)
    requires n > 0
    ensures match DecFields(env, Fields(env, id), 1, s)
            case RecordFail => DecRecords(env, id, n, s) == RecordsFail
            case Record(rec, t) =>
              WithRecords(done, DecRecords(env, id, n, s))
              == WithRecords(done + [Rec(rec)], DecRecords(env, id, n - 1, t))
  {
    hide DecFields, Fields;
    match DecFields(env, Fields(env, id), 1, s)
    case RecordFail =>
    case Record(rec, t) =>
      match DecRecords(env, id, n - 1, t)
      case RecordsFail =>
      case Records(rs, rest) => assert done + ([Rec(rec)] + rs) == (done + [Rec(rec)]) + rs;
  }

  /** The element loop of a struct array. */
  method DecodeRecordData(dec: Buffer, env: Env, id: UserId, len: nat) returns (n: int, recs: seq<Rec>)
    requires dec.Valid()
    modifies dec`current, dec`lastError
    ensures dec.Valid() && dec.current >= old(dec.current)
    ensures n >= 0 ==> len <= INT_MAX && n == dec.current - old(dec.current)
    ensures n >= 0 ==> DecRecords(env, id, len, old(dec.Unread())) == Records(recs, dec.Unread())
    ensures len == 0 ==> n == 0 && recs == [] && dec.Unread() == old(dec.Unread())
    ensures dec.reliable && len <= INT_MAX && DecRecords(env, id, len, old(dec.Unread())).Records? ==> n >= 0
    decreases dec.count - dec.current, 3
  {
    hide DecFields, Fields;
    var start := dec.current;
    recs := [];
    if len == 0 {
      return 0, [];
    }
    var ok := dec.Granted(len);
    if !ok {
      return -1, [];
    }
    var k := 0;
    ghost var whole := DecRecords(env, id, len, dec.Unread());
    assert WithRecords([], whole) == whole;
    while k < len
      invariant 0 <= k <= len == k + (len - k)
      invariant dec.Valid() && dec.current >= start
      invariant whole == WithRecords(recs, DecRecords(env, id, len - k, dec.Unread()))
    {
      DecRecordsStep(env, id, len - k, recs, dec.Unread());
      var rec;
      n, rec := DecodeRecord(dec, env, id);
      if n < 0 {
        return;
      }
      recs := recs + [Rec(rec)];
      k := k + 1;
    }
    return dec.current - start, recs;
  }

  /** `glme_decode_array_start` and `glme_decode_array_data` for a field that expects an array. */
  method DecodeArray(dec: Buffer, env: Env, k: Kind) returns (n: int, v: Field)
    requires dec.Valid() && k.IsArray()
    modifies dec`current, dec`lastError
    ensures dec.Valid() && dec.current >= old(dec.current)
    ensures n >= 0 ==> DecArray(env, k, old(dec.Unread())) == Body(v, n, dec.Unread())
    ensures dec.reliable && DecArray(env, k, old(dec.Unread())).Body? ==> n >= 0
    decreases dec.count - dec.current, 4
  {
    hide DecArrayStart, DecScalars, DecRecords;
    v := Default(env, k);
    var id, alen;
    n, id, alen := DecodeArrayStart(dec);
    if n < 0 {
      return;
    }
    if id != k.ElemType() {
      dec.lastError := GLME_E_TYPE;
      return -1, v;
    }
    if k.Array? {
      var elems;
      n, elems := DecodeScalarData(dec, k.ty, alen);
      if n >= 0 {
        v := ArrayVal(elems);
      }
    } else {
      var recs;
      n, recs := DecodeRecordData(dec, env, k.id, alen);
      if n >= 0 {
        v := StructsVal(recs);
      }
    }
  }

  /** An unfinished number is not an array type byte. */
  lemma {:induction false} NoArrayThere(env: Env, k: Kind, s: bytes)
    ensures k.IsArray() && DecU(s).Short? ==> DecArray(env, k, s) == BodyFail
  {
  }

  /** Either the schema's outcome, or a stop at an unfinished number. */
  ghost predicate Follows(d: BodyDec, n: int, v: Field, rest: bytes) {
    || (d.Body? && v == d.v && rest == d.rest && (n > 0 <==> d.code > 0))
    || (d.BodyFail? && DecU(rest).Short?)
  }

  /** The part of `glme_decode_field` after a matching offset. If the type id is unfinished, the code
      goes on with whatever an uninitialised variable held. */
  method DecodeBody(dec: Buffer, env: Env, k: Kind) returns (n: int, v: Field)
    requires dec.Valid()
    modifies dec`current, dec`lastError
    ensures dec.Valid() && dec.current >= old(dec.current)
    ensures n >= 0 ==> Follows(DecBody(env, k, old(dec.Unread())), n, v, dec.Unread())
    ensures n >= 0 && k.Single? ==>
              v.SingleVal? && v.x.Type() == k.dflt.Type() && DecBody(env, k, old(dec.Unread())).Body?
    ensures dec.reliable && DecBody(env, k, old(dec.Unread())).Body? ==> n >= 0
    decreases dec.count - dec.current, 6
  {
    hide DecU, DecArray, DecElement, TypeOfWord;
    v := Default(env, k);
    var typeid;
    n, typeid := dec.PeekType();
    if typeid == GLME_ARRAY && !k.IsArray() {
      dec.lastError := GLME_E_TYPE;
      return -1, v;
    }
    if typeid != GLME_ARRAY && typeid != k.ElemType() {
      dec.lastError := GLME_E_TYPE;
      return -1, v;
    }
    if typeid == GLME_ARRAY {
      NoArrayThere(env, k, dec.Unread());
      n, v := DecodeArray(dec, env, k);
    } else {
      NoElementThere(env, k, dec.Unread());
      n, v := DecodeElement(dec, env, k);
    }
  }

  lemma {:induction false} NoElementThere(env: Env, k: Kind, s: bytes)
    ensures DecU(s).Short? ==> DecElement(env, k, s) == BodyFail
  {
  }

  /** A vector, into a zeroed array. */
  method DecodeVectorField(dec: Buffer, len: nat) returns (n: int, data: bytes)
    requires dec.Valid()
    modifies dec`current, dec`lastError
    ensures dec.Valid() && dec.current >= old(dec.current)
    ensures match DecVector(old(dec.Unread()), len)
            case VFail => n < 0
            case VDone(code, _, d, rest) => n == code >= 0 && data == d && dec.Unread() == rest
  {
    hide DecU, ToInt32, Padded;
    var s := new byte[len](_ => 0);
    assert s[..] == Padded([], len);
    n := dec.DecodeVector(s);
    data := s[..];
    if n >= 0 && DecVector(old(dec.Unread()), len).got {
      var d := DecU(old(dec.Unread())[1..]);
      assert data == Padded(d.rest[..d.v], len);
    }
  }

  method DecodeElement(dec: Buffer, env: Env, k: Kind) returns (n: int, v: Field)
    requires dec.Valid()
    modifies dec`current, dec`lastError
    ensures dec.Valid() && dec.current >= old(dec.current)
    ensures n >= 0 ==> Follows(DecElement(env, k, old(dec.Unread())), n, v, dec.Unread())
    ensures n >= 0 && k.Single? ==>
              v.SingleVal? && v.x.Type() == k.dflt.Type() && DecElement(env, k, old(dec.Unread())).Body?
    ensures n >= 0 && DecU(old(dec.Unread())).Short? ==> DecU(dec.Unread()).Short?
    ensures dec.reliable && DecElement(env, k, old(dec.Unread())).Body? ==> n >= 0
    decreases dec.count - dec.current, 5
  {
    hide DecU, DecScalar, DecVector, DecNested, OfWord, ZeroScalar;
    NoElementThere(env, k, dec.Unread());
    v := Default(env, k);
    match k
    case Single(d) =>
      var x;
      n, x := dec.DecodeScalar(d.Type(), d);
      v := SingleVal(x);
    case Vector(len) =>
      var data;
      n, data := DecodeVectorField(dec, len);
      v := VectorVal(data);
    case Array(ty) =>
      // a lone element: the value decoder is applied to the type id, and the length stays zero
      var x;
      n, x := dec.DecodeValue(ty, ZeroScalar(ty));
    case _ =>
      n, v := DecodeNested(dec, env, k);
  }

  /** The default case of the switch. */
  method DecodeNested(dec: Buffer, env: Env, k: Kind) returns (n: int, v: Field)
    requires dec.Valid() && (k.Embed? || k.Pointer? || k.Structs?)
    modifies dec`current, dec`lastError
    ensures dec.Valid() && dec.current >= old(dec.current)
    ensures n >= 0 ==>
              var d := DecNested(env, k, old(dec.Unread()));
              n > 0 && d == Body(v, 1, dec.Unread())
    ensures dec.reliable && DecNested(env, k, old(dec.Unread())).Body? ==> n >= 0
    decreases dec.count - dec.current, 4
  {
    hide DecU, DecFields, Fields, TypeOfWord;
    v := Default(env, k);
    ghost var s := dec.Unread();
    var typeid;
    n, typeid := dec.DecodeType();
    if typeid != k.id {
      dec.lastError := GLME_E_TYPE;
      return -1, v;
    }
    if !k.Embed? {
      var ok := dec.Granted(1);
      if !ok {
        dec.lastError := GLME_E_NOMEM;
        return -1, v;
      }
    }
    var rec;
    n, rec := DecodeRecord(dec, env, k.id);
    if n >= 0 {
      v := if k.Embed? then EmbedVal(rec) else if k.Pointer? then PointerVal(rec) else StructsVal([]);
    }
  }

  /** The first half of `glme_decode_field`: peek at the next offset, and either step the counter
      or step over the offset to decode the field. */
  method FieldGate(dec: Buffer, delta: nat) returns (n: int, next: nat, decode: bool)
    requires dec.Valid()
    modifies dec`current, dec`lastError
    ensures dec.Valid() && dec.current >= old(dec.current)
    ensures match DecU(old(dec.Unread()))
            case Short(_) => n < 0
            case Got(offset, t) =>
              n >= 0 && (!decode ==> n == 0) &&
              if offset == 0 || delta == 0 then !decode && next == 0 && dec.Unread() == old(dec.Unread())
              else if delta < offset then !decode && next == delta + 1 && dec.Unread() == old(dec.Unread())
              else decode && next == delta && dec.Unread() == t
  {
    next, decode := delta, false;
    var offset: u64;
    n, offset := dec.PeekUint64();
    if n < 0 {
      return;
    }
    if offset == 0 || delta == 0 {
      return 0, 0, false;
    }
    if delta < offset {
      return 0, delta + 1, false;
    }
    dec.Skip(n);
    decode := true;
  }

  lemma {:induction false} DefaultOfSingle(env: Env, k: Kind)
    ensures k.Single? ==> Default(env, k) == SingleVal(k.dflt)
  {
  }

  method DecodeField(dec: Buffer, env: Env, delta: nat, k: Kind) returns (n: int, next: nat, v: Field)
    requires dec.Valid()
    modifies dec`current, dec`lastError
    ensures dec.Valid() && dec.current >= old(dec.current)
    ensures n >= 0 ==>
              var d := DecField(env, k, delta, old(dec.Unread()));
              d == Decoded(v, next, dec.Unread()) || (d.FieldFail? && DecU(dec.Unread()).Short?)
    ensures n >= 0 ==> n == dec.current - old(dec.current)
    ensures n >= 0 && k.Single? ==>
              v.SingleVal? && v.x.Type() == k.dflt.Type() && DecField(env, k, delta, old(dec.Unread())).Decoded?
    ensures DecU(old(dec.Unread())).Short? ==> n < 0
    ensures dec.reliable && DecField(env, k, delta, old(dec.Unread())).Decoded? ==> n >= 0
    decreases dec.count - dec.current, 1
  {
    hide DecU, DecBody, Default;
    DefaultOfSingle(env, k);
    v := Default(env, k);
    var start, decode := dec.current, false;
    n, next, decode := FieldGate(dec, delta);
    if n < 0 || !decode {
      return;
    }
    n, v := DecodeBody(dec, env, k);
    if n > 0 {
      next := 1;
    }
    return if n < 0 then n else dec.current - start, next, v;
  }

  ghost function WithFields(done: seq<Field>, d: RecordDec): RecordDec {
    match d
    case RecordFail => RecordFail
    case Record(vs, rest) => Record(done + vs, rest)
  }

  lemma {:induction false} DecFieldsStep(env: Env, kinds: seq<Kind>, delta: nat, done: seq<Field>, s: bytes)
    requires kinds != []
    ensures match DecField(env, kinds[0], delta, s)
            case FieldFail => DecFields(env, kinds, delta, s) == RecordFail
            case Decoded(v, next, t) =>
              WithFields(done, DecFields(env, kinds, delta, s))
              == WithFields(done + [v], DecFields(env, kinds[1..], next, t))
  {
    hide DecField;
    match DecField(env, kinds[0], delta, s)
    case FieldFail =>
    case Decoded(v, next, t) =>
      match DecFields(env, kinds[1..], next, t)
      case RecordFail =>
      case Record(vs, rest) => assert done + ([v] + vs) == (done + [v]) + vs;
  }

  /** A user's decoder function: start, one macro for each field, end mark. */
  method DecodeRecord(dec: Buffer, env: Env, id: UserId) returns (n: int, rec: seq<Field>)
    requires dec.Valid()
    modifies dec`current, dec`lastError
    ensures dec.Valid() && dec.current >= old(dec.current)
    ensures n >= 0 ==> n == dec.current - old(dec.current) > 0
    ensures n >= 0 ==> DecFields(env, Fields(env, id), 1, old(dec.Unread())) == Record(rec, dec.Unread())
    ensures dec.reliable && DecFields(env, Fields(env, id), 1, old(dec.Unread())).Record? ==> n >= 0
    decreases dec.count - dec.current, 2
  {
    hide DecU, DecField;
    var kinds := Fields(env, id);
    var start, delta: nat, i := dec.current, 1, 0;
    rec := [];
    ghost var whole := DecFields(env, kinds, delta, dec.Unread());
    assert WithFields([], whole) == whole && kinds[0..] == kinds;
    while i < |kinds|
      invariant 0 <= i <= |kinds|
      invariant dec.Valid() && dec.current >= start
      invariant || whole == WithFields(rec, DecFields(env, kinds[i..], delta, dec.Unread()))
                || (whole == RecordFail && DecU(dec.Unread()).Short?)
    {
      assert kinds[i..][0] == kinds[i] && kinds[i..][1..] == kinds[i + 1..];
      DecFieldsStep(env, kinds[i..], delta, rec, dec.Unread());
      var v;
      n, delta, v := DecodeField(dec, env, delta, kinds[i]);
      if n < 0 {
        return;
      }
      rec := rec + [v];
      i := i + 1;
    }
    assert kinds[i..] == [];
    n := DecodeEnd(dec);
    if n < 0 {
      return -4, rec;
    }
    return dec.current - start, rec;
  }

  /** An unfinished number is not a struct. */
  lemma {:induction false} NoRecordThere(env: Env, kinds: seq<Kind>, s: bytes)
    ensures DecU(s).Short? ==> DecFields(env, kinds, 1, s) == RecordFail
  {
  }

  /** A whole message, read by the decoder of `id`. Type id zero stands for any. */
  method DecodeStruct(dec: Buffer, env: Env, typeid: int, id: UserId) returns (n: int, rec: seq<Field>)
    requires dec.Valid()
    modifies dec`current, dec`lastError
    ensures dec.Valid() && dec.current >= old(dec.current)
    ensures n >= 0 ==> n == dec.current - old(dec.current) > 0
    ensures n >= 0 ==> DecMessage(env, typeid, id, old(dec.Unread())) == Record(rec, dec.Unread())
    ensures dec.reliable && DecMessage(env, typeid, id, old(dec.Unread())).Record? ==> n >= 0
  {
    hide DecU, DecFields, TypeOfWord, Fields;
    NoRecordThere(env, Fields(env, id), dec.Unread());
    var start := dec.current;
    rec := [];
    var typ;
    n, typ := dec.DecodeType();
    if typeid != 0 && typ != typeid {
      dec.lastError := GLME_E_TYPE;
      return -1, rec;
    }
    var ok := dec.Granted(1);
    if !ok {
      dec.lastError := GLME_E_NOMEM;
      return -1, rec;
    }
    n, rec := DecodeRecord(dec, env, id);
    return if n < 0 then n else dec.current - start, rec;
  }
}
