/**
 The format of structs as the description has it: pairs of a field number and a
 value, where numbers are sent as differences and start from -1, and a zero
 difference for the end. What the encoder writes is exactly that.
 */
module WireFormat {
  import opened Words
  import opened Float64
  import opened Gobber
  import opened Wire
  import opened Arrays
  import opened Schema

  /** A signed number: bit 0 says whether the bits above are to be complemented. */
  function SignedForm(i: i64): bytes {
    EncU(if i < 0 then -2 * i - 1 else 2 * i)
  }

  /** A number without its type. */
  function ValueForm(x: Scalar): bytes {
    match x
    case I(i) => SignedForm(i)
    case U(u) => EncU(u)
    case F(f) => EncU(FloatWord(f))
  }

  function ValueForms(xs: seq<Scalar>): seq<bytes> {
    seq(|xs|, i requires 0 <= i < |xs| => ValueForm(xs[i]))
  }

  /** The value of a pair, with its type id. */
  function BodyForm(env: Env, k: Kind, v: Field): bytes
    requires FitsField(env, k, v)
    decreases v, 0
  {
    match k
    case Single(I(_)) => [4] + ValueForm(v.x)
    case Single(U(_)) => [6] + ValueForm(v.x)
    case Single(F(_)) => [8] + ValueForm(v.x)
    case Vector(_) => [10] + EncU(|v.data|) + v.data
    case Array(ty) =>
      [20, match ty case TInt => 4 case TUint => 6 case TFloat => 8] + EncU(|v.elems|) + Concat(ValueForms(v.elems))
    case Embed(id) => EncU(2 * id) + RecordForm(env, id, v.rec)
    case Pointer(id) => if v.Null? then [] else EncU(2 * id) + RecordForm(env, id, v.rec)
    case Structs(id) =>
      [20] + EncU(2 * id) + EncU(|v.recs|) + Concat(RecordForms(env, id, v.recs))
  }

  function RecordForms(env: Env, id: UserId, recs: seq<Rec>): seq<bytes>
    requires FitAll(env, id, recs)
    decreases recs, 3
  {
    seq(|recs|, i requires 0 <= i < |recs| =>
      assert recs[i] in recs;
      RecordForm(env, id, recs[i].vals))
  }

  /** A struct value: the first field has number 0. */
  function RecordForm(env: Env, id: UserId, rec: seq<Field>): bytes
    requires Fits(env, Fields(env, id), rec)
    decreases rec, 2
  {
    FieldsForm(env, Fields(env, id), rec, 0, -1)
  }

  /** The pairs from field number `i` on, after field number `last` was sent. */
  function FieldsForm(env: Env, kinds: seq<Kind>, vals: seq<Field>, i: nat, last: int): bytes
    requires Fits(env, kinds, vals) && -1 <= last < i <= |kinds| < TWO_32
    decreases vals, 1, |kinds| - i
  {
    if i == |kinds| then [0]
    else
      FitsAt(env, kinds, vals, i);
      if Omitted(kinds[i], vals[i]) then FieldsForm(env, kinds, vals, i + 1, last)
      else EncU(i - last) + BodyForm(env, kinds[i], vals[i]) + FieldsForm(env, kinds, vals, i + 1, i)
  }

  lemma {:induction false} FitsFrom(env: Env, kinds: seq<Kind>, vals: seq<Field>, i: nat)
    requires Fits(env, kinds, vals) && i <= |kinds|
    ensures Fits(env, kinds[i..], vals[i..])
    decreases i
  {
    if i > 0 {
      FitsFrom(env, kinds[1..], vals[1..], i - 1);
      assert kinds[1..][i - 1..] == kinds[i..] && vals[1..][i - 1..] == vals[i..];
    } else {
      assert kinds[0..] == kinds && vals[0..] == vals;
    }
  }

  lemma {:induction false} ValueIsForm(x: Scalar)
    ensures EncValue(x) == ValueForm(x)
  {
    if x.I? {
      ZigzagBijection(x.i, 0);
    }
  }

  lemma {:induction false} ScalarsAreForms(elems: seq<Scalar>)
    ensures EncScalars(elems) == Concat(ValueForms(elems))
  {
    hide EncValue, ValueForm;
    if elems != [] {
      ValueIsForm(elems[0]);
      ScalarsAreForms(elems[1..]);
      assert ValueForms(elems)[1..] == ValueForms(elems[1..]);
    }
  }

  lemma {:induction false} RecordsAreForms(env: Env, id: UserId, recs: seq<Rec>)
    requires FitAll(env, id, recs)
    ensures EncRecords(env, id, recs) == Concat(RecordForms(env, id, recs))
    decreases recs, 3
  {
    hide EncRecord, RecordForm, Fits;
    if recs != [] {
      RecordIsForm(env, id, recs[0].vals);
      RecordsAreForms(env, id, recs[1..]);
      assert RecordForms(env, id, recs)[1..] == RecordForms(env, id, recs[1..]);
    }
  }

  lemma {:induction false} RecordIsForm(env: Env, id: UserId, rec: seq<Field>)
    requires Fits(env, Fields(env, id), rec)
    ensures EncRecord(env, id, rec) == RecordForm(env, id, rec)
    decreases rec, 2
  {
    hide EncFields, FieldsForm;
    var kinds := Fields(env, id);
    FieldsAreForms(env, kinds, rec, 0, -1);
    assert kinds[0..] == kinds && rec[0..] == rec;
  }

  /** The encoder's distance is the difference of the field numbers. */
  lemma {:induction false} FieldsAreForms(env: Env, kinds: seq<Kind>, vals: seq<Field>, i: nat, last: int)
    requires Fits(env, kinds, vals) && -1 <= last < i <= |kinds| < MAX_FIELDS
    ensures Fits(env, kinds[i..], vals[i..])
    ensures EncFields(env, kinds[i..], vals[i..], i - last) == FieldsForm(env, kinds, vals, i, last)
    decreases vals, 1, |kinds| - i
  {
    hide EncU, EncBody, BodyForm, Omitted, FitsField, Fits;
    FitsFrom(env, kinds, vals, i);
    if i == |kinds| {
      EndIsZero(env);
    } else {
      FitsAt(env, kinds, vals, i);
      FitsFrom(env, kinds, vals, i + 1);
      assert kinds[i..][0] == kinds[i] && kinds[i..][1..] == kinds[i + 1..];
      assert vals[i..][0] == vals[i] && vals[i..][1..] == vals[i + 1..];
      if Omitted(kinds[i], vals[i]) {
        FieldsAreForms(env, kinds, vals, i + 1, last);
      } else {
        BodyIsForm(env, kinds[i], vals[i]);
        FieldsAreForms(env, kinds, vals, i + 1, i);
      }
    }
  }

  lemma {:induction false} EndIsZero(env: Env)
    ensures EncU(0) == [0]
  {
  }

  lemma {:induction false} BodyIsForm(env: Env, k: Kind, v: Field)
    requires FitsField(env, k, v) && !Omitted(k, v)
    ensures EncBody(env, k, v) == BodyForm(env, k, v)
    decreases v, 0
  {
    hide EncU, EncScalar, EncVector, EncArrayStart, EncScalars, EncRecords, EncRecord, RecordForm, EncType, IeeeEqual;
    match k
    case Single(_) =>
      ScalarBytes(v.x);
    case Vector(_) =>
      VectorRoundTrip(v.data, 0, []);
    case Array(ty) =>
      ArrayStartForm(TypeCode(ty), |v.elems|);
      ScalarsAreForms(v.elems);
    case Embed(id) =>
      TypeBytes(id);
      RecordIsForm(env, id, v.rec);
    case Pointer(id) =>
      TypeBytes(id);
      RecordIsForm(env, id, v.rec);
    case Structs(id) =>
      ArrayStartForm(id, |v.recs|);
      RecordsAreForms(env, id, v.recs);
  }

  lemma {:induction false} ArrayStartForm(id: TypeId, n: u64)
    ensures EncArrayStart(id, n) == [20] + EncU(2 * id) + EncU(n)
    ensures id < 64 ==> EncArrayStart(id, n) == [20, 2 * id] + EncU(n)
  {
    hide EncU, EncType;
    TypeBytes(id);
  }

  /** What the encoder writes for a message is the type id and the pairs. */
  lemma {:induction false} MessageForm(env: Env, id: UserId, rec: seq<Field>)
    requires Fits(env, Fields(env, id), rec)
    ensures EncStruct(env, id, rec) == EncU(2 * id) + RecordForm(env, id, rec)
  {
    hide EncU, EncRecord, RecordForm, Fits;
    TypeBytes(id);
    RecordIsForm(env, id, rec);
  }

  /** A struct with the default in every field, and no embedded struct, is an end mark after its type id. */
  lemma {:induction false} DefaultsAreSilent(env: Env, id: UserId, rec: seq<Field>)
    requires Fits(env, Fields(env, id), rec)
    requires forall i | 0 <= i < |rec| ::
               match Fields(env, id)[i]
               case Single(I(n)) => rec[i] == SingleVal(I(n))
               case Single(U(n)) => rec[i] == SingleVal(U(n))
               case Single(F(f)) => rec[i].SingleVal? && rec[i].x.F? && IeeeEqual(rec[i].x.f, f)
               case Vector(_) => rec[i] == VectorVal([])
               case Array(_) => rec[i] == ArrayVal([])
               case Structs(_) => rec[i] == StructsVal([])
               case Pointer(_) => rec[i] == Null
               case Embed(_) => false
    ensures EncStruct(env, id, rec) == EncU(2 * id) + [0]
  {
    hide EncU, EncStruct, FieldsForm, Omitted, IeeeEqual, Fits;
    MessageForm(env, id, rec);
    forall i | 0 <= i < |rec| ensures Omitted(Fields(env, id)[i], rec[i]) {
      FitsAt(env, Fields(env, id), rec, i);
      OmittedMeans(env, Fields(env, id)[i], rec[i]);
    }
    SilentFrom(env, Fields(env, id), rec, 0);
  }

  lemma {:induction false} SilentFrom(env: Env, kinds: seq<Kind>, vals: seq<Field>, i: nat)
    requires Fits(env, kinds, vals) && i <= |kinds| < TWO_32
    requires forall j | i <= j < |kinds| :: Omitted(kinds[j], vals[j])
    ensures FieldsForm(env, kinds, vals, i, -1) == [0]
    decreases |kinds| - i
  {
    hide Omitted, Fits, BodyForm;
    if i < |kinds| {
      SilentFrom(env, kinds, vals, i + 1);
    }
  }
}
