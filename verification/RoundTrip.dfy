/**
 What the struct decoder makes of the struct encoder's output: round trip, schema
 evolution, dropped fields, and the offset protocol that carries them.
 */
module RoundTrip {
  import opened Words
  import opened Float64
  import opened Gobber
  import opened Wire
  import opened Arrays
  import opened Schema
  import opened Readers

  // ---------------------------------------------------------------- end mark and offsets

  predicate AllOmitted(kinds: seq<Kind>, vals: seq<Field>)
    requires |kinds| == |vals|
  {
    forall i | 0 <= i < |vals| :: Omitted(kinds[i], vals[i])
  }

  lemma {:induction false} AllOmittedFrom(kinds: seq<Kind>, vals: seq<Field>)
    requires |kinds| == |vals| > 0 && Omitted(kinds[0], vals[0]) && AllOmitted(kinds[1..], vals[1..])
    ensures AllOmitted(kinds, vals)
  {
    hide Omitted;
    forall n | 0 <= n < |kinds| ensures Omitted(kinds[n], vals[n]) {
      if n > 0 {
        assert kinds[n] == kinds[1..][n - 1] && vals[n] == vals[1..][n - 1];
      }
    }
  }

  lemma {:induction false} EndMark(rest: bytes)
    ensures EncU(0) == [0] && DecU([0] + rest) == Got(0, rest) && DecEnd([0] + rest) == Record([], rest)
  {
    assert EncU(0) == [0];
    UnsignedRoundTrip(0, rest);
  }

  datatype CallsDec = CallFail | Calls(vals: seq<Field>, rest: bytes)

  /** The field calls alone, up to the check of the end mark. */
  function DecCalls(env: Env, kinds: seq<Kind>, delta: nat, s: bytes): CallsDec
    decreases |kinds|
  {
    if kinds == [] then Calls([], s)
    else
      match DecField(env, kinds[0], delta, s)
      case FieldFail => CallFail
      case Decoded(v, delta', t) =>
        match DecCalls(env, kinds[1..], delta', t)
        case CallFail => CallFail
        case Calls(vs, rest) => Calls([v] + vs, rest)
  }

  /** A struct decoder is its field calls and then the check of the end mark. */
  lemma {:induction false} CallsThenEnd(env: Env, kinds: seq<Kind>, delta: nat, s: bytes)
    ensures DecFields(env, kinds, delta, s) ==
            match DecCalls(env, kinds, delta, s)
            case CallFail => RecordFail
            case Calls(vs, t) => match DecEnd(t) case RecordFail => RecordFail case Record(_, rest) => Record(vs, rest)
    decreases |kinds|
  {
    hide DecField, DecU;
    if kinds != [] {
      var d := DecField(env, kinds[0], delta, s);
      if d.Decoded? {
        CallsThenEnd(env, kinds[1..], d.delta, d.rest);
      }
    }
  }

  /** In front of an end mark every field takes its default, whatever the counter. */
  lemma {:induction false} AtEndMark(env: Env, kinds: seq<Kind>, delta: nat, rest: bytes)
    ensures DecCalls(env, kinds, delta, [0] + rest) == Calls(Defaults(env, kinds), [0] + rest)
    decreases |kinds|
  {
    hide Default;
    EndMark(rest);
    if kinds != [] {
      AtEndMark(env, kinds[1..], 0, rest);
    }
  }

  /** The encoder's output starts with the end mark if nothing is left to send, otherwise with
      an offset that is at least the current distance. */
  lemma {:induction false} NextOffset(env: Env, kinds: seq<Kind>, vals: seq<Field>, delta: nat, rest: bytes)
    requires Fits(env, kinds, vals) && 1 <= delta && delta + |kinds| <= TWO_32
    ensures var s := EncFields(env, kinds, vals, delta);
            if AllOmitted(kinds, vals) then s == [0]
            else DecU(s + rest).Got? && DecU(s + rest).v >= delta
    decreases |kinds|
  {
    hide DecU, EncU, EncBody, Omitted, FitsField;
    EndMark([]);
    if kinds != [] {
      if Omitted(kinds[0], vals[0]) {
        NextOffset(env, kinds[1..], vals[1..], delta + 1, rest);
        if AllOmitted(kinds[1..], vals[1..]) {
          AllOmittedFrom(kinds, vals);
        } else {
          var i :| 0 <= i < |vals[1..]| && !Omitted(kinds[1..][i], vals[1..][i]);
          assert !Omitted(kinds[i + 1], vals[i + 1]);
        }
      } else {
        var tail := EncBody(env, kinds[0], vals[0]) + EncFields(env, kinds[1..], vals[1..], 1);
        assert EncFields(env, kinds, vals, delta) + rest == EncU(delta) + (tail + rest);
        UnsignedRoundTrip(delta, tail + rest);
      }
    }
  }

  // ---------------------------------------------------------------- what a reader makes of it

  /** What the field calls of a reader come to: the fields as it sees them, in front of the end mark if it
      knows all that was sent and in front of something else if not; or a failure in a nested struct of
      which it does not know all that was sent. */
  ghost predicate ReadAs(env: Env, reader: Env, kinds: seq<Kind>, kinds': seq<Kind>, vals: seq<Field>,
                         d: CallsDec, rest: bytes) {
    if KnowsShared(env, reader, kinds, kinds', vals) then
      d.Calls? && d.vals == SeenFields(reader, kinds', vals) &&
      DecEnd(d.rest) == if OmittedAfter(|kinds'|, kinds, vals) then Record([], rest) else RecordFail
    else d == CallFail
  }

  /** The field calls on data written under `env`, by a reader that may know more fields of some types and
      fewer of others. `delta` is both sides' counter. */
  lemma {:induction false} ReadFields(env: Env, reader: Env, kinds: seq<Kind>, kinds': seq<Kind>,
                                      vals: seq<Field>, delta: nat, rest: bytes)
    requires Related(env, reader) && (kinds <= kinds' || kinds' <= kinds)
    requires Fits(env, kinds, vals) && 1 <= delta && delta + |kinds| <= TWO_32
    ensures ReadAs(env, reader, kinds, kinds', vals,
                   DecCalls(reader, kinds', delta, EncFields(env, kinds, vals, delta) + rest), rest)
    decreases vals, 1
  {
    hide DecU, EncU, DecField, EncBody, FitsField, Seen, DecBody, Omitted, KnowsField, Default, DecEnd;
    hide ReadAs, BodyReadAs;
    var s := EncFields(env, kinds, vals, delta) + rest;
    if kinds == [] {
      OnlyDefaults(env, reader, kinds', delta, rest);
    } else if kinds' == [] {
      NoFieldsKnown(env, reader, kinds, vals, delta, rest);
    } else if Omitted(kinds[0], vals[0]) {
      ReadFields(env, reader, kinds[1..], kinds'[1..], vals[1..], delta + 1, rest);
      OmittedField(env, reader, kinds, kinds', vals, delta, rest);
      ReadOneMore(env, reader, kinds, kinds', vals, DecCalls(reader, kinds'[1..], delta + 1, s), rest);
    } else {
      var tail := EncFields(env, kinds[1..], vals[1..], 1) + rest;
      ReadBody(env, reader, kinds[0], vals[0], tail);
      SentFieldRead(env, reader, kinds, kinds', vals, delta, rest);
      ReadFields(env, reader, kinds[1..], kinds'[1..], vals[1..], 1, rest);
      ReadOneMore(env, reader, kinds, kinds', vals, DecCalls(reader, kinds'[1..], 1, tail), rest);
    }
  }

  /** A sent field: it is decoded or fails, and after it both counters start anew. */
  lemma {:induction false} SentFieldRead(env: Env, reader: Env, kinds: seq<Kind>, kinds': seq<Kind>,
                                         vals: seq<Field>, delta: nat, rest: bytes)
    requires kinds != [] && kinds' != [] && kinds[0] == kinds'[0]
    requires Fits(env, kinds, vals) && 1 <= delta && delta + |kinds| <= TWO_32
    requires !Omitted(kinds[0], vals[0])
    requires var tail := EncFields(env, kinds[1..], vals[1..], 1) + rest;
             BodyReadAs(env, reader, kinds[0], vals[0],
                        DecBody(reader, kinds[0], EncBody(env, kinds[0], vals[0]) + tail), tail)
    ensures var d := DecCalls(reader, kinds'[1..], 1, EncFields(env, kinds[1..], vals[1..], 1) + rest);
            DecCalls(reader, kinds', delta, EncFields(env, kinds, vals, delta) + rest) ==
            if KnowsField(env, reader, kinds[0], vals[0]) && d.Calls?
            then Calls([Seen(reader, kinds'[0], vals[0])] + d.vals, d.rest) else CallFail
  {
    hide DecU, EncU, DecField, EncBody, FitsField, Seen, DecBody, Omitted, KnowsField;
    var tail := EncFields(env, kinds[1..], vals[1..], 1) + rest;
    var body := EncBody(env, kinds[0], vals[0]);
    assert EncFields(env, kinds, vals, delta) + rest == EncU(delta) + (body + tail);
    SentField(reader, kinds[0], delta, body, tail);
  }

  /** When nothing is left to be sent the reader is at the end mark. */
  lemma {:induction false} OnlyDefaults(env: Env, reader: Env, kinds': seq<Kind>, delta: nat, rest: bytes)
    ensures ReadAs(env, reader, [], kinds', [], DecCalls(reader, kinds', delta, EncU(0) + rest), rest)
  {
    hide DecEnd, DecCalls, EncU;
    EndMark(rest);
    AtEndMark(reader, kinds', delta, rest);
  }

  /** A reader that knows no field more stands at the end mark or at an offset. */
  lemma {:induction false} NoFieldsKnown(env: Env, reader: Env, kinds: seq<Kind>, vals: seq<Field>,
                                         delta: nat, rest: bytes)
    requires Fits(env, kinds, vals) && 1 <= delta && delta + |kinds| <= TWO_32
    ensures ReadAs(env, reader, kinds, [], vals,
                   DecCalls(reader, [], delta, EncFields(env, kinds, vals, delta) + rest), rest)
  {
    hide DecU, EncU, EncFields, FitsField, Omitted;
    EndMark(rest);
    NextOffset(env, kinds, vals, delta, rest);
  }

  /** One more field in front of those read already. */
  lemma {:induction false} ReadOneMore(env: Env, reader: Env, kinds: seq<Kind>, kinds': seq<Kind>,
                                       vals: seq<Field>, d: CallsDec, rest: bytes)
    requires kinds != [] && kinds' != [] && |vals| == |kinds|
    requires ReadAs(env, reader, kinds[1..], kinds'[1..], vals[1..], d, rest)
    ensures ReadAs(env, reader, kinds, kinds', vals,
                   if KnowsField(env, reader, kinds[0], vals[0]) && d.Calls?
                   then Calls([Seen(reader, kinds'[0], vals[0])] + d.vals, d.rest) else CallFail, rest)
  {
    hide KnowsField, Seen, Omitted, DecEnd;
    var n := |kinds'|;
    if OmittedAfter(n - 1, kinds[1..], vals[1..]) {
      forall i | n <= i < |kinds| ensures Omitted(kinds[i], vals[i]) {
        assert kinds[i] == kinds[1..][i - 1] && vals[i] == vals[1..][i - 1];
      }
    } else {
      var i :| n - 1 <= i < |kinds[1..]| && !Omitted(kinds[1..][i], vals[1..][i]);
      assert !Omitted(kinds[i + 1], vals[i + 1]);
    }
  }

  /** An omitted field: both counters move on, or the decoder is at the end mark and stays there. */
  lemma {:induction false} OmittedField(env: Env, reader: Env, kinds: seq<Kind>, kinds': seq<Kind>,
                                        vals: seq<Field>, delta: nat, rest: bytes)
    requires kinds != [] && kinds' != [] && kinds[0] == kinds'[0]
    requires Fits(env, kinds, vals) && 1 <= delta && delta + |kinds| <= TWO_32
    requires Omitted(kinds[0], vals[0])
    ensures KnowsField(env, reader, kinds[0], vals[0])
    ensures var s := EncFields(env, kinds, vals, delta) + rest;
            var d := DecCalls(reader, kinds'[1..], delta + 1, s);
            DecCalls(reader, kinds', delta, s) ==
            if d.Calls? then Calls([Seen(reader, kinds'[0], vals[0])] + d.vals, d.rest) else CallFail
  {
    hide DecU, EncBody, DecBody, EncU, Seen, Omitted, FitsField, Default, KnowsField;
    var s := EncFields(env, kinds, vals, delta) + rest;
    OmittedIsDefault(env, reader, kinds[0], vals[0]);
    NextOffset(env, kinds[1..], vals[1..], delta + 1, rest);
    if AllOmitted(kinds[1..], vals[1..]) {
      EndMark(rest);
      AtEndMark(reader, kinds'[1..], 0, rest);
      AtEndMark(reader, kinds'[1..], delta + 1, rest);
      assert DecField(reader, kinds'[0], delta, s) == Decoded(Default(reader, kinds'[0]), 0, s);
    } else {
      assert DecField(reader, kinds'[0], delta, s) == Decoded(Default(reader, kinds'[0]), delta + 1, s);
    }
  }

  /** A sent field is decoded, well or not, when the counter has reached its offset. */
  lemma {:induction false} SentField(reader: Env, k: Kind, delta: nat, body: bytes, tail: bytes)
    requires 1 <= delta < TWO_64
    requires var d := DecBody(reader, k, body + tail); d.Body? ==> d.code > 0
    ensures DecField(reader, k, delta, EncU(delta) + (body + tail)) ==
            match DecBody(reader, k, body + tail)
            case BodyFail => FieldFail
            case Body(v, _, rest) => Decoded(v, 1, rest)
  {
    hide DecU, EncU, DecBody;
    UnsignedRoundTrip(delta, body + tail);
  }

  lemma {:induction false} OmittedIsDefault(env: Env, reader: Env, k: Kind, v: Field)
    requires FitsField(env, k, v) && Omitted(k, v)
    ensures Seen(reader, k, v) == Default(reader, k) && KnowsField(env, reader, k, v)
  {
  }

  /** A sent field comes back as its reader sees it, or fails if the reader does not know all of it. */
  ghost predicate BodyReadAs(env: Env, reader: Env, k: Kind, v: Field, d: BodyDec, rest: bytes) {
    if KnowsField(env, reader, k, v) then d.Body? && d.code > 0 && d.v == Seen(reader, k, v) && d.rest == rest
    else d == BodyFail
  }

  lemma {:induction false} ReadBody(env: Env, reader: Env, k: Kind, v: Field, rest: bytes)
    requires Related(env, reader) && FitsField(env, k, v) && !Omitted(k, v)
    ensures BodyReadAs(env, reader, k, v, DecBody(reader, k, EncBody(env, k, v) + rest), rest)
    decreases v, 1
  {
    hide DecU, EncBody, DecBody, Seen, Omitted, FitsField, BodyReadAs;
    match k
    case Single(_) => ScalarBody(env, reader, k, v, rest);
    case Vector(_) => VectorBody(env, reader, k, v, rest);
    case Array(_) => ReadNumbers(env, reader, k, v, rest);
    case Embed(_) => ReadNested(env, reader, k, v, rest);
    case Pointer(_) => ReadNested(env, reader, k, v, rest);
    case Structs(_) => ReadStructs(env, reader, k, v, rest);
  }

  lemma {:induction false} ReadNested(env: Env, reader: Env, k: Kind, v: Field, rest: bytes)
    requires Related(env, reader) && FitsField(env, k, v) && !Omitted(k, v)
    requires k.Embed? || k.Pointer?
    ensures BodyReadAs(env, reader, k, v, DecBody(reader, k, EncBody(env, k, v) + rest), rest)
    decreases v, 0
  {
    hide DecU, EncType, EncFields, DecFields, DecBody, Fields, Knows;
    var fields := EncRecord(env, k.id, v.rec);
    ReadRecord(env, reader, k.id, v.rec, rest);
    NestedBody(reader, k, fields + rest);
    assert EncBody(env, k, v) + rest == EncType(k.id) + (fields + rest);
  }

  lemma {:induction false} ReadStructs(env: Env, reader: Env, k: Kind, v: Field, rest: bytes)
    requires Related(env, reader) && FitsField(env, k, v) && !Omitted(k, v) && k.Structs?
    ensures BodyReadAs(env, reader, k, v, DecBody(reader, k, EncBody(env, k, v) + rest), rest)
    decreases v, 0
  {
    hide DecU, EncArrayStart, EncRecords, DecRecords, DecBody, Fields, KnowsAll, SeenRecords;
    var data := EncRecords(env, k.id, v.recs);
    ReadRecords(env, reader, k.id, v.recs, rest);
    RecordsNotEmpty(env, k.id, v.recs);
    StructsBody(reader, k, |v.recs|, data + rest);
    assert EncBody(env, k, v) + rest == EncArrayStart(k.id, |v.recs|) + (data + rest);
  }

  lemma {:induction false} RecordsNotEmpty(env: Env, id: UserId, recs: seq<Rec>)
    requires FitAll(env, id, recs) && recs != []
    ensures EncRecords(env, id, recs) != []
  {
    hide EncFields, Fields;
  }

  lemma {:induction false} ReadNumbers(env: Env, reader: Env, k: Kind, v: Field, rest: bytes)
    requires FitsField(env, k, v) && !Omitted(k, v) && k.Array?
    ensures BodyReadAs(env, reader, k, v, DecBody(reader, k, EncBody(env, k, v) + rest), rest)
  {
    hide DecU, EncU, EncArrayStart, DecScalars, DecBody;
    var data := EncScalars(v.elems);
    ScalarsRoundTrip(k.ty, v.elems, rest);
    NumbersBody(reader, k, |v.elems|, data + rest);
    assert EncBody(env, k, v) + rest == EncArrayStart(TypeCode(k.ty), |v.elems|) + (data + rest);
  }

  lemma {:induction false} NestedBody(reader: Env, k: Kind, s: bytes)
    requires k.Embed? || k.Pointer?
    ensures DecBody(reader, k, EncType(k.id) + s) ==
            match DecFields(reader, Fields(reader, k.id), 1, s)
            case RecordFail => BodyFail
            case Record(rec, t) => Body(if k.Embed? then EmbedVal(rec) else PointerVal(rec), 1, t)
  {
    hide DecU, TypeOfWord, EncType, DecFields, Fields;
    TypeRoundTrip(k.id, s);
    assert DecElement(reader, k, EncType(k.id) + s) == DecNested(reader, k, EncType(k.id) + s);
  }

  lemma {:induction false} StructsBody(reader: Env, k: Kind, n: nat, s: bytes)
    requires k.Structs? && 0 < n <= INT_MAX
    ensures DecBody(reader, k, EncArrayStart(k.id, n) + s) ==
            match DecRecords(reader, k.id, n, s)
            case RecordsFail => BodyFail
            case Records(recs, t) => Body(StructsVal(recs), |s| - |t|, t)
  {
    hide DecU, TypeOfWord, DecArrayStart, EncArrayStart, DecRecords;
    ArrayStartRoundTrip(k.id, n, s);
  }

  lemma {:induction false} NumbersBody(reader: Env, k: Kind, n: nat, s: bytes)
    requires k.Array? && 0 < n <= INT_MAX
    ensures DecBody(reader, k, EncArrayStart(TypeCode(k.ty), n) + s) ==
            match DecScalars(k.ty, n, s)
            case ScalarsFail => BodyFail
            case Scalars(elems, t) => Body(ArrayVal(elems), |s| - |t|, t)
  {
    hide DecU, TypeOfWord, DecArrayStart, EncArrayStart, DecScalars;
    ArrayStartRoundTrip(TypeCode(k.ty), n, s);
  }

  lemma {:induction false} ScalarBody(env: Env, reader: Env, k: Kind, v: Field, rest: bytes)
    requires FitsField(env, k, v) && k.Single? && !Omitted(k, v)
    ensures BodyReadAs(env, reader, k, v, DecBody(reader, k, EncBody(env, k, v) + rest), rest)
  {
    hide DecU, TypeOfWord, EncScalar, DecScalar;
    ScalarRoundTrip(v.x, k.dflt, rest);
  }

  lemma {:induction false} VectorBody(env: Env, reader: Env, k: Kind, v: Field, rest: bytes)
    requires FitsField(env, k, v) && k.Vector? && !Omitted(k, v)
    ensures BodyReadAs(env, reader, k, v, DecBody(reader, k, EncBody(env, k, v) + rest), rest)
  {
    hide DecU, TypeOfWord, EncVector, DecVector;
    VectorRoundTrip(v.data, k.len, rest);
  }

  /** A nested struct, or the fields of a message. */
  lemma {:induction false} ReadRecord(env: Env, reader: Env, id: UserId, rec: seq<Field>, rest: bytes)
    requires Related(env, reader) && Fits(env, Fields(env, id), rec)
    ensures DecFields(reader, Fields(reader, id), 1, EncRecord(env, id, rec) + rest)
         == if Knows(env, reader, Fields(env, id), Fields(reader, id), rec)
            then Record(SeenFields(reader, Fields(reader, id), rec), rest) else RecordFail
    decreases rec, 2
  {
    hide DecCalls, DecFields, EncFields, DecEnd, SeenFields, KnowsShared, OmittedAfter, Fields;
    ReadFields(env, reader, Fields(env, id), Fields(reader, id), rec, 1, rest);
    CallsThenEnd(reader, Fields(reader, id), 1, EncRecord(env, id, rec) + rest);
  }

  /** The elements of a struct array. */
  lemma {:induction false} ReadRecords(env: Env, reader: Env, id: UserId, recs: seq<Rec>, rest: bytes)
    requires Related(env, reader) && FitAll(env, id, recs)
    ensures DecRecords(reader, id, |recs|, EncRecords(env, id, recs) + rest)
         == if KnowsAll(env, reader, id, recs) then Records(SeenRecords(reader, id, recs), rest) else RecordsFail
    decreases recs, 3
  {
    hide DecFields, EncFields, SeenFields, Fits, Fields, Knows, DecRecords, EncRecords;
    var knows := (r: Rec) => Knows(env, reader, Fields(env, id), Fields(reader, id), r.vals);
    var see := (r: Rec) => Rec(SeenFields(reader, Fields(reader, id), r.vals));
    var enc, dec := RecordWriter(env, id), RecordReader(reader, id);
    forall r, t | r in recs
      ensures dec(enc(r) + t) == if knows(r) then AnElement(see(r), t) else NoElement
    {
      ReadRecord(env, reader, id, r.vals, t);
    }
    ElementsRead(enc, dec, knows, see, recs, rest);
    RecordsAreElements(env, id, recs);
    DecRecordsAreElements(reader, id, |recs|, EncRecords(env, id, recs) + rest);
    assert Map(see, recs) == SeenRecords(reader, id, recs);
  }

  // ---------------------------------------------------------------- arrays in fields are instances of arrays

  /** A user's encoder and decoder functions for a struct type, as array calls take them. */
  function RecordWriter(env: Env, id: UserId): Rec --> bytes {
    (r: Rec) requires Fits(env, Fields(env, id), r.vals) => EncRecord(env, id, r.vals)
  }

  function RecordReader(env: Env, id: UserId): bytes -> ElementDec<Rec> {
    s =>
      match DecFields(env, Fields(env, id), 1, s)
      case RecordFail => NoElement
      case Record(rec, t) => AnElement(Rec(rec), t)
  }

  /** A value decoder that is handed zeroed memory. */
  function ValueReader(ty: Ty): bytes -> ElementDec<Scalar> {
    s =>
      match DecValue(ty, ZeroScalar(ty), s)
      case SFail => NoElement
      case SDone(x, t) => AnElement(x, t)
  }

  lemma {:induction false} RecordsAreElements(env: Env, id: UserId, recs: seq<Rec>)
    requires FitAll(env, id, recs)
    ensures EncRecords(env, id, recs) == EncElements(RecordWriter(env, id), recs)
  {
    hide EncFields, Fields, Fits;
    if recs != [] {
      RecordsAreElements(env, id, recs[1..]);
    }
  }

  lemma {:induction false} DecRecordsAreElements(env: Env, id: UserId, n: nat, s: bytes)
    ensures DecRecords(env, id, n, s) ==
            match DecElements(RecordReader(env, id), n, s)
            case NoElements => RecordsFail
            case Elements(recs, rest) => Records(recs, rest)
    decreases n
  {
    hide DecFields, Fields;
    if n > 0 && DecFields(env, Fields(env, id), 1, s).Record? {
      DecRecordsAreElements(env, id, n - 1, DecFields(env, Fields(env, id), 1, s).rest);
    }
  }

  lemma {:induction false} ScalarsAreElements(elems: seq<Scalar>)
    ensures EncScalars(elems) == EncElements(EncValue, elems)
  {
    hide EncU;
    if elems != [] {
      ScalarsAreElements(elems[1..]);
    }
  }

  lemma {:induction false} DecScalarsAreElements(ty: Ty, n: nat, s: bytes)
    ensures DecScalars(ty, n, s) ==
            match DecElements(ValueReader(ty), n, s)
            case NoElements => ScalarsFail
            case Elements(xs, rest) => Scalars(xs, rest)
    decreases n
  {
    hide DecValue, ZeroScalar;
    if n > 0 && DecValue(ty, ZeroScalar(ty), s).SDone? {
      DecScalarsAreElements(ty, n - 1, DecValue(ty, ZeroScalar(ty), s).rest);
    }
  }

  lemma {:induction false} ScalarsRoundTrip(ty: Ty, elems: seq<Scalar>, rest: bytes)
    requires forall x | x in elems :: x.Type() == ty
    ensures DecScalars(ty, |elems|, EncScalars(elems) + rest) == Scalars(elems, rest)
  {
    hide DecU, EncU, OfWord, ZeroScalar, DecScalars, EncScalars;
    forall x, t | x in elems ensures ValueReader(ty)(EncValue(x) + t) == AnElement(x, t) {
      UnsignedRoundTrip(x.Word(), t);
      WordRoundTrip(x);
    }
    ElementsRead(EncValue, ValueReader(ty), x => true, x => x, elems, rest);
    ScalarsAreElements(elems);
    DecScalarsAreElements(ty, |elems|, EncScalars(elems) + rest);
    assert Map(x => x, elems) == elems;
  }

  /** The elements of a numeric array take between one and nine bytes each. */
  lemma {:induction false} ScalarDataLength(elems: seq<Scalar>)
    ensures |elems| <= |EncScalars(elems)| <= 9 * |elems|
  {
    hide EncU;
    ScalarsAreElements(elems);
    ElementsLength(EncValue, elems, 1, 9);
  }

  // ---------------------------------------------------------------- whole messages

  /** A message and a reader of any age: it reads the fields as it sees them and consumes exactly the
      message if it knows all that was sent, at every level, and fails if not. */
  lemma {:induction false} ReadStruct(env: Env, reader: Env, id: UserId, rec: seq<Field>, rest: bytes)
    requires Related(env, reader) && Fits(env, Fields(env, id), rec)
    ensures DecStruct(reader, id, EncStruct(env, id, rec) + rest)
         == if Knows(env, reader, Fields(env, id), Fields(reader, id), rec)
            then Record(SeenFields(reader, Fields(reader, id), rec), rest) else RecordFail
    ensures GetsAll(reader, Fields(reader, id), rec, SeenFields(reader, Fields(reader, id), rec))
  {
    hide DecU, EncType, TypeOfWord, DecFields, EncFields, SeenFields, Knows, GetsAll;
    SeenFieldsAreGot(env, reader, Fields(env, id), Fields(reader, id), rec);
    assert EncStruct(env, id, rec) + rest == EncType(id) + (EncRecord(env, id, rec) + rest);
    TypeRoundTrip(id, EncRecord(env, id, rec) + rest);
    ReadRecord(env, reader, id, rec, rest);
  }

  /** A message written under `env` and read under a later schema. */
  lemma {:induction false} EvolvedStruct(env: Env, later: Env, id: UserId, rec: seq<Field>, rest: bytes)
    requires Extends(env, later) && Fits(env, Fields(env, id), rec)
    ensures DecStruct(later, id, EncStruct(env, id, rec) + rest)
         == Record(SeenFields(later, Fields(later, id), rec), rest)
    ensures GetsAll(later, Fields(later, id), rec, DecStruct(later, id, EncStruct(env, id, rec) + rest).vals)
  {
    hide DecStruct, EncStruct, SeenFields, Knows, GetsAll;
    ReadStruct(env, later, id, rec, rest);
    LaterKnows(env, later, Fields(env, id), Fields(later, id), rec);
  }

  /** A message written under `env` and read under an older schema, in which any type may lack its last
      fields. If the reader knows the nested structs of its own fields, its field calls all succeed and give
      these fields as it sees them; then the end mark is there if and only if every field it does not know
      was omitted. If it does not know a nested struct, a field call fails. */
  lemma {:induction false} DroppedFields(env: Env, older: Env, id: UserId, rec: seq<Field>, rest: bytes)
    requires Extends(older, env) && Fits(env, Fields(env, id), rec)
    ensures DecStruct(older, id, EncStruct(env, id, rec) + rest)
         == if Knows(env, older, Fields(env, id), Fields(older, id), rec)
            then Record(SeenFields(older, Fields(older, id), rec), rest) else RecordFail
    ensures KnowsShared(env, older, Fields(env, id), Fields(older, id), rec) ==>
              var d := DecCalls(older, Fields(older, id), 1, EncRecord(env, id, rec) + rest);
              d.Calls? && d.vals == SeenFields(older, Fields(older, id), rec) &&
              GetsAll(older, Fields(older, id), rec, d.vals) &&
              if OmittedAfter(|Fields(older, id)|, Fields(env, id), rec) then DecEnd(d.rest) == Record([], rest)
              else DecEnd(d.rest) == RecordFail
    ensures !KnowsShared(env, older, Fields(env, id), Fields(older, id), rec) ==>
              DecCalls(older, Fields(older, id), 1, EncRecord(env, id, rec) + rest) == CallFail
  {
    hide DecStruct, EncStruct, DecCalls, EncFields, SeenFields, Knows, KnowsShared, DecEnd, GetsAll;
    ReadStruct(env, older, id, rec, rest);
    ReadFields(env, older, Fields(env, id), Fields(older, id), rec, 1, rest);
  }

  // ---------------------------------------------------------------- exact round trip

  /** Whether reading back changes no bit: a double is not the zero of the other sign than its default, and a
      vector has the length of the reader's array. */
  predicate LosslessField(env: Env, k: Kind, v: Field)
    decreases v, 0
  {
    match v
    case SingleVal(x) =>
      k.Single? ==> !(x == F(0) && k.dflt == F(NEGATIVE_ZERO)) && !(x == F(NEGATIVE_ZERO) && k.dflt == F(0))
    case VectorVal(data) => k.Vector? ==> |data| == k.len
    case EmbedVal(rec) => k.Embed? ==> Lossless(env, Fields(env, k.id), rec)
    case PointerVal(rec) => k.Pointer? ==> Lossless(env, Fields(env, k.id), rec)
    case StructsVal(recs) => k.Structs? ==> AllLossless(env, k.id, recs)
    case _ => true
  }

  predicate Lossless(env: Env, kinds: seq<Kind>, vals: seq<Field>)
    decreases vals, 1
  {
    vals == [] || kinds == [] ||
    (LosslessField(env, kinds[0], vals[0]) && Lossless(env, kinds[1..], vals[1..]))
  }

  predicate AllLossless(env: Env, id: UserId, recs: seq<Rec>)
    decreases recs, 2
  {
    forall r | r in recs :: Lossless(env, Fields(env, id), r.vals)
  }

  lemma {:induction false} SeenFieldIsSame(env: Env, k: Kind, v: Field)
    requires FitsField(env, k, v)
    ensures Seen(env, k, v) == v <==> LosslessField(env, k, v)
    decreases v, 0
  {
    match v
    case SingleVal(x) => OtherZero(x, k.dflt);
    case VectorVal(data) => assert |data| == k.len ==> Padded(data, k.len) == data;
    case EmbedVal(rec) => SeenIsSame(env, Fields(env, k.id), rec);
    case PointerVal(rec) => SeenIsSame(env, Fields(env, k.id), rec);
    case StructsVal(recs) =>
      forall i | 0 <= i < |recs|
        ensures SeenRecords(env, k.id, recs)[i] == recs[i] <==> Lossless(env, Fields(env, k.id), recs[i].vals)
      {
        SeenIsSame(env, Fields(env, k.id), recs[i].vals);
      }
    case _ =>
  }

  lemma {:induction false} SeenIsSame(env: Env, kinds: seq<Kind>, vals: seq<Field>)
    requires Fits(env, kinds, vals)
    ensures SeenFields(env, kinds, vals) == vals <==> Lossless(env, kinds, vals)
    decreases vals, 1
  {
    hide Seen, LosslessField, FitsField;
    if vals != [] {
      SeenFieldIsSame(env, kinds[0], vals[0]);
      SeenIsSame(env, kinds[1..], vals[1..]);
      var seen := SeenFields(env, kinds, vals);
      assert seen[0] == Seen(env, kinds[0], vals[0]) && seen[1..] == SeenFields(env, kinds[1..], vals[1..]);
      assert vals == [vals[0]] + vals[1..];
    }
  }

  /** Decoding with the writer's schema consumes exactly the message and returns the value, bit for bit,
      if and only if no double is a zero of the opposite sign to its default and every vector has the
      length of the reader's array. */
  lemma {:induction false} StructRoundTrip(env: Env, id: UserId, rec: seq<Field>, rest: bytes)
    requires Fits(env, Fields(env, id), rec)
    ensures DecStruct(env, id, EncStruct(env, id, rec) + rest).Record?
    ensures DecStruct(env, id, EncStruct(env, id, rec) + rest).rest == rest
    ensures DecStruct(env, id, EncStruct(env, id, rec) + rest).vals == rec <==> Lossless(env, Fields(env, id), rec)
  {
    hide DecStruct, EncStruct, Fits, SeenFields, Lossless;
    EvolvedStruct(env, env, id, rec, rest);
    SeenIsSame(env, Fields(env, id), rec);
  }

  /** The loss is real: -0.0 in a field with default 0.0 comes back as 0.0. */
  lemma {:induction false} NegativeZeroIsLost(id: UserId)
    ensures var env: Env := map[id := StructType(0, [Single(F(0))])];
            var rec := [SingleVal(F(NEGATIVE_ZERO))];
            Fits(env, Fields(env, id), rec) &&
            DecStruct(env, id, EncStruct(env, id, rec)) == Record([SingleVal(F(0))], [])
  {
    var env: Env := map[id := StructType(0, [Single(F(0))])];
    var x := F(NEGATIVE_ZERO);
    assert x.EqualInC(F(0));
    assert Fields(env, id) == [Single(F(0))];
    assert [SingleVal(x)][1..] == [] && Fields(env, id)[1..] == [];
    assert Fits(env, [], []);
    assert Fits(env, Fields(env, id), [SingleVal(x)]);
    EvolvedStruct(env, env, id, [SingleVal(x)], []);
    assert EncStruct(env, id, [SingleVal(x)]) + [] == EncStruct(env, id, [SingleVal(x)]);
    assert SeenFields(env, Fields(env, id), [SingleVal(x)]) == [SingleVal(F(0))];
  }

  // ---------------------------------------------------------------- sending on what was received

  /** No field has the default -0.0. */
  ghost predicate PlainDefaults(env: Env) {
    forall id, i | id in env && 0 <= i < |env[id].fields| :: env[id].fields[i] != Single(F(NEGATIVE_ZERO))
  }

  lemma {:induction false} FieldByFieldFits(env: Env, kinds: seq<Kind>, vals: seq<Field>, exact: bool)
    requires |kinds| == |vals| && forall i | 0 <= i < |kinds| :: FitsField(env, kinds[i], vals[i])
    requires exact ==> forall i | 0 <= i < |kinds| :: LosslessField(env, kinds[i], vals[i])
    ensures Fits(env, kinds, vals) && (exact ==> Lossless(env, kinds, vals))
    decreases |vals|
  {
    hide FitsField, LosslessField;
    if vals != [] {
      FieldByFieldFits(env, kinds[1..], vals[1..], exact);
    }
  }

  /** A zero of memory that a field's default is equal to is that default, unless the default is -0.0. */
  lemma {:induction false} ZeroFieldFits(env: Env, k: Kind)
    requires !k.Embed?
    ensures FitsField(env, k, ZeroField(k))
    ensures k != Single(F(NEGATIVE_ZERO)) ==> LosslessField(env, k, ZeroField(k))
  {
  }

  lemma {:induction false} ZeroRecordFits(env: Env, id: UserId)
    ensures Fits(env, Fields(env, id), ZeroRecord(env, id))
    ensures PlainDefaults(env) ==> Lossless(env, Fields(env, id), ZeroRecord(env, id))
    decreases Depth(env, id)
  {
    hide ZeroField, Fits, Lossless;
    var kinds, vals := Fields(env, id), ZeroRecord(env, id);
    forall i | 0 <= i < |kinds|
      ensures FitsField(env, kinds[i], vals[i]) && (PlainDefaults(env) ==> LosslessField(env, kinds[i], vals[i]))
    {
      if kinds[i].Embed? {
        ZeroRecordFits(env, kinds[i].id);
      } else {
        ZeroFieldFits(env, kinds[i]);
      }
    }
    FieldByFieldFits(env, kinds, vals, PlainDefaults(env));
  }

  lemma {:induction false} DefaultsFit(env: Env, kinds: seq<Kind>)
    ensures Fits(env, kinds, Defaults(env, kinds))
    ensures PlainDefaults(env) ==> Lossless(env, kinds, Defaults(env, kinds))
  {
    hide Default, FitsField, LosslessField;
    if kinds != [] {
      DefaultFits(env, kinds[0]);
      DefaultsFit(env, kinds[1..]);
    }
  }

  lemma {:induction false} DefaultFits(env: Env, k: Kind)
    ensures FitsField(env, k, Default(env, k))
    ensures PlainDefaults(env) ==> LosslessField(env, k, Default(env, k))
  {
    hide ZeroField, Fits, Lossless;
    match k
    case Single(_) =>
    case Embed(id) => ZeroRecordFits(env, id);
    case _ => ZeroFieldFits(env, k);
  }

  lemma {:induction false} SeenFieldIsLossless(env: Env, later: Env, k: Kind, v: Field)
    requires Extends(env, later) && FitsField(env, k, v)
    ensures FitsField(later, k, Seen(later, k, v))
    ensures env == later || PlainDefaults(later) ==> LosslessField(later, k, Seen(later, k, v))
    decreases v, 0
  {
    match v
    case EmbedVal(rec) => SeenIsLossless(env, later, Fields(env, k.id), Fields(later, k.id), rec);
    case PointerVal(rec) => SeenIsLossless(env, later, Fields(env, k.id), Fields(later, k.id), rec);
    case SingleVal(x) => OtherZero(x, k.dflt);
    case StructsVal(recs) =>
      forall i | 0 <= i < |recs|
        ensures Fits(later, Fields(later, k.id), SeenRecords(later, k.id, recs)[i].vals)
        ensures env == later || PlainDefaults(later) ==>
                  Lossless(later, Fields(later, k.id), SeenRecords(later, k.id, recs)[i].vals)
      {
        SeenIsLossless(env, later, Fields(env, k.id), Fields(later, k.id), recs[i].vals);
      }
    case _ =>
  }

  /** What a later reader sees is a value of its own schema, and one that reading does not change any more. */
  lemma {:induction false} SeenIsLossless(env: Env, later: Env, kinds: seq<Kind>, kinds': seq<Kind>, vals: seq<Field>)
    requires Extends(env, later) && kinds <= kinds' && (env == later ==> kinds == kinds')
    requires Fits(env, kinds, vals)
    ensures Fits(later, kinds', SeenFields(later, kinds', vals))
    ensures env == later || PlainDefaults(later) ==> Lossless(later, kinds', SeenFields(later, kinds', vals))
    decreases vals, 1
  {
    hide Seen, FitsField, LosslessField;
    if vals == [] {
      DefaultsFit(later, kinds');
    } else {
      SeenFieldIsLossless(env, later, kinds[0], vals[0]);
      SeenIsLossless(env, later, kinds[1..], kinds'[1..], vals[1..]);
      var seen := SeenFields(later, kinds', vals);
      assert seen[0] == Seen(later, kinds[0], vals[0]);
      assert seen[1..] == SeenFields(later, kinds'[1..], vals[1..]);
    }
  }

  /** Sending on what was received, under the same schema or a later one: it is a value of the reader's
      schema, and the second trip changes it only if the reader's schema is really another and has a -0.0
      for a default. (Then an embedded struct that the writer did not know was zero-filled, and a zero in
      it equals the default without being it.) */
  lemma {:induction false} SecondTripIsExact(env: Env, later: Env, id: UserId, rec: seq<Field>,
                                             received: seq<Field>, rest: bytes)
    requires Extends(env, later) && Fits(env, Fields(env, id), rec)
    requires DecStruct(later, id, EncStruct(env, id, rec)) == Record(received, [])
    ensures Fits(later, Fields(later, id), received)
    ensures DecStruct(later, id, EncStruct(later, id, received) + rest) == Record(received, rest)
       <==> Lossless(later, Fields(later, id), received)
    ensures env == later || PlainDefaults(later) ==> Lossless(later, Fields(later, id), received)
  {
    hide DecStruct, EncStruct, Fits, SeenFields, Lossless;
    assert EncStruct(env, id, rec) + [] == EncStruct(env, id, rec);
    EvolvedStruct(env, later, id, rec, []);
    SeenIsLossless(env, later, Fields(env, id), Fields(later, id), rec);
    StructRoundTrip(later, id, received, rest);
  }

  /** A later schema in which a new embedded struct has a -0.0 for a default. */
  const DRIFTING: Env := map[32 := StructType(1, [Embed(33)]), 33 := StructType(0, [Single(F(NEGATIVE_ZERO))])]

  /** The change is real: the reader finds 0.0 in the zero-filled struct, sends it on, and gets -0.0 back. */
  lemma {:induction false} NegativeDefaultDrifts()
    ensures DecStruct(DRIFTING, 32, EncStruct(map[], 32, [])) == Record([EmbedVal([SingleVal(F(0))])], [])
    ensures var received := [EmbedVal([SingleVal(F(0))])];
            Fits(DRIFTING, Fields(DRIFTING, 32), received) &&
            DecStruct(DRIFTING, 32, EncStruct(DRIFTING, 32, received)).Record? &&
            DecStruct(DRIFTING, 32, EncStruct(DRIFTING, 32, received)).vals != received
  {
    hide DecStruct, EncStruct;
    var env: Env := map[];
    var received := [EmbedVal([SingleVal(F(0))])];
    assert Fields(env, 32) == [] && Fields(DRIFTING, 32) == [Embed(33)];
    assert Fields(DRIFTING, 33) == [Single(F(NEGATIVE_ZERO))];
    assert ZeroRecord(DRIFTING, 33) == [SingleVal(F(0))];
    assert SeenFields(DRIFTING, [Embed(33)], []) == received;
    EvolvedStruct(env, DRIFTING, 32, [], []);
    assert EncStruct(env, 32, []) + [] == EncStruct(env, 32, []);
    SecondTripIsExact(env, DRIFTING, 32, [], received, []);
    StructRoundTrip(DRIFTING, 32, received, []);
    assert EncStruct(DRIFTING, 32, received) + [] == EncStruct(DRIFTING, 32, received);
    assert !LosslessField(DRIFTING, Single(F(NEGATIVE_ZERO)), SingleVal(F(0)));
    assert !Lossless(DRIFTING, [Single(F(NEGATIVE_ZERO))], [SingleVal(F(0))]);
    assert !LosslessField(DRIFTING, Embed(33), received[0]);
  }
}
