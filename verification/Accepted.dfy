/**
 What an accepted message looks like, on any bytes at all: a value of the schema
 with every vector as long as its array. So whatever was received can be sent on.
 */
module Accepted {
  import opened Words
  import opened Gobber
  import opened Wire
  import opened Arrays
  import opened Schema
  import opened Readers
  import opened RoundTrip

  /** Whether every vector, at every level, has the length of its array. */
  predicate FilledField(env: Env, k: Kind, v: Field)
    decreases v, 0
  {
    match v
    case VectorVal(data) => k.Vector? ==> |data| == k.len
    case EmbedVal(rec) => k.Embed? ==> Filled(env, Fields(env, k.id), rec)
    case PointerVal(rec) => k.Pointer? ==> Filled(env, Fields(env, k.id), rec)
    case StructsVal(recs) => k.Structs? ==> forall r | r in recs :: Filled(env, Fields(env, k.id), r.vals)
    case _ => true
  }

  predicate Filled(env: Env, kinds: seq<Kind>, vals: seq<Field>)
    decreases vals, 1
  {
    forall i | 0 <= i < |vals| && i < |kinds| :: FilledField(env, kinds[i], vals[i])
  }

  /** Whether a field is a value of the schema as a decoder leaves it. */
  predicate Shaped(env: Env, k: Kind, v: Field) {
    FitsField(env, k, v) && FilledField(env, k, v)
  }

  predicate AllShaped(env: Env, kinds: seq<Kind>, vals: seq<Field>) {
    Fits(env, kinds, vals) && Filled(env, kinds, vals)
  }

  lemma {:induction false} PrependShaped(env: Env, kinds: seq<Kind>, vals: seq<Field>)
    requires kinds != [] && vals != [] && Shaped(env, kinds[0], vals[0]) && AllShaped(env, kinds[1..], vals[1..])
    ensures AllShaped(env, kinds, vals)
  {
    hide FitsField, FilledField;
    forall i | 0 <= i < |vals| ensures FilledField(env, kinds[i], vals[i]) {
      if i > 0 {
        assert kinds[i] == kinds[1..][i - 1] && vals[i] == vals[1..][i - 1];
      }
    }
  }

  lemma {:induction false} ZeroRecordFilled(env: Env, id: UserId)
    ensures Filled(env, Fields(env, id), ZeroRecord(env, id))
    decreases Depth(env, id)
  {
    var kinds, vals := Fields(env, id), ZeroRecord(env, id);
    forall i | 0 <= i < |kinds| ensures FilledField(env, kinds[i], vals[i]) {
      if kinds[i].Embed? {
        ZeroRecordFilled(env, kinds[i].id);
      }
    }
  }

  lemma {:induction false} DefaultShaped(env: Env, k: Kind)
    ensures Shaped(env, k, Default(env, k))
  {
    DefaultFits(env, k);
    if k.Embed? {
      ZeroRecordFilled(env, k.id);
    }
  }

  lemma {:induction false} ScalarsTyped(ty: Ty, n: nat, s: bytes)
    requires DecScalars(ty, n, s).Scalars?
    ensures forall x | x in DecScalars(ty, n, s).elems :: x.Type() == ty
  {
    hide DecU, OfWord;
    if n > 0 {
      ScalarsTyped(ty, n - 1, DecValue(ty, ZeroScalar(ty), s).rest);
    }
  }

  lemma {:induction false} FieldsShaped(env: Env, kinds: seq<Kind>, delta: nat, s: bytes)
    requires DecFields(env, kinds, delta, s).Record?
    ensures AllShaped(env, kinds, DecFields(env, kinds, delta, s).vals)
    decreases |s|, 0, |kinds|
  {
    hide DecU, DecField, Shaped, AllShaped;
    if kinds == [] {
      NoFieldsShaped(env, s);
    } else {
      var d := DecField(env, kinds[0], delta, s);
      FieldShaped(env, kinds[0], delta, s);
      FieldsShaped(env, kinds[1..], d.delta, d.rest);
      var vals := DecFields(env, kinds, delta, s).vals;
      assert vals[0] == d.v && vals[1..] == DecFields(env, kinds[1..], d.delta, d.rest).vals;
      PrependShaped(env, kinds, vals);
    }
  }

  lemma {:induction false} NoFieldsShaped(env: Env, s: bytes)
    requires DecEnd(s).Record?
    ensures AllShaped(env, [], DecEnd(s).vals)
  {
  }

  lemma {:induction false} FieldShaped(env: Env, k: Kind, delta: nat, s: bytes)
    requires DecField(env, k, delta, s).Decoded?
    ensures Shaped(env, k, DecField(env, k, delta, s).v)
    decreases |s|, 0, 0
  {
    hide DecU, DecBody, Shaped, Default;
    DefaultShaped(env, k);
    var t := DecU(s).rest;
    if DecBody(env, k, t).Body? {
      BodyShaped(env, k, t);
    }
  }

  /** The type id check and the switch. */
  lemma {:induction false} BodyShaped(env: Env, k: Kind, s: bytes)
    requires DecBody(env, k, s).Body?
    ensures Shaped(env, k, DecBody(env, k, s).v)
    decreases |s|, 2, 0
  {
    hide DecU, DecScalar, DecVector, DecNested, DecArray, TypeOfWord, Fits, Filled;
    if TypeOfWord(DecU(s).v) == GLME_ARRAY {
      ArrayShaped(env, k, s);
    } else if k.Embed? || k.Pointer? || k.Structs? {
      NestedShaped(env, k, s);
    }
  }

  lemma {:induction false} NestedShaped(env: Env, k: Kind, s: bytes)
    requires (k.Embed? || k.Pointer? || k.Structs?) && DecNested(env, k, s).Body?
    ensures Shaped(env, k, DecNested(env, k, s).v)
    decreases |s|, 0, 0
  {
    hide DecU, DecFields, TypeOfWord, Fields, Fits, Filled;
    FieldsShaped(env, Fields(env, k.id), 1, DecU(s).rest);
  }

  lemma {:induction false} ArrayShaped(env: Env, k: Kind, s: bytes)
    requires k.IsArray() && DecArray(env, k, s).Body?
    ensures Shaped(env, k, DecArray(env, k, s).v)
    decreases |s|, 1, 0
  {
    hide DecArrayStart, DecScalars, DecRecords, Fits, Filled;
    var start := DecArrayStart(s);
    DefaultShaped(env, k);
    if start.len > 0 {
      if k.Array? {
        ScalarsTyped(k.ty, start.len, start.rest);
      } else {
        RecordsShaped(env, k.id, start.len, start.rest);
        var recs := DecRecords(env, k.id, start.len, start.rest).recs;
        assert FitAll(env, k.id, recs);
        assert FilledField(env, k, StructsVal(recs));
      }
    }
  }

  lemma {:induction false} RecordsShaped(env: Env, id: UserId, n: nat, s: bytes)
    requires DecRecords(env, id, n, s).Records?
    ensures var recs := DecRecords(env, id, n, s).recs;
            |recs| == n && forall r | r in recs :: AllShaped(env, Fields(env, id), r.vals)
    decreases |s|, 1, n
  {
    hide DecFields, AllShaped, Fields;
    if n > 0 {
      FieldsShaped(env, Fields(env, id), 1, s);
      RecordsShaped(env, id, n - 1, DecFields(env, Fields(env, id), 1, s).rest);
    }
  }

  /** Whatever bytes a message was decoded from, it gives a value of the schema with every vector of its
      array's length. So it can be sent on, and comes back the same if and only if it holds no zero of the
      opposite sign to its default. */
  lemma {:induction false} AcceptedIsAValue(env: Env, typeid: int, id: UserId, s: bytes, rest: bytes)
    requires DecMessage(env, typeid, id, s).Record?
    ensures var rec := DecMessage(env, typeid, id, s).vals;
            Fits(env, Fields(env, id), rec) && Filled(env, Fields(env, id), rec) &&
            (DecStruct(env, id, EncStruct(env, id, rec) + rest) == Record(rec, rest) <==>
             Lossless(env, Fields(env, id), rec))
  {
    hide DecU, DecFields, TypeOfWord, Fields, Fits, Filled, EncStruct, Lossless;
    FieldsShaped(env, Fields(env, id), 1, DecU(s).rest);
    var rec := DecMessage(env, typeid, id, s).vals;
    hide DecMessage;
    StructRoundTrip(env, id, rec, rest);
  }
}
