/**
 What struct decoding accepts, on any bytes at all. The signed and floating-point
 value decoders report an underflow with a positive code, and the vector decoder
 may do so for an absurd length, so a field can be taken for decoded when its
 bytes are not there. These lemmas show that such a field never goes unnoticed:
 a struct that decodes decodes the same whatever follows it, and no part of it
 does.
 */
module CutStreams {
  import opened Words
  import opened Float64
  import opened Gobber
  import opened Wire
  import opened Arrays
  import opened Schema
  import opened Readers
  import opened RoundTrip

  /** The number of bytes of the longest number: a count byte and what it steps over. */
  const NUMBER_WIDTH := 129

  /** A read position from which no struct can end: an unfinished number, or a number spelled
      with several bytes and larger than any field counter. */
  predicate Jammed(s: bytes) {
    match DecU(s)
    case Short(_) => true
    case Got(v, rest) => |s| - |rest| > 1 && v >= TWO_31 - NUMBER_WIDTH
  }

  /** Every field before the end mark is skipped or fails, and the end mark is not there. */
  lemma {:induction false} JammedFails(env: Env, kinds: seq<Kind>, delta: nat, s: bytes)
    requires Jammed(s) && delta + |kinds| <= MAX_FIELDS
    ensures DecFields(env, kinds, delta, s) == RecordFail
    decreases |kinds|
  {
    hide DecU, DecBody;
    if kinds != [] && DecU(s).Got? {
      JammedFails(env, kinds[1..], if delta == 0 then 0 else delta + 1, s);
    }
  }

  lemma {:induction false} NumberLocality(s: bytes, x: bytes)
    requires DecU(s).Got?
    ensures DecU(s + x).Got? && DecU(s + x).v == DecU(s).v && DecU(s + x).rest == DecU(s).rest + x
  {
    UnsignedLocality(s, x);
  }

  lemma {:induction false} ValueLocality(ty: Ty, x0: Scalar, s: bytes, x: bytes)
    requires DecValue(ty, x0, s).SDone? && !Jammed(DecValue(ty, x0, s).rest)
    ensures var d := DecValue(ty, x0, s); DecValue(ty, x0, s + x) == SDone(d.x, d.rest + x)
  {
    hide OfWord;
    if DecU(s).Got? {
      NumberLocality(s, x);
    }
  }

  /** An underflow leaves the read position where it is, so the remaining elements underflow too. */
  lemma {:induction false} ScalarsStayJammed(ty: Ty, n: nat, s: bytes)
    requires DecU(s).Short? && DecScalars(ty, n, s).Scalars?
    ensures DecScalars(ty, n, s).rest == s
  {
    if n > 0 {
      ScalarsStayJammed(ty, n - 1, s);
    }
  }

  lemma {:induction false} ScalarsLocality(ty: Ty, n: nat, s: bytes, x: bytes)
    requires DecScalars(ty, n, s).Scalars? && !Jammed(DecScalars(ty, n, s).rest)
    ensures var d := DecScalars(ty, n, s); DecScalars(ty, n, s + x) == Scalars(d.elems, d.rest + x)
  {
    hide OfWord, ZeroScalar;
    if n > 0 {
      if DecU(s).Short? {
        ScalarsStayJammed(ty, n, s);
      } else {
        NumberLocality(s, x);
        ScalarsLocality(ty, n - 1, DecU(s).rest, x);
      }
    }
  }

  lemma {:induction false} ArrayStartLocality(s: bytes, x: bytes)
    requires DecArrayStart(s).Start?
    ensures var d := DecArrayStart(s); DecArrayStart(s + x) == Start(d.id, d.len, d.rest + x)
  {
    hide DecU, TypeOfWord;
    assert (s + x)[1..] == s[1..] + x;
    NumberLocality(s[1..], x);
    NumberLocality(DecU(s[1..]).rest, x);
  }

  lemma {:induction false} ScalarLocality(ty: Ty, x0: Scalar, s: bytes, x: bytes)
    requires DecScalar(ty, x0, s).SDone? && !Jammed(DecScalar(ty, x0, s).rest)
    ensures var d := DecScalar(ty, x0, s); DecScalar(ty, x0, s + x) == SDone(d.x, d.rest + x)
  {
    hide DecU, DecValue;
    assert (s + x)[1..] == s[1..] + x;
    ValueLocality(ty, x0, s[1..], x);
  }

  /** The negated need is a non-negative `int` only if it is at least 2^31. */
  lemma {:induction false} PositiveNeed(need: int)
    requires need > 0 && ToInt32(-need) >= 0
    ensures need >= TWO_31
  {
  }

  /** A number of 128 and more takes more than one byte. */
  lemma {:induction false} NumberWidth(s: bytes)
    requires DecU(s).Got?
    ensures var n := |s| - |DecU(s).rest|; n <= NUMBER_WIDTH && (DecU(s).v >= 128 ==> n > 1)
  {
  }

  /** A vector whose length runs past the data, taken for decoded, leaves the position on that length. */
  lemma {:induction false} LongVectorJams(s: bytes)
    requires DecU(s).Got? && DecU(s).v > |DecU(s).rest|
    requires ToInt32(-(DecU(s).v + (|s| - |DecU(s).rest|))) >= 0
    ensures Jammed(s)
  {
    hide DecU, ToInt32;
    PositiveNeed(DecU(s).v + (|s| - |DecU(s).rest|));
    NumberWidth(s);
  }

  lemma {:induction false} VectorLocality(s: bytes, len: nat, x: bytes)
    requires DecVector(s, len).VDone? && !Jammed(DecVector(s, len).rest)
    ensures var d := DecVector(s, len); DecVector(s + x, len) == VDone(d.code, d.got, d.data, d.rest + x)
  {
    hide DecU, Padded, ToInt32, Jammed;
    var v, t := DecU(s[1..]).v, DecU(s[1..]).rest;
    assert (s + x)[1..] == s[1..] + x;
    NumberLocality(s[1..], x);
    if v > |t| {
      LongVectorJams(s[1..]);
    } else {
      assert (t + x)[..v] == t[..v] && (t + x)[v..] == t[v..] + x;
    }
  }

  lemma {:induction false} FieldsLocality(env: Env, kinds: seq<Kind>, delta: nat, s: bytes, x: bytes)
    requires delta + |kinds| <= MAX_FIELDS && DecFields(env, kinds, delta, s).Record?
    ensures var d := DecFields(env, kinds, delta, s);
            DecFields(env, kinds, delta, s + x) == Record(d.vals, d.rest + x)
    decreases |s|, 0, |kinds|
  {
    hide DecU, DecBody;
    if kinds == [] {
      NumberLocality(s, x);
    } else {
      FieldLocality(env, kinds[0], delta, s, x, kinds[1..]);
      var d := DecField(env, kinds[0], delta, s);
      FieldsLocality(env, kinds[1..], d.delta, d.rest, x);
    }
  }

  lemma {:induction false} FieldLocality(env: Env, k: Kind, delta: nat, s: bytes, x: bytes, after: seq<Kind>)
    requires delta + 1 + |after| <= MAX_FIELDS
    requires var d := DecField(env, k, delta, s); d.Decoded? && DecFields(env, after, d.delta, d.rest).Record?
    ensures var d := DecField(env, k, delta, s);
            d.delta <= delta + 1 && DecField(env, k, delta, s + x) == Decoded(d.v, d.delta, d.rest + x)
    decreases |s|, 0, 0
  {
    hide DecU, DecBody, DecFields, Jammed;
    NumberLocality(s, x);
    var offset, t := DecU(s).v, DecU(s).rest;
    if offset != 0 && delta != 0 && delta >= offset {
      var d := DecBody(env, k, t);
      if Jammed(d.rest) {
        JammedFails(env, after, if d.code > 0 then 1 else delta, d.rest);
      }
      BodyLocality(env, k, t, x);
    }
  }

  lemma {:induction false} BodyLocality(env: Env, k: Kind, s: bytes, x: bytes)
    requires DecBody(env, k, s).Body? && !Jammed(DecBody(env, k, s).rest)
    ensures var d := DecBody(env, k, s); DecBody(env, k, s + x) == Body(d.v, d.code, d.rest + x)
    decreases |s|, 2, 0
  {
    hide DecU, DecElement, DecArray, Jammed, TypeOfWord;
    NumberLocality(s, x);
    if TypeOfWord(DecU(s).v) == GLME_ARRAY {
      ArrayLocality(env, k, s, x);
    } else {
      ElementLocality(env, k, s, x);
    }
  }

  lemma {:induction false} ElementLocality(env: Env, k: Kind, s: bytes, x: bytes)
    requires DecElement(env, k, s).Body? && !Jammed(DecElement(env, k, s).rest)
    ensures var d := DecElement(env, k, s); DecElement(env, k, s + x) == Body(d.v, d.code, d.rest + x)
    decreases |s|, 1, 0
  {
    hide DecU, DecNested, DecScalar, DecVector, Jammed;
    match k
    case Single(d) => ScalarLocality(d.Type(), d, s, x);
    case Vector(len) => VectorLocality(s, len, x);
    case Array(_) => NumberLocality(s, x);
    case _ => NestedLocality(env, k, s, x);
  }

  lemma {:induction false} NestedLocality(env: Env, k: Kind, s: bytes, x: bytes)
    requires k.Embed? || k.Pointer? || k.Structs?
    requires DecNested(env, k, s).Body?
    ensures var d := DecNested(env, k, s); DecNested(env, k, s + x) == Body(d.v, d.code, d.rest + x)
    decreases |s|, 0, 0
  {
    hide DecU, DecFields, Fields, TypeOfWord;
    NumberLocality(s, x);
    FieldsLocality(env, Fields(env, k.id), 1, DecU(s).rest, x);
  }

  lemma {:induction false} ArrayLocality(env: Env, k: Kind, s: bytes, x: bytes)
    requires k.IsArray() && DecArray(env, k, s).Body? && !Jammed(DecArray(env, k, s).rest)
    ensures var d := DecArray(env, k, s); DecArray(env, k, s + x) == Body(d.v, d.code, d.rest + x)
    decreases |s|, 1, 0
  {
    hide DecU, DecArrayStart, DecScalars, DecRecords, Jammed;
    ArrayStartLocality(s, x);
    var start := DecArrayStart(s);
    if start.len > 0 {
      if k.Array? {
        ScalarsLocality(k.ty, start.len, start.rest, x);
      } else {
        RecordsLocality(env, k.id, start.len, start.rest, x);
      }
    }
  }

  lemma {:induction false} RecordsLocality(env: Env, id: UserId, n: nat, s: bytes, x: bytes)
    requires DecRecords(env, id, n, s).Records?
    ensures var d := DecRecords(env, id, n, s); DecRecords(env, id, n, s + x) == Records(d.recs, d.rest + x)
    decreases |s|, 1, n
  {
    hide DecFields, Fields;
    if n > 0 {
      FieldsLocality(env, Fields(env, id), 1, s, x);
      RecordsLocality(env, id, n - 1, DecFields(env, Fields(env, id), 1, s).rest, x);
    }
  }

  /** What a message decodes to depends on the bytes it consumes and on nothing after them, whether the
      caller names its type id or not. */
  lemma {:induction false} StructLocality(env: Env, typeid: int, id: UserId, s: bytes, x: bytes)
    requires DecMessage(env, typeid, id, s).Record?
    ensures var d := DecMessage(env, typeid, id, s); DecMessage(env, typeid, id, s + x) == Record(d.vals, d.rest + x)
  {
    hide DecU, DecFields, TypeOfWord;
    NumberLocality(s, x);
    FieldsLocality(env, Fields(env, id), 1, DecU(s).rest, x);
  }

  /** No part of a message decodes: cut anywhere, a message that was accepted in full is refused. */
  lemma {:induction false} CutMessageRefused(env: Env, typeid: int, id: UserId, s: bytes, k: nat)
    requires DecMessage(env, typeid, id, s).Record? && DecMessage(env, typeid, id, s).rest == [] && k < |s|
    ensures DecMessage(env, typeid, id, s[..k]) == RecordFail
  {
    hide DecMessage;
    assert s[..k] + s[k..] == s;
    if DecMessage(env, typeid, id, s[..k]).Record? {
      StructLocality(env, typeid, id, s[..k], s[k..]);
    }
  }

  /** No message is a proper part of another, so messages written one after the other come apart in one way. */
  lemma {:induction false} MessagesArePrefixFree(env: Env, id: UserId, a: seq<Field>, b: seq<Field>)
    requires Fits(env, Fields(env, id), a) && Fits(env, Fields(env, id), b)
    requires EncStruct(env, id, a) <= EncStruct(env, id, b)
    ensures EncStruct(env, id, a) == EncStruct(env, id, b)
    ensures SeenFields(env, Fields(env, id), a) == SeenFields(env, Fields(env, id), b)
  {
    hide EncStruct, DecMessage, Fits, SeenFields;
    var s, t := EncStruct(env, id, a), EncStruct(env, id, b);
    assert s + [] == s && t + [] == t;
    EvolvedStruct(env, env, id, a, []);
    EvolvedStruct(env, env, id, b, []);
    assert t[..|s|] == s;
    if |s| < |t| {
      CutMessageRefused(env, id, id, t, |s|);
    }
  }
}
