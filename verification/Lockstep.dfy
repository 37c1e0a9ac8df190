/**
 The offset protocol between the two sides of a struct: the encoder sends the
 distance since the last sent field, and the decoder counts up to it.
 */
module Lockstep {
  import opened Words
  import opened Gobber
  import opened Wire
  import opened Schema
  import opened Readers
  import opened RoundTrip

  /** What the decoder has in hand when it comes to a field: the field's index, its own counter, and the next offset. */
  datatype Visit = Visit(index: nat, counter: nat, offset: u64) {
    /** Whether `glme_decode_field` goes on to decode the field. */
    predicate Decodes() {
      offset != 0 && counter != 0 && counter >= offset
    }
  }

  /** A field that is not decoded takes nothing off the stream; one that is takes its offset, or fails. */
  lemma {:induction false} DecodingTakesBytes(env: Env, k: Kind, i: nat, delta: nat, s: bytes)
    requires DecU(s).Got?
    ensures var d := DecField(env, k, delta, s);
            if Visit(i, delta, DecU(s).v).Decodes() then d.FieldFail? || |d.rest| < |s| else d.Decoded? && d.rest == s
  {
    hide DecU, DecBody;
  }

  /** The decoder's visits from field `i` on, up to the first failure. */
  function Visits(env: Env, kinds: seq<Kind>, i: nat, delta: nat, s: bytes): (r: seq<Visit>)
    ensures |r| <= |kinds|
    decreases |kinds|
  {
    if kinds == [] || DecU(s).Short? then []
    else
      [Visit(i, delta, DecU(s).v)] +
      match DecField(env, kinds[0], delta, s)
      case FieldFail => []
      case Decoded(_, delta', t) => Visits(env, kinds[1..], i + 1, delta', t)
  }

  /** The sum of the offsets of the decoded fields. */
  function Travelled(visits: seq<Visit>): nat {
    if visits == [] then 0
    else (if visits[0].Decodes() then visits[0].offset else 0) + Travelled(visits[1..])
  }

  /** The protocol's state at one visit: `base` is the distance travelled before the first of `visits`. */
  ghost predicate InStep(kinds: seq<Kind>, vals: seq<Field>, base: int, visits: seq<Visit>, n: nat)
    requires n < |visits| && |kinds| == |vals|
  {
    var v := visits[n];
    // the end mark has been seen, or the counter has not passed the next offset
    && (v.counter == 0 || v.offset == 0 || 1 <= v.counter <= v.offset)
    // a field is decoded only when the counter equals its offset, and exactly when it was sent
    && (v.Decodes() ==> v.counter == v.offset)
    && (v.Decodes() <==> n < |kinds| && !Omitted(kinds[n], vals[n]))
    // a decoded field's number is the sum of the offsets so far
    && (v.Decodes() ==> v.index + 1 == base + Travelled(visits[..n + 1]))
  }

  ghost predicate AllInStep(kinds: seq<Kind>, vals: seq<Field>, base: int, visits: seq<Visit>)
    requires |kinds| == |vals|
  {
    forall n | 0 <= n < |visits| :: InStep(kinds, vals, base, visits, n)
  }

  /** At the end mark nothing is decoded any more. */
  lemma {:induction false} VisitsAtEndMark(env: Env, kinds: seq<Kind>, i: nat, delta: nat, rest: bytes)
    ensures var visits := Visits(env, kinds, i, delta, [0] + rest);
            |visits| == |kinds| && forall n | 0 <= n < |visits| :: visits[n].offset == 0
    decreases |kinds|
  {
    hide DecU, DecBody;
    EndMark(rest);
    if kinds != [] {
      VisitsAtEndMark(env, kinds[1..], i + 1, 0, rest);
    }
  }

  /** Putting a visit in front of visits that are in step. */
  lemma {:induction false} PrependVisit(kinds: seq<Kind>, vals: seq<Field>, base: int, first: Visit, later: seq<Visit>)
    requires |kinds| == |vals| > 0
    requires first.counter == 0 || first.offset == 0 || 1 <= first.counter <= first.offset
    requires first.Decodes() <==> !Omitted(kinds[0], vals[0])
    requires first.Decodes() ==> first.index + 1 == base + first.offset
    requires AllInStep(kinds[1..], vals[1..], base + if first.Decodes() then first.offset else 0, later)
    ensures AllInStep(kinds, vals, base, [first] + later)
  {
    hide Omitted;
    var visits := [first] + later;
    forall n | 0 <= n < |visits| ensures InStep(kinds, vals, base, visits, n) {
      assert visits[..n + 1][0] == first && visits[..n + 1][1..] == later[..n];
      if n > 0 {
        assert InStep(kinds[1..], vals[1..], base + if first.Decodes() then first.offset else 0, later, n - 1);
        assert visits[n] == later[n - 1];
        if n < |kinds| {
          assert kinds[1..][n - 1] == kinds[n] && vals[1..][n - 1] == vals[n];
        }
      } else {
        assert later[..0] == [];
      }
    }
  }

  /** On everything the field encoder emits the two sides stay in step, with any number of omitted
      fields in between, and with fields at the end that only one side knows. */
  lemma {:induction false} StayInStep(env: Env, reader: Env, kinds: seq<Kind>, kinds': seq<Kind>,
                                      vals: seq<Field>, i: nat, delta: nat, rest: bytes)
    requires Related(env, reader) && (kinds <= kinds' || kinds' <= kinds)
    requires Fits(env, kinds, vals) && 1 <= delta && delta + |kinds| <= TWO_32
    ensures var visits := Visits(reader, kinds', i, delta, EncFields(env, kinds, vals, delta) + rest);
            AllInStep(kinds, vals, i + 1 - delta, visits) &&
            (KnowsShared(env, reader, kinds, kinds', vals) ==> |visits| == |kinds'|)
    decreases |kinds|
  {
    hide DecU, EncU, EncBody, DecBody, DecFields, Omitted, FitsField, AllInStep, Visits, KnowsField;
    var s := EncFields(env, kinds, vals, delta) + rest;
    if kinds == [] {
      EndInStep(reader, kinds', i, delta, rest);
    } else if kinds' == [] {
      NoVisits(reader, kinds, vals, i, delta, s);
    } else if Omitted(kinds[0], vals[0]) {
      OmittedVisit(env, reader, kinds, kinds', vals, i, delta, rest);
      if !AllOmitted(kinds[1..], vals[1..]) {
        StayInStep(env, reader, kinds[1..], kinds'[1..], vals[1..], i + 1, delta + 1, rest);
        PrependVisit(kinds, vals, i + 1 - delta, Visit(i, delta, DecU(s).v),
                     Visits(reader, kinds'[1..], i + 1, delta + 1, s));
      }
    } else {
      var tail := EncFields(env, kinds[1..], vals[1..], 1) + rest;
      var body := EncBody(env, kinds[0], vals[0]);
      assert s == EncU(delta) + (body + tail);
      ReadBody(env, reader, kinds[0], vals[0], tail);
      SentVisit(reader, kinds', i, delta, body, tail);
      StayInStep(env, reader, kinds[1..], kinds'[1..], vals[1..], i + 1, 1, rest);
      NoVisits(reader, kinds[1..], vals[1..], i + 1, 1, tail);
      PrependVisit(kinds, vals, i + 1 - delta, Visit(i, delta, delta),
                   if DecBody(reader, kinds[0], body + tail).Body? then Visits(reader, kinds'[1..], i + 1, 1, tail)
                   else []);
    }
  }

  /** A reader without fields makes no visit. */
  lemma {:induction false} NoVisits(env: Env, kinds: seq<Kind>, vals: seq<Field>, i: nat, delta: nat, s: bytes)
    requires |kinds| == |vals|
    ensures Visits(env, [], i, delta, s) == [] && AllInStep(kinds, vals, i + 1 - delta, [])
  {
  }

  lemma {:induction false} EndInStep(env: Env, kinds: seq<Kind>, i: nat, delta: nat, rest: bytes)
    ensures var visits := Visits(env, kinds, i, delta, EncU(0) + rest);
            |visits| == |kinds| && AllInStep([], [], i + 1 - delta, visits)
  {
    hide DecU, EncU, Visits;
    EndMark(rest);
    VisitsAtEndMark(env, kinds, i, delta, rest);
  }

  /** A sent field is visited with the counter at its offset. */
  lemma {:induction false} SentVisit(env: Env, kinds: seq<Kind>, i: nat, delta: nat, body: bytes, tail: bytes)
    requires kinds != [] && 1 <= delta < TWO_64
    requires var d := DecBody(env, kinds[0], body + tail); d.Body? ==> d.code > 0 && d.rest == tail
    ensures Visits(env, kinds, i, delta, EncU(delta) + (body + tail))
         == [Visit(i, delta, delta)] +
            if DecBody(env, kinds[0], body + tail).Body? then Visits(env, kinds[1..], i + 1, 1, tail) else []
  {
    hide DecU, EncU, DecBody;
    UnsignedRoundTrip(delta, body + tail);
    SentField(env, kinds[0], delta, body, tail);
  }

  lemma {:induction false} SkipVisit(env: Env, kinds: seq<Kind>, i: nat, delta: nat, s: bytes)
    requires kinds != [] && 1 <= delta && DecU(s).Got? && DecU(s).v > delta
    ensures Visits(env, kinds, i, delta, s)
         == [Visit(i, delta, DecU(s).v)] + Visits(env, kinds[1..], i + 1, delta + 1, s)
  {
    hide DecU, DecBody, DecFields;
  }

  /** At an omitted field the decoder counts on, or has come to the end mark with nothing left to decode. */
  lemma {:induction false} OmittedVisit(env: Env, reader: Env, kinds: seq<Kind>, kinds': seq<Kind>,
                                        vals: seq<Field>, i: nat, delta: nat, rest: bytes)
    requires kinds != [] && kinds' != []
    requires Fits(env, kinds, vals) && 1 <= delta && delta + |kinds| <= TWO_32
    requires Omitted(kinds[0], vals[0])
    ensures var s := EncFields(env, kinds, vals, delta) + rest;
            var visits := Visits(reader, kinds', i, delta, s);
            DecU(s).Got? &&
            if AllOmitted(kinds[1..], vals[1..]) then
              |visits| == |kinds'| && AllInStep(kinds, vals, i + 1 - delta, visits)
            else
              DecU(s).v > delta &&
              visits == [Visit(i, delta, DecU(s).v)] + Visits(reader, kinds'[1..], i + 1, delta + 1, s)
  {
    hide DecU, EncU, EncBody, DecField, DecFields, Omitted, FitsField, AllInStep, Visits, AllOmitted;
    var s := EncFields(env, kinds, vals, delta) + rest;
    NextOffset(env, kinds[1..], vals[1..], delta + 1, rest);
    if AllOmitted(kinds[1..], vals[1..]) {
      EndMark(rest);
      VisitsAtEndMark(reader, kinds', i, delta, rest);
      AllOmittedFrom(kinds, vals);
      SilentInStep(kinds, vals, i + 1 - delta, Visits(reader, kinds', i, delta, s));
    } else {
      SkipVisit(reader, kinds', i, delta, s);
    }
  }

  lemma {:induction false} SilentInStep(kinds: seq<Kind>, vals: seq<Field>, base: int, visits: seq<Visit>)
    requires |kinds| == |vals| && AllOmitted(kinds, vals)
    requires forall n | 0 <= n < |visits| :: visits[n].offset == 0
    ensures AllInStep(kinds, vals, base, visits)
  {
    hide Omitted;
  }

  /** The whole struct: the k-th decoded field is number (sum of the first k offsets), counting from one.
      A reader that knows all that was sent of the nested structs of its own fields visits every field. */
  lemma {:induction false} StructInStep(env: Env, reader: Env, id: UserId, rec: seq<Field>, rest: bytes)
    requires Related(env, reader) && Fits(env, Fields(env, id), rec)
    ensures var visits := Visits(reader, Fields(reader, id), 0, 1, EncRecord(env, id, rec) + rest);
            AllInStep(Fields(env, id), rec, 0, visits) &&
            (KnowsShared(env, reader, Fields(env, id), Fields(reader, id), rec) ==> |visits| == |Fields(reader, id)|)
    ensures Extends(env, reader) ==> KnowsShared(env, reader, Fields(env, id), Fields(reader, id), rec)
  {
    hide Visits, AllInStep, EncFields, KnowsShared;
    StayInStep(env, reader, Fields(env, id), Fields(reader, id), rec, 0, 1, rest);
    if Extends(env, reader) {
      LaterKnows(env, reader, Fields(env, id), Fields(reader, id), rec);
    }
  }
}
