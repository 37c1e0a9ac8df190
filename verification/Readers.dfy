/**
 Readers: what a struct value is to a reader whose schema may be older or newer
 than the writer's, or both, and which messages such a reader can read.
 */
module Readers {
  import opened Words
  import opened Float64
  import opened Wire
  import opened Schema

  // ---------------------------------------------------------------- the value that comes back

  function Defaults(env: Env, kinds: seq<Kind>): (vals: seq<Field>)
    ensures |vals| == |kinds|
  {
    if kinds == [] then [] else [Default(env, kinds[0])] + Defaults(env, kinds[1..])
  }

  /** A field as its reader sees it: an omitted scalar takes the reader's default, and a vector is cut or
      filled up with zeros to the size of the reader's array. */
  function Seen(env: Env, k: Kind, v: Field): Field
    decreases v, 0
  {
    match v
    case SingleVal(x) => if k.Single? && x.EqualInC(k.dflt) then SingleVal(k.dflt) else v
    case VectorVal(data) => if k.Vector? then VectorVal(Padded(data, k.len)) else v
    case EmbedVal(rec) => if k.Embed? then EmbedVal(SeenFields(env, Fields(env, k.id), rec)) else v
    case PointerVal(rec) => if k.Pointer? then PointerVal(SeenFields(env, Fields(env, k.id), rec)) else v
    case StructsVal(recs) => if k.Structs? then StructsVal(SeenRecords(env, k.id, recs)) else v
    case _ => v
  }

  /** A struct as its reader sees it: fields the writer did not know take their defaults, and fields the
      reader does not know are gone. */
  function SeenFields(env: Env, kinds: seq<Kind>, vals: seq<Field>): (seen: seq<Field>)
    ensures |seen| == |kinds|
    decreases vals, 1
  {
    if kinds == [] then []
    else if vals == [] then Defaults(env, kinds)
    else [Seen(env, kinds[0], vals[0])] + SeenFields(env, kinds[1..], vals[1..])
  }

  function SeenRecords(env: Env, id: UserId, recs: seq<Rec>): (seen: seq<Rec>)
    ensures |seen| == |recs|
    decreases recs, 2
  {
    seq(|recs|, i requires 0 <= i < |recs| => Rec(SeenFields(env, Fields(env, id), recs[i].vals)))
  }

  // ---------------------------------------------------------------- writers and readers of different age

  /** Every struct type of `env` has, in `later`, the same fields and possibly more after them. */
  ghost predicate Extends(env: Env, later: Env) {
    forall id: UserId :: Fields(env, id) <= Fields(later, id)
  }

  /** Of every struct type, one side knows the first fields that the other knows, and no others. */
  ghost predicate Related(env: Env, reader: Env) {
    forall id: UserId :: Fields(env, id) <= Fields(reader, id) || Fields(reader, id) <= Fields(env, id)
  }

  /** Whether the reader knows all that was sent of a field it knows itself. */
  predicate KnowsField(env: Env, reader: Env, k: Kind, v: Field)
    decreases v, 0
  {
    match v
    case EmbedVal(rec) => k.Embed? ==> Knows(env, reader, Fields(env, k.id), Fields(reader, k.id), rec)
    case PointerVal(rec) => k.Pointer? ==> Knows(env, reader, Fields(env, k.id), Fields(reader, k.id), rec)
    case StructsVal(recs) => k.Structs? ==> KnowsAll(env, reader, k.id, recs)
    case _ => true
  }

  /** Whether the reader, with fields `kinds'`, knows all that was sent of the fields that both sides know. */
  predicate KnowsShared(env: Env, reader: Env, kinds: seq<Kind>, kinds': seq<Kind>, vals: seq<Field>)
    decreases vals, 1
  {
    vals == [] || kinds == [] || kinds' == [] ||
    (KnowsField(env, reader, kinds[0], vals[0]) && KnowsShared(env, reader, kinds[1..], kinds'[1..], vals[1..]))
  }

  /** Whether every field after the first `n` was omitted. */
  predicate OmittedAfter(n: nat, kinds: seq<Kind>, vals: seq<Field>) {
    forall i | n <= i < |kinds| && i < |vals| :: Omitted(kinds[i], vals[i])
  }

  /** Whether all that was sent, at every level, is known to the reader. */
  predicate Knows(env: Env, reader: Env, kinds: seq<Kind>, kinds': seq<Kind>, vals: seq<Field>)
    decreases vals, 2
  {
    KnowsShared(env, reader, kinds, kinds', vals) && OmittedAfter(|kinds'|, kinds, vals)
  }

  predicate KnowsAll(env: Env, reader: Env, id: UserId, recs: seq<Rec>)
    decreases recs, 3
  {
    forall r | r in recs :: Knows(env, reader, Fields(env, id), Fields(reader, id), r.vals)
  }

  /** A later schema knows everything. */
  lemma {:induction false} LaterFieldKnows(env: Env, later: Env, k: Kind, v: Field)
    requires Extends(env, later)
    ensures KnowsField(env, later, k, v)
    decreases v, 0
  {
    match v
    case EmbedVal(rec) => if k.Embed? { LaterKnows(env, later, Fields(env, k.id), Fields(later, k.id), rec); }
    case PointerVal(rec) => if k.Pointer? { LaterKnows(env, later, Fields(env, k.id), Fields(later, k.id), rec); }
    case StructsVal(recs) =>
      if k.Structs? {
        forall r | r in recs ensures Knows(env, later, Fields(env, k.id), Fields(later, k.id), r.vals) {
          LaterKnows(env, later, Fields(env, k.id), Fields(later, k.id), r.vals);
        }
      }
    case _ =>
  }

  lemma {:induction false} LaterKnows(env: Env, later: Env, kinds: seq<Kind>, kinds': seq<Kind>, vals: seq<Field>)
    requires Extends(env, later) && kinds <= kinds'
    ensures Knows(env, later, kinds, kinds', vals)
    decreases vals, 1
  {
    hide KnowsField;
    if vals != [] && kinds != [] {
      LaterFieldKnows(env, later, kinds[0], vals[0]);
      LaterKnows(env, later, kinds[1..], kinds'[1..], vals[1..]);
    }
  }

  // ---------------------------------------------------------------- what a reader gets, spelled out

  /** A field of zeroed memory. */
  predicate IsZero(reader: Env, k: Kind, w: Field)
    decreases w, 0
  {
    match k
    case Single(I(_)) => w == SingleVal(I(0))
    case Single(U(_)) => w == SingleVal(U(0))
    case Single(F(_)) => w == SingleVal(F(0))
    case Vector(len) => w.VectorVal? && |w.data| == len && forall i | 0 <= i < len :: w.data[i] == 0
    case Array(_) => w == ArrayVal([])
    case Embed(id) => w.EmbedVal? && AreZero(reader, Fields(reader, id), w.rec)
    case Pointer(_) => w == Null
    case Structs(_) => w == StructsVal([])
  }

  predicate AreZero(reader: Env, kinds: seq<Kind>, got: seq<Field>)
    decreases got, 1
  {
    |got| == |kinds| && forall i | 0 <= i < |got| :: IsZero(reader, kinds[i], got[i])
  }

  /** What a reader gets for a field that the writer does not know: the default, an empty array or a null
      pointer; and in an embedded struct only zeros, whatever its own defaults are. */
  predicate GetsNew(reader: Env, k: Kind, w: Field) {
    match k
    case Single(d) => w == SingleVal(d)
    case _ => IsZero(reader, k, w)
  }

  /** What a reader gets for a field with value `v`: the value, but for the sign of a zero that the other zero
      is the default of; of a vector as much as its array holds, and zeros behind; and of the structs in it
      the same. */
  predicate Gets(reader: Env, k: Kind, v: Field, w: Field)
    decreases v, 0
  {
    match k
    case Single(d) =>
      v.SingleVal? &&
      w == SingleVal(
        if (v.x == F(0) && d == F(NEGATIVE_ZERO)) || (v.x == F(NEGATIVE_ZERO) && d == F(0)) then d else v.x)
    case Vector(len) =>
      v.VectorVal? && w.VectorVal? && |w.data| == len &&
      forall i | 0 <= i < len :: w.data[i] == if i < |v.data| then v.data[i] else 0
    case Array(_) => w == v
    case Embed(id) => v.EmbedVal? && w.EmbedVal? && GetsAll(reader, Fields(reader, id), v.rec, w.rec)
    case Pointer(id) =>
      if v == Null then w == Null
      else v.PointerVal? && w.PointerVal? && GetsAll(reader, Fields(reader, id), v.rec, w.rec)
    case Structs(id) =>
      v.StructsVal? && w.StructsVal? && |w.recs| == |v.recs| &&
      forall i | 0 <= i < |v.recs| :: GetsAll(reader, Fields(reader, id), v.recs[i].vals, w.recs[i].vals)
  }

  /** What a reader with fields `kinds` gets of a struct value. */
  predicate GetsAll(reader: Env, kinds: seq<Kind>, sent: seq<Field>, got: seq<Field>)
    decreases sent, 1
  {
    |got| == |kinds| &&
    forall i | 0 <= i < |kinds| ::
      if i < |sent| then Gets(reader, kinds[i], sent[i], got[i]) else GetsNew(reader, kinds[i], got[i])
  }

  lemma {:induction false} ZeroRecordIsZero(env: Env, id: UserId)
    ensures AreZero(env, Fields(env, id), ZeroRecord(env, id))
    decreases Depth(env, id)
  {
    var kinds, rec := Fields(env, id), ZeroRecord(env, id);
    forall i | 0 <= i < |kinds| ensures IsZero(env, kinds[i], rec[i]) {
      if kinds[i].Embed? {
        ZeroRecordIsZero(env, kinds[i].id);
      }
    }
  }

  lemma {:induction false} DefaultIsGot(env: Env, k: Kind)
    ensures GetsNew(env, k, Default(env, k))
  {
    hide AreZero;
    if k.Embed? {
      ZeroRecordIsZero(env, k.id);
    }
  }

  lemma {:induction false} SeenFieldsAt(env: Env, kinds: seq<Kind>, vals: seq<Field>, i: nat)
    requires i < |kinds|
    ensures SeenFields(env, kinds, vals)[i]
         == if i < |vals| then Seen(env, kinds[i], vals[i]) else Default(env, kinds[i])
    decreases i
  {
    hide Seen, Default;
    if vals == [] {
      DefaultsAt(env, kinds, i);
    } else if i > 0 {
      SeenFieldsAt(env, kinds[1..], vals[1..], i - 1);
    }
  }

  lemma {:induction false} DefaultsAt(env: Env, kinds: seq<Kind>, i: nat)
    requires i < |kinds|
    ensures Defaults(env, kinds)[i] == Default(env, kinds[i])
    decreases i
  {
    hide Default;
    if i > 0 {
      DefaultsAt(env, kinds[1..], i - 1);
    }
  }

  /** C finds a scalar equal to another without its being it just when they are the two zeros. */
  lemma {:induction false} OtherZero(x: Scalar, y: Scalar)
    ensures x.EqualInC(y) && x != y <==>
            (x == F(0) && y == F(NEGATIVE_ZERO)) || (x == F(NEGATIVE_ZERO) && y == F(0))
  {
    if x.F? && y.F? {
      hide IeeeEqual, IsNaN;
      IeeeEqualMeans(x.f, y.f);
      ZerosAreNumbers();
    }
  }

  lemma {:induction false} ZerosAreNumbers()
    ensures !IsNaN(0) && !IsNaN(NEGATIVE_ZERO)
  {
  }

  lemma {:induction false} SeenIsGot(env: Env, reader: Env, k: Kind, v: Field)
    requires Related(env, reader) && FitsField(env, k, v)
    ensures Gets(reader, k, v, Seen(reader, k, v))
    decreases v, 0
  {
    match v
    case SingleVal(x) => OtherZero(x, k.dflt);
    case EmbedVal(rec) => SeenFieldsAreGot(env, reader, Fields(env, k.id), Fields(reader, k.id), rec);
    case PointerVal(rec) => SeenFieldsAreGot(env, reader, Fields(env, k.id), Fields(reader, k.id), rec);
    case StructsVal(recs) =>
      forall i | 0 <= i < |recs|
        ensures GetsAll(reader, Fields(reader, k.id), recs[i].vals, SeenRecords(reader, k.id, recs)[i].vals)
      {
        assert recs[i] in recs;
        SeenFieldsAreGot(env, reader, Fields(env, k.id), Fields(reader, k.id), recs[i].vals);
      }
    case _ =>
  }

  /** A struct as its reader sees it is what the reader gets. */
  lemma {:induction false} SeenFieldsAreGot(env: Env, reader: Env, kinds: seq<Kind>, kinds': seq<Kind>,
                                            vals: seq<Field>)
    requires Related(env, reader) && (kinds <= kinds' || kinds' <= kinds) && Fits(env, kinds, vals)
    ensures GetsAll(reader, kinds', vals, SeenFields(reader, kinds', vals))
    decreases vals, 1
  {
    hide Seen, Default, Gets, GetsNew, FitsField, Fits;
    var got := SeenFields(reader, kinds', vals);
    forall i | 0 <= i < |kinds'|
      ensures if i < |vals| then Gets(reader, kinds'[i], vals[i], got[i]) else GetsNew(reader, kinds'[i], got[i])
    {
      SeenFieldsAt(reader, kinds', vals, i);
      if i < |vals| {
        FitsAt(env, kinds, vals, i);
        SeenIsGot(env, reader, kinds'[i], vals[i]);
      } else {
        DefaultIsGot(reader, kinds'[i]);
      }
    }
  }
}
