/**
 The doubly linked list of test t16: a recursive type whose nodes are found
 through `next` pointers on the wire and whose `prev` pointers are rebuilt from
 the buffer's `user` slot.
 */
module LinkedList {
  import opened Words
  import opened Float64
  import opened Gobber
  import opened Wire
  import opened Arrays
  import opened Buffers
  import opened Schema
  import opened Readers
  import opened RoundTrip
  import opened StructEncoder
  import opened StructDecoder

  type i32 = x: int | -TWO_31 <= x < TWO_31

  class Link {
    var a: i32
    var b: bv64
    var next: Link?
    var prev: Link?

    constructor () {
    }
  }

  class List {
    var head: Link?
    var tail: Link?

    constructor () {
    }
  }

  const LIST_ID: UserId := 32
  const LINK_ID: UserId := 33

  const LINK_FIELDS: Layout := [Single(I(0)), Single(F(0)), Pointer(LINK_ID)]
  const LIST_FIELDS: Layout := [Pointer(LINK_ID)]
  const LIST_ENV: Env := map[LIST_ID := StructType(0, LIST_FIELDS), LINK_ID := StructType(0, LINK_FIELDS)]

  // ---------------------------------------------------------------- lists as values

  datatype Item = Item(a: i32, b: bv64)

  lemma {:induction false} OneField(env: Env, k: Kind, v: Field)
    ensures Fits(env, [k], [v]) <==> FitsField(env, k, v)
    ensures SeenFields(env, [k], [v]) == [Seen(env, k, v)]
  {
    hide FitsField, Seen;
    assert [k][1..] == [] && [v][1..] == [];
  }

  lemma {:induction false} TwoFields(env: Env, k0: Kind, k1: Kind, v0: Field, v1: Field)
    ensures Fits(env, [k0, k1], [v0, v1]) <==> FitsField(env, k0, v0) && FitsField(env, k1, v1)
    ensures SeenFields(env, [k0, k1], [v0, v1]) == [Seen(env, k0, v0), Seen(env, k1, v1)]
  {
    hide FitsField, Seen;
    assert [k0, k1][1..] == [k1] && [v0, v1][1..] == [v1];
    OneField(env, k1, v1);
  }

  lemma {:induction false} ThreeFields(env: Env, k0: Kind, k1: Kind, k2: Kind, v0: Field, v1: Field, v2: Field)
    ensures Fits(env, [k0, k1, k2], [v0, v1, v2]) <==>
            FitsField(env, k0, v0) && FitsField(env, k1, v1) && FitsField(env, k2, v2)
    ensures SeenFields(env, [k0, k1, k2], [v0, v1, v2]) == [Seen(env, k0, v0), Seen(env, k1, v1), Seen(env, k2, v2)]
  {
    hide FitsField, Seen;
    assert [k0, k1, k2][1..] == [k1, k2] && [v0, v1, v2][1..] == [v1, v2];
    TwoFields(env, k1, k2, v1, v2);
  }

  /** A non-empty chain of links, as the struct value of its first link. */
  function LinkRec(items: seq<Item>): (rec: seq<Field>)
    requires items != []
    ensures Fits(LIST_ENV, LINK_FIELDS, rec)
    decreases items
  {
    var next := if |items| == 1 then Null else PointerVal(LinkRec(items[1..]));
    var a, b := SingleVal(I(items[0].a)), SingleVal(F(items[0].b));
    ThreeFields(LIST_ENV, Single(I(0)), Single(F(0)), Pointer(LINK_ID), a, b, next);
    [a, b, next]
  }

  function ListRec(items: seq<Item>): (rec: seq<Field>)
    ensures Fits(LIST_ENV, LIST_FIELDS, rec)
  {
    var head := if items == [] then Null else PointerVal(LinkRec(items));
    OneField(LIST_ENV, Pointer(LINK_ID), head);
    [head]
  }

  /** The chain that a decoded pointer field stands for; decoded integers are narrowed to `int`. */
  function Chained(v: Field): seq<Item>
    decreases v
  {
    if v.PointerVal? && |v.rec| == 3 && v.rec[0].SingleVal? && v.rec[0].x.I? && v.rec[1].SingleVal? && v.rec[1].x.F?
    then
      [Item(ToInt32(v.rec[0].x.i), v.rec[1].x.f)] + Chained(v.rec[2])
    else []
  }

  /** An item as it comes back: bit for bit, except -0.0, which comes back as 0.0. */
  function Returned(item: Item): Item {
    if item.b == NEGATIVE_ZERO then Item(item.a, 0) else item
  }

  function ReturnedAll(items: seq<Item>): (r: seq<Item>)
    ensures |r| == |items|
  {
    seq(|items|, i requires 0 <= i < |items| => Returned(items[i]))
  }

  lemma {:induction false} ChainReturns(items: seq<Item>)
    requires items != []
    ensures Chained(PointerVal(SeenFields(LIST_ENV, LINK_FIELDS, LinkRec(items)))) == ReturnedAll(items)
    decreases items
  {
    hide SeenFields, LinkRec;
    LinkSeen(items);
    if |items| > 1 {
      ChainReturns(items[1..]);
    }
  }

  /** A link as its reader sees it. */
  lemma {:induction false} LinkSeen(items: seq<Item>)
    requires items != []
    ensures SeenFields(LIST_ENV, LINK_FIELDS, LinkRec(items)) ==
            [SingleVal(I(items[0].a)), SingleVal(F(Returned(items[0]).b)),
             if |items| == 1 then Null else PointerVal(SeenFields(LIST_ENV, LINK_FIELDS, LinkRec(items[1..])))]
  {
    hide IeeeEqual, SeenFields;
    var rec := LinkRec(items);
    ThreeFields(LIST_ENV, Single(I(0)), Single(F(0)), Pointer(LINK_ID), rec[0], rec[1], rec[2]);
    assert rec == [rec[0], rec[1], rec[2]];
    OtherZero(F(items[0].b), F(0));
  }

  // ---------------------------------------------------------------- lists in memory

  ghost function Items(nodes: seq<Link>): (items: seq<Item>)
    reads nodes
    ensures |items| == |nodes|
  {
    seq(|nodes|, i requires 0 <= i < |nodes| reads nodes => Item(nodes[i].a, nodes[i].b))
  }

  /** The link at an index, null outside the list. */
  ghost function At(nodes: seq<Link>, i: int): Link? {
    if 0 <= i < |nodes| then nodes[i] else null
  }

  /** `nodes` is the chain of `next` pointers from its first link to a null. */
  ghost predicate Chain(nodes: seq<Link>)
    reads nodes
  {
    forall i | 0 <= i < |nodes| :: nodes[i].next == At(nodes, i + 1)
  }

  /** A chain of distinct links in which every `prev` pointer leads back, the first one to `before`. */
  ghost predicate DoublyLinked(nodes: seq<Link>, before: Link?)
    reads nodes
  {
    && Chain(nodes)
    && (forall i, j | 0 <= i < j < |nodes| :: nodes[i] != nodes[j])
    && forall i | 0 <= i < |nodes| :: nodes[i].prev == if i == 0 then before else At(nodes, i - 1)
  }

  ghost function First(nodes: seq<Link>): Link? {
    At(nodes, 0)
  }

  ghost function Last(nodes: seq<Link>, otherwise: Link?): Link? {
    if nodes == [] then otherwise else nodes[|nodes| - 1]
  }

  lemma {:induction false} PrependChain(lnk: Link, rest: seq<Link>)
    requires Chain(rest) && lnk.next == First(rest)
    ensures Chain([lnk] + rest)
  {
    var nodes := [lnk] + rest;
    forall i | 0 <= i < |nodes| ensures nodes[i].next == At(nodes, i + 1) {
      if i > 0 {
        assert nodes[i] == rest[i - 1];
      }
    }
  }

  lemma {:induction false} PrependItems(lnk: Link, rest: seq<Link>)
    ensures Items([lnk] + rest) == [Item(lnk.a, lnk.b)] + Items(rest)
    ensures Last([lnk] + rest, null) == Last(rest, lnk)
  {
  }

  /** Putting a link in front of a doubly linked chain. */
  lemma {:induction false} PrependLink(lnk: Link, rest: seq<Link>)
    requires DoublyLinked(rest, lnk) && lnk !in rest && lnk.next == First(rest)
    ensures DoublyLinked([lnk] + rest, lnk.prev)
    ensures Items([lnk] + rest) == [Item(lnk.a, lnk.b)] + Items(rest)
    ensures Last([lnk] + rest, null) == Last(rest, lnk)
  {
    PrependChain(lnk, rest);
    PrependItems(lnk, rest);
    hide Items, Chain;
    var nodes := [lnk] + rest;
    forall i | 0 <= i < |nodes| ensures nodes[i].prev == if i == 0 then lnk.prev else At(nodes, i - 1) {
      if i > 0 {
        assert nodes[i] == rest[i - 1];
      }
    }
  }

  lemma {:induction false} DropLink(nodes: seq<Link>)
    requires Chain(nodes) && nodes != []
    ensures Chain(nodes[1..]) && nodes[0].next == First(nodes[1..])
    ensures Items(nodes)[1..] == Items(nodes[1..])
  {
    var rest := nodes[1..];
    forall i | 0 <= i < |rest| ensures rest[i].next == At(rest, i + 1) {
      assert rest[i] == nodes[i + 1];
    }
  }

  // ---------------------------------------------------------------- encoding

  lemma {:induction false} OneFieldBytes(env: Env, k: Kind, v: Field, delta: nat)
    requires FitsField(env, k, v) && delta + 1 <= TWO_32
    ensures Fits(env, [k], [v]) && EncFields(env, [k], [v], delta) == EncField(env, delta, k, v) + EncU(0)
  {
    hide FitsField, Omitted, EncField, EncU, EncBody;
    OneField(env, k, v);
    assert [k][1..] == [] && [v][1..] == [];
    FieldByField(env, [k], [v], delta);
  }

  /** The counter after a field. */
  function After(k: Kind, v: Field, delta: nat): nat {
    if Omitted(k, v) then delta + 1 else 1
  }

  lemma {:induction false} ThreeFieldBytes(env: Env, k0: Kind, k1: Kind, k2: Kind, v0: Field, v1: Field, v2: Field)
    requires FitsField(env, k0, v0) && FitsField(env, k1, v1) && FitsField(env, k2, v2)
    ensures var d1 := After(k0, v0, 1);
            var d2 := After(k1, v1, d1);
            Fits(env, [k0, k1, k2], [v0, v1, v2]) &&
            EncFields(env, [k0, k1, k2], [v0, v1, v2], 1) ==
            EncField(env, 1, k0, v0) + EncField(env, d1, k1, v1) + EncField(env, d2, k2, v2) + EncU(0)
  {
    hide FitsField, Omitted, EncField, EncU, EncFields, Fits;
    var d1 := After(k0, v0, 1);
    var d2 := After(k1, v1, d1);
    ThreeFields(env, k0, k1, k2, v0, v1, v2);
    TwoFields(env, k1, k2, v1, v2);
    assert [k0, k1, k2][1..] == [k1, k2] && [v0, v1, v2][1..] == [v1, v2];
    assert [k1, k2][1..] == [k2] && [v1, v2][1..] == [v2];
    FieldByField(env, [k0, k1, k2], [v0, v1, v2], 1);
    FieldByField(env, [k1, k2], [v1, v2], d1);
    OneFieldBytes(env, k2, v2, d2);
    Regroup(EncField(env, 1, k0, v0), EncField(env, d1, k1, v1), EncField(env, d2, k2, v2) + EncU(0));
    Regroup(EncField(env, 1, k0, v0) + EncField(env, d1, k1, v1), EncField(env, d2, k2, v2), EncU(0));
  }

  /** FLD_STRUCT of a link pointer: nothing for null, else offset, type and link. */
  method EncodeLinkField(gb: Buffer, delta: nat, next: Link?, ghost nodes: seq<Link>) returns (n: int, delta': nat)
    requires gb.Valid() && delta < TWO_32 && Chain(nodes) && next == First(nodes)
    modifies gb, gb.buf
    ensures var v := PointerTo(Items(nodes));
            (n >= 0 ==> gb.Appends(EncField(LIST_ENV, delta, Pointer(LINK_ID), v))) &&
            (|EncField(LIST_ENV, delta, Pointer(LINK_ID), v)| <= old(gb.Free()) ==> n >= 0)
    decreases |nodes|, 2
  {
    hide EncU, EncType, EncRecord, LinkRec;
    var start := gb.count;
    if next == null {
      return 0, delta + 1;
    }
    n := gb.EncodeValueUint64(delta);
    if n < 0 {
      return -1, delta;
    }
    n := gb.EncodeType(LINK_ID);
    if n < 0 {
      return -1, delta;
    }
    n := EncodeLink(gb, next, nodes);
    if n < 0 {
      return -1, delta;
    }
    return gb.count - start, 1;
  }

  /** The first two fields of a link. */
  method EncodeLinkValues(gb: Buffer, lnk: Link) returns (n: int, delta: nat)
    requires gb.Valid()
    modifies gb, gb.buf
    ensures var ka, kb, va, vb := Single(I(0)), Single(F(0)), SingleVal(I(lnk.a)), SingleVal(F(lnk.b));
            var sent := EncField(LIST_ENV, 1, ka, va) + EncField(LIST_ENV, After(ka, va, 1), kb, vb);
            (n >= 0 ==> gb.Appends(sent) && delta == After(kb, vb, After(ka, va, 1)) <= 3) &&
            (|sent| <= old(gb.Free()) ==> n >= 0)
  {
    hide EncField;
    n, delta := EncodeField(gb, LIST_ENV, 1, Single(I(0)), SingleVal(I(lnk.a)));
    if n < 0 {
      return;
    }
    n, delta := EncodeField(gb, LIST_ENV, delta, Single(F(0)), SingleVal(F(lnk.b)));
  }

  method EncodeLink(gb: Buffer, lnk: Link, ghost nodes: seq<Link>) returns (n: int)
    requires gb.Valid() && Chain(nodes) && nodes != [] && lnk == nodes[0]
    modifies gb, gb.buf
    ensures n >= 0 ==> gb.Appends(EncRecord(LIST_ENV, LINK_ID, LinkRec(Items(nodes))))
    ensures n >= 0 ==> n == |EncRecord(LIST_ENV, LINK_ID, LinkRec(Items(nodes)))|
    ensures |EncRecord(LIST_ENV, LINK_ID, LinkRec(Items(nodes)))| <= old(gb.Free()) ==> n >= 0
    decreases |nodes|, 1
  {
    hide EncU, EncField, EncFields, EncRecord, Fits, FitsField, Omitted, After, Chain, LinkRec;
    var start := gb.count;
    ghost var rest := nodes[1..];
    DropLink(nodes);
    assert Items(nodes)[0] == Item(lnk.a, lnk.b);
    LinkBytes(Items(nodes), Item(lnk.a, lnk.b), Items(rest));
    var delta;
    n, delta := EncodeLinkValues(gb, lnk);
    if n < 0 {
      return;
    }
    n, delta := EncodeLinkField(gb, delta, lnk.next, rest);
    if n < 0 {
      return;
    }
    n := gb.EncodeValueUint64(0);
    if n < 0 {
      return -4;
    }
    return gb.count - start;
  }

  /** A pointer to a chain, as a field value. */
  function PointerTo(items: seq<Item>): (v: Field)
    ensures FitsField(LIST_ENV, Pointer(LINK_ID), v)
  {
    if items == [] then Null else PointerVal(LinkRec(items))
  }

  lemma {:induction false} LinkBytes(items: seq<Item>, first: Item, rest: seq<Item>)
    requires items != [] && items[0] == first && items[1..] == rest
    ensures var ka, kb, va, vb := Single(I(0)), Single(F(0)), SingleVal(I(first.a)), SingleVal(F(first.b));
            var d1 := After(ka, va, 1);
            EncRecord(LIST_ENV, LINK_ID, LinkRec(items)) ==
            EncField(LIST_ENV, 1, ka, va) + EncField(LIST_ENV, d1, kb, vb)
            + EncField(LIST_ENV, After(kb, vb, d1), Pointer(LINK_ID), PointerTo(rest)) + EncU(0)
  {
    hide EncField, EncU, EncFields;
    ThreeFieldBytes(LIST_ENV, Single(I(0)), Single(F(0)), Pointer(LINK_ID),
                    SingleVal(I(first.a)), SingleVal(F(first.b)), PointerTo(rest));
    assert LinkRec(items) == [SingleVal(I(first.a)), SingleVal(F(first.b)), PointerTo(rest)];
  }

  lemma {:induction false} IntFieldBytes(a: i32, delta: nat)
    requires delta < 128
    ensures EncField(LIST_ENV, delta, Single(I(0)), SingleVal(I(a))) ==
            if a == 0 then [] else [delta, 4] + EncU(if a < 0 then -2 * a - 1 else 2 * a)
  {
    assert EncU(delta) == [delta];
    hide EncU, EncScalar;
    ScalarBytes(I(a));
  }

  lemma {:induction false} DoubleFieldBytes(b: bv64, delta: nat)
    requires delta < 128
    ensures EncField(LIST_ENV, delta, Single(F(0)), SingleVal(F(b))) ==
            if b == 0 || b == NEGATIVE_ZERO then [] else [delta, 8] + EncU(FloatWord(b))
  {
    assert EncU(delta) == [delta];
    hide EncU, EncScalar, IeeeEqual, IsNaN, FloatWord, Fits;
    ScalarBytes(F(b));
    ZerosAreNumbers();
    IeeeEqualMeans(b, 0);
  }

  lemma {:induction false} PointerFieldBytes(items: seq<Item>, delta: nat)
    requires delta < 128
    ensures EncField(LIST_ENV, delta, Pointer(LINK_ID), PointerTo(items)) ==
            if items == [] then [] else [delta, 66] + EncRecord(LIST_ENV, LINK_ID, LinkRec(items))
  {
    assert EncU(delta) == [delta];
    hide EncU, EncType, EncRecord, LinkRec, Fits;
    TypeBytes(LINK_ID);
    if items != [] {
      Regroup([delta], [66], EncRecord(LIST_ENV, LINK_ID, LinkRec(items)));
    }
  }

  /** The bytes of a link: the fields that are not zero, each with its distance and type, and the end mark. */
  lemma {:induction false} LinkOnTheWire(items: seq<Item>)
    requires items != []
    ensures var a, b := items[0].a as int, items[0].b;
            var zero := b == 0 || b == NEGATIVE_ZERO;
            var forB := if a == 0 then 2 else 1;
            var forNext := if zero then forB + 1 else 1;
            EncRecord(LIST_ENV, LINK_ID, LinkRec(items)) ==
            (if a == 0 then [] else [1, 4] + EncU(if a < 0 then -2 * a - 1 else 2 * a))
            + (if zero then [] else [forB, 8] + EncU(FloatWord(b)))
            + (if |items| == 1 then [] else [forNext, 66] + EncRecord(LIST_ENV, LINK_ID, LinkRec(items[1..])))
            + [0]
  {
    hide EncU, EncField, EncRecord, LinkRec, FloatWord, IeeeEqual, IsNaN;
    var first := items[0];
    LinkBytes(items, first, items[1..]);
    EndMark([]);
    ZerosAreNumbers();
    IeeeEqualMeans(first.b, 0);
    IntFieldBytes(first.a, 1);
    var forB := if first.a == 0 then 2 else 1;
    DoubleFieldBytes(first.b, forB);
    PointerFieldBytes(items[1..], if first.b == 0 || first.b == NEGATIVE_ZERO then forB + 1 else 1);
  }

  /** The bytes of a list: its type id, its first link if there is one, and the end mark. */
  lemma {:induction false} ListOnTheWire(items: seq<Item>)
    ensures EncStruct(LIST_ENV, LIST_ID, ListRec(items)) ==
            [64] + (if items == [] then [] else [1, 66] + EncRecord(LIST_ENV, LINK_ID, LinkRec(items))) + [0]
  {
    hide EncU, EncField, EncRecord, LinkRec;
    ListBytes(items);
    TypeBytes(LIST_ID);
    EndMark([]);
    PointerFieldBytes(items, 1);
  }

  // ---------------------------------------------------------------- decoding

  datatype PairDec = PairFail | Pair(va: Field, vb: Field, delta: nat, rest: bytes)

  /** The first two fields of a link, one after the other. */
  ghost function DecPair(s: bytes): PairDec {
    match DecField(LIST_ENV, Single(I(0)), 1, s)
    case FieldFail => PairFail
    case Decoded(va, d, t) =>
      match DecField(LIST_ENV, Single(F(0)), d, t)
      case FieldFail => PairFail
      case Decoded(vb, d', t') => Pair(va, vb, d', t')
  }

  /** A last field and the end mark, after fields that gave `done`. */
  ghost function DecLast(k: Kind, delta: nat, s: bytes, done: seq<Field>): RecordDec {
    match DecField(LIST_ENV, k, delta, s)
    case FieldFail => RecordFail
    case Decoded(v, _, t) =>
      match DecEnd(t)
      case RecordFail => RecordFail
      case Record(_, rest) => Record(done + [v], rest)
  }

  lemma {:induction false} LastFieldIs(k: Kind, delta: nat, s: bytes)
    ensures DecFields(LIST_ENV, [k], delta, s) == DecLast(k, delta, s, [])
  {
    hide DecField, DecEnd;
    assert [k][1..] == [];
    var d := DecField(LIST_ENV, k, delta, s);
    if d.Decoded? {
      assert DecFields(LIST_ENV, [], d.delta, d.rest) == DecEnd(d.rest);
      EndIsEmpty(d.rest);
    }
  }

  lemma {:induction false} EndIsEmpty(s: bytes)
    ensures DecEnd(s).Record? ==> DecEnd(s).vals == []
  {
    hide DecU;
  }

  lemma {:induction false} LinkFieldsAre(s: bytes)
    ensures DecFields(LIST_ENV, LINK_FIELDS, 1, s) ==
            match DecPair(s)
            case PairFail => RecordFail
            case Pair(va, vb, d, t) => DecLast(Pointer(LINK_ID), d, t, [va, vb])
  {
    hide DecField, DecEnd;
    var ka, kb, k := Single(I(0)), Single(F(0)), Pointer(LINK_ID);
    assert LINK_FIELDS[1..] == [kb, k] && [kb, k][1..] == [k];
    var d0 := DecField(LIST_ENV, ka, 1, s);
    if d0.Decoded? {
      var d1 := DecField(LIST_ENV, kb, d0.delta, d0.rest);
      if d1.Decoded? {
        LastFieldIs(k, d1.delta, d1.rest);
        var tail := DecFields(LIST_ENV, [k], d1.delta, d1.rest);
        assert DecFields(LIST_ENV, [kb, k], d0.delta, d0.rest)
            == if tail.Record? then Record([d1.v] + tail.vals, tail.rest) else RecordFail;
      } else {
        assert DecFields(LIST_ENV, [kb, k], d0.delta, d0.rest) == RecordFail;
      }
    }
  }

  /** The pointer field spelled out: skipped, or a type id and a link. */
  lemma {:induction false} PointerFieldIs(delta: nat, s: bytes)
    ensures DecField(LIST_ENV, Pointer(LINK_ID), delta, s) ==
            match DecU(s)
            case Short(_) => FieldFail
            case Got(offset, t) =>
              if offset == 0 || delta == 0 then Decoded(Null, 0, s)
              else if delta < offset then Decoded(Null, delta + 1, s)
              else
                match DecU(t)
                case Short(_) => FieldFail
                case Got(u, t') =>
                  if TypeOfWord(u) != LINK_ID then FieldFail
                  else
                    match DecFields(LIST_ENV, LINK_FIELDS, 1, t')
                    case RecordFail => FieldFail
                    case Record(rec, rest) => Decoded(PointerVal(rec), 1, rest)
  {
    hide DecU, DecFields, TypeOfWord;
    var k := Pointer(LINK_ID);
    if DecU(s).Got? {
      var t := DecU(s).rest;
      assert DecElement(LIST_ENV, k, t) == DecNested(LIST_ENV, k, t);
    }
  }

  /** FLD_STRUCT_PTR of a link: null if the field is not there, else a new link, decoded. */
  method DecodeLinkField(gb: Buffer, delta: nat)
    returns (n: int, next: nat, p: Link?, ghost nodes: seq<Link>, ghost v: Field)
    requires gb.Valid() && (gb.user == null || gb.user is Link)
    modifies gb`current, gb`lastError, gb`user
    ensures gb.Valid() && gb.current >= old(gb.current)
    ensures fresh(nodes)
    ensures n >= 0 ==> DecField(LIST_ENV, Pointer(LINK_ID), delta, old(gb.Unread())) == Decoded(v, next, gb.Unread())
    ensures n >= 0 ==> p == First(nodes) && DoublyLinked(nodes, old(gb.user) as Link?) && Items(nodes) == Chained(v)
    ensures n >= 0 ==> gb.user == Last(nodes, old(gb.user) as Link?)
    ensures gb.reliable && DecField(LIST_ENV, Pointer(LINK_ID), delta, old(gb.Unread())).Decoded? ==> n >= 0
    decreases gb.count - gb.current, 0
  {
    hide DecU, DecField, DecFields, TypeOfWord, DoublyLinked, Items;
    PointerFieldIs(delta, gb.Unread());
    NoLinks(gb.user as Link?);
    var decode;
    nodes, v, p := [], Null, null;
    n, next, decode := FieldGate(gb, delta);
    if n >= 0 && decode {
      ghost var rec;
      n, p, nodes, rec := DecodeNewLink(gb);
      next, v := 1, PointerVal(rec);
    }
  }

  lemma {:induction false} NoLinks(before: Link?)
    ensures DoublyLinked([], before) && Items([]) == Chained(Null)
  {
  }

  /** The rest of the pointer field: the type id, a new link, and its decoding. */
  method DecodeNewLink(gb: Buffer) returns (n: int, p: Link?, ghost nodes: seq<Link>, ghost rec: seq<Field>)
    requires gb.Valid() && (gb.user == null || gb.user is Link)
    modifies gb`current, gb`lastError, gb`user
    ensures gb.Valid() && gb.current >= old(gb.current)
    ensures fresh(nodes)
    ensures match DecU(old(gb.Unread()))
            case Short(_) => n < 0
            case Got(u, t) =>
              (n >= 0 ==>
                 TypeOfWord(u) == LINK_ID && DecFields(LIST_ENV, LINK_FIELDS, 1, t) == Record(rec, gb.Unread())) &&
              (gb.reliable && TypeOfWord(u) == LINK_ID && DecFields(LIST_ENV, LINK_FIELDS, 1, t).Record? ==> n >= 0)
    ensures n >= 0 ==> nodes != [] && p == nodes[0] && DoublyLinked(nodes, old(gb.user) as Link?)
    ensures n >= 0 ==> Items(nodes) == Chained(PointerVal(rec)) && gb.user == Last(nodes, null)
    decreases gb.count - gb.current, 2
  {
    hide DecU, DecFields, TypeOfWord, DoublyLinked, Items;
    nodes, rec, p := [], [], null;
    var typeid;
    n, typeid := gb.PeekType();
    if typeid != LINK_ID {
      gb.lastError := GLME_E_TYPE;
      return -1, p, nodes, rec;
    }
    n, typeid := gb.DecodeType();
    if typeid != LINK_ID {
      gb.lastError := GLME_E_TYPE;
      return -1, p, nodes, rec;
    }
    var ok := gb.Granted(1);
    if !ok {
      gb.lastError := GLME_E_NOMEM;
      return -1, p, nodes, rec;
    }
    var lnk := new Link();
    n, nodes, rec := DecodeLink(gb, lnk);
    if n < 0 {
      nodes := [];
      return;
    }
    assert nodes == [lnk] + nodes[1..];
    p := lnk;
  }

  /** The first two fields of a link. */
  method DecodeLinkValues(gb: Buffer, lnk: Link) returns (n: int, delta: nat, ghost va: Field, ghost vb: Field)
    requires gb.Valid()
    modifies gb`current, gb`lastError, lnk`a, lnk`b
    ensures gb.Valid() && gb.current >= old(gb.current)
    ensures n >= 0 ==> DecPair(old(gb.Unread())) == Pair(va, vb, delta, gb.Unread())
    ensures n >= 0 ==> va.SingleVal? && va.x.I? && lnk.a == ToInt32(va.x.i) && vb.SingleVal? && vb.x == F(lnk.b)
    ensures gb.reliable && DecPair(old(gb.Unread())).Pair? ==> n >= 0
  {
    hide DecU, DecField;
    va, vb := Null, Null;
    var v;
    n, delta, v := DecodeField(gb, LIST_ENV, 1, Single(I(0)));
    if n < 0 {
      return;
    }
    va, lnk.a := v, ToInt32(v.x.i);
    n, delta, v := DecodeField(gb, LIST_ENV, delta, Single(F(0)));
    if n < 0 {
      return;
    }
    vb, lnk.b := v, v.x.f;
  }

  lemma {:induction false} ChainedStep(va: Field, vb: Field, v: Field)
    requires va.SingleVal? && va.x.I? && vb.SingleVal? && vb.x.F?
    ensures Chained(PointerVal([va, vb, v])) == [Item(ToInt32(va.x.i), vb.x.f)] + Chained(v)
  {
  }

  /** `decode_link`: the link comes first in `nodes`, and leads back to what the `user` slot held. */
  method DecodeLink(gb: Buffer, lnk: Link) returns (n: int, ghost nodes: seq<Link>, ghost rec: seq<Field>)
    requires gb.Valid() && (gb.user == null || gb.user is Link)
    modifies gb`current, gb`lastError, gb`user, lnk
    ensures gb.Valid() && gb.current >= old(gb.current)
    ensures n >= 0 ==> DecFields(LIST_ENV, LINK_FIELDS, 1, old(gb.Unread())) == Record(rec, gb.Unread())
    ensures n >= 0 ==> n == gb.current - old(gb.current) > 0 && nodes != [] && nodes[0] == lnk && fresh(nodes[1..])
    ensures n >= 0 ==> DoublyLinked(nodes, old(gb.user) as Link?) && Items(nodes) == Chained(PointerVal(rec))
    ensures n >= 0 ==> gb.user == Last(nodes, null)
    ensures gb.reliable && DecFields(LIST_ENV, LINK_FIELDS, 1, old(gb.Unread())).Record? ==> n >= 0
    decreases gb.count - gb.current, 1
  {
    hide DecU, DecField, DecFields, DecPair, DecEnd, DoublyLinked, Items, Chained, ToInt32;
    var start := gb.current;
    LinkFieldsAre(gb.Unread());
    nodes, rec := [], [];
    var delta;
    ghost var va, vb;
    n, delta, va, vb := DecodeLinkValues(gb, lnk);
    if n < 0 {
      return;
    }
    lnk.prev := gb.user as Link?;
    gb.user := lnk;
    ghost var rest, v;
    n, delta, lnk.next, rest, v := DecodeLinkField(gb, delta);
    if n < 0 {
      return;
    }
    n := DecodeEnd(gb);
    if n < 0 {
      return -4, nodes, rec;
    }
    PrependLink(lnk, rest);
    ChainedStep(va, vb, v);
    nodes, rec := [lnk] + rest, [va, vb, v];
    return gb.current - start, nodes, rec;
  }

  /** `decode_list`: head, tail and every link between, built from any bytes that decode. */
  method DecodeList(gb: Buffer, l: List) returns (n: int, ghost nodes: seq<Link>, ghost rec: seq<Field>)
    requires gb.Valid()
    modifies gb`current, gb`lastError, gb`user, l
    ensures gb.Valid() && gb.current >= old(gb.current)
    ensures fresh(nodes)
    ensures n >= 0 ==> DecFields(LIST_ENV, LIST_FIELDS, 1, old(gb.Unread())) == Record(rec, gb.Unread())
    ensures n >= 0 ==> |rec| == 1 && Items(nodes) == Chained(rec[0])
    ensures n >= 0 ==> DoublyLinked(nodes, null) && l.head == First(nodes) && l.tail == Last(nodes, null)
    ensures n >= 0 ==> gb.user == null && n == gb.current - old(gb.current)
    ensures gb.reliable && DecFields(LIST_ENV, LIST_FIELDS, 1, old(gb.Unread())).Record? ==> n >= 0
  {
    hide DecU, DecField, DecFields, DecEnd, DoublyLinked, Items, Chained;
    var start := gb.current;
    LastFieldIs(Pointer(LINK_ID), 1, gb.Unread());
    nodes, rec := [], [];
    gb.user := null;
    var delta: nat := 1;
    ghost var v;
    n, delta, l.head, nodes, v := DecodeLinkField(gb, delta);
    if n < 0 {
      return;
    }
    n := DecodeEnd(gb);
    if n < 0 {
      return -4, nodes, rec;
    }
    rec := [v];
    l.tail := gb.user as Link?;
    gb.user := null;
    return gb.current - start, nodes, rec;
  }

  // ---------------------------------------------------------------- there and back

  lemma {:induction false} ListBytes(items: seq<Item>)
    ensures EncRecord(LIST_ENV, LIST_ID, ListRec(items))
         == EncField(LIST_ENV, 1, Pointer(LINK_ID), PointerTo(items)) + EncU(0)
  {
    hide EncField, EncU, EncFields, FitsField;
    OneFieldBytes(LIST_ENV, Pointer(LINK_ID), PointerTo(items), 1);
    assert ListRec(items) == [PointerTo(items)];
  }

  method EncodeList(gb: Buffer, l: List, ghost nodes: seq<Link>) returns (n: int)
    requires gb.Valid() && Chain(nodes) && l.head == First(nodes)
    modifies gb, gb.buf
    ensures n >= 0 ==> gb.Appends(EncRecord(LIST_ENV, LIST_ID, ListRec(Items(nodes))))
    ensures |EncRecord(LIST_ENV, LIST_ID, ListRec(Items(nodes)))| <= old(gb.Free()) ==> n >= 0
  {
    hide EncU, EncField, EncRecord, FitsField, Chain, Items;
    var start := gb.count;
    ListBytes(Items(nodes));
    var delta;
    n, delta := EncodeLinkField(gb, 1, l.head, nodes);
    if n < 0 {
      return;
    }
    n := gb.EncodeValueUint64(0);
    if n < 0 {
      return -4;
    }
    return gb.count - start;
  }

  /** `encode_list` under `glme_encode_struct`. */
  method EncodeListMessage(gb: Buffer, l: List, ghost nodes: seq<Link>) returns (n: int)
    requires gb.Valid() && Chain(nodes) && l.head == First(nodes)
    modifies gb, gb.buf
    ensures n >= 0 ==> gb.Appends(EncStruct(LIST_ENV, LIST_ID, ListRec(Items(nodes))))
    ensures |EncStruct(LIST_ENV, LIST_ID, ListRec(Items(nodes)))| <= old(gb.Free()) ==> n >= 0
  {
    hide EncType, EncRecord, Chain, Items, ListRec;
    var start := gb.count;
    n := gb.EncodeType(LIST_ID);
    if n < 0 {
      return -1;
    }
    n := EncodeList(gb, l, nodes);
    return if n < 0 then n else gb.count - start;
  }

  /** `decode_list` under `glme_decode_struct`. */
  method DecodeListMessage(gb: Buffer, l: List) returns (n: int, ghost nodes: seq<Link>, ghost rec: seq<Field>)
    requires gb.Valid()
    modifies gb`current, gb`lastError, gb`user, l
    ensures gb.Valid() && gb.current >= old(gb.current)
    ensures fresh(nodes)
    ensures n >= 0 ==> DecStruct(LIST_ENV, LIST_ID, old(gb.Unread())) == Record(rec, gb.Unread())
    ensures n >= 0 ==> |rec| == 1 && Items(nodes) == Chained(rec[0])
    ensures n >= 0 ==> DoublyLinked(nodes, null) && l.head == First(nodes) && l.tail == Last(nodes, null)
    ensures gb.reliable && DecStruct(LIST_ENV, LIST_ID, old(gb.Unread())).Record? ==> n >= 0
  {
    hide DecU, DecFields, TypeOfWord, DoublyLinked, Items;
    nodes, rec := [], [];
    var typeid;
    n, typeid := gb.DecodeType();
    if typeid != LIST_ID {
      gb.lastError := GLME_E_TYPE;
      return -1, nodes, rec;
    }
    n, nodes, rec := DecodeList(gb, l);
  }

  lemma {:induction false} ListReturns(items: seq<Item>)
    ensures var d := DecStruct(LIST_ENV, LIST_ID, EncStruct(LIST_ENV, LIST_ID, ListRec(items)));
            d.Record? && d.rest == [] && |d.vals| == 1 &&
            Chained(d.vals[0]) == ReturnedAll(items)
  {
    hide DecStruct, EncStruct, Fits, EncFields;
    var rec := ListRec(items);
    var s := EncStruct(LIST_ENV, LIST_ID, rec);
    assert s + [] == s;
    EvolvedStruct(LIST_ENV, LIST_ENV, LIST_ID, rec, []);
    OneField(LIST_ENV, Pointer(LINK_ID), PointerTo(items));
    assert rec == [PointerTo(items)];
    if items != [] {
      ChainReturns(items);
    }
  }

  lemma {:induction false} ListSpelled(items: seq<Item>, copies: seq<Link>)
    requires DoublyLinked(copies, null) && Items(copies) == ReturnedAll(items)
    ensures |copies| == |items|
    ensures forall i | 0 <= i < |items| ::
              copies[i].a == items[i].a && copies[i].b == if items[i].b == NEGATIVE_ZERO then 0 else items[i].b
    ensures forall i, j | 0 <= i < j < |copies| :: copies[i] != copies[j]
    ensures forall i | 0 <= i < |copies| - 1 :: copies[i].next == copies[i + 1] && copies[i + 1].prev == copies[i]
    ensures copies != [] ==> copies[0].prev == null && copies[|copies| - 1].next == null
  {
    forall i | 0 <= i < |items|
      ensures copies[i].a == items[i].a && copies[i].b == if items[i].b == NEGATIVE_ZERO then 0 else items[i].b
    {
      assert Items(copies)[i] == Returned(items[i]);
    }
    if copies != [] {
      assert copies[0].prev == null && copies[|copies| - 1].next == At(copies, |copies|);
    }
  }

  method SendThrough(l: List, ghost nodes: seq<Link>, len: nat) returns (copy: List, ghost copies: seq<Link>)
    requires Chain(nodes) && l.head == First(nodes)
    requires |EncStruct(LIST_ENV, LIST_ID, ListRec(Items(nodes)))| <= len <= INT_MAX
    ensures fresh(copy) && fresh(copies)
    ensures DoublyLinked(copies, null) && copy.head == First(copies) && copy.tail == Last(copies, null)
    ensures Items(copies) == ReturnedAll(old(Items(nodes)))
  {
    hide DecStruct, EncStruct, DoublyLinked, Chain, Items, ReturnedAll, ListRec;
    ghost var items := Items(nodes);
    ghost var message := EncStruct(LIST_ENV, LIST_ID, ListRec(items));
    ListReturns(items);
    var gb := new Buffer(len, true);
    var n := EncodeListMessage(gb, l, nodes);
    assert gb.Written() == message;
    assert gb.Unread() == message;
    copy := new List();
    ghost var rec;
    n, copies, rec := DecodeListMessage(gb, copy);
  }

  /** A list sent through a buffer that is large enough comes back as fresh, distinct, doubly linked
      links with the same values in the same order, bit for bit except for -0.0, which comes back as 0.0. */
  method SendList(l: List, ghost nodes: seq<Link>, len: nat) returns (copy: List, ghost copies: seq<Link>)
    requires Chain(nodes) && l.head == First(nodes)
    requires |EncStruct(LIST_ENV, LIST_ID, ListRec(Items(nodes)))| <= len <= INT_MAX
    ensures fresh(copy) && fresh(copies)
    ensures |copies| == |nodes|
    ensures forall i | 0 <= i < |nodes| ::
              copies[i].a == old(nodes[i].a) &&
              copies[i].b == if old(nodes[i].b) == NEGATIVE_ZERO then 0 else old(nodes[i].b)
    ensures forall i, j | 0 <= i < j < |copies| :: copies[i] != copies[j]
    ensures forall i | 0 <= i < |copies| - 1 :: copies[i].next == copies[i + 1] && copies[i + 1].prev == copies[i]
    ensures copies == [] ==> copy.head == null && copy.tail == null
    ensures copies != [] ==> copy.head == copies[0] && copies[0].prev == null
    ensures copies != [] ==> copy.tail == copies[|copies| - 1] && copies[|copies| - 1].next == null
  {
    ghost var items := Items(nodes);
    assert forall i | 0 <= i < |nodes| :: items[i] == Item(nodes[i].a, nodes[i].b);
    hide *;
    copy, copies := SendThrough(l, nodes, len);
    ListSpelled(items, copies);
  }
}
