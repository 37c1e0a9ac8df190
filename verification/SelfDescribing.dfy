/**
 The Python module's element format: every value is preceded by its type code, so
 it can be read back without a schema.
 */
module SelfDescribing {
  import opened Words
  import opened Float64
  import opened Gobber
  import opened Wire

  // the module's own codes; INT and UINT are the other way round than in the C header
  const PY_ANY := 0
  const PY_BOOLEAN := 1
  const PY_UINT := 2
  const PY_INT := 3
  const PY_FLOAT := 4
  const PY_VECTOR := 5
  const PY_STRING := 6
  const PY_ARRAY := 10
  const PY_MAP := 11

  /** Strings are taken as their UTF-8 bytes. */
  datatype Key = StrKey(s: bytes) | IntKey(i: i64)

  datatype Elem =
    | PInt(i: i64)
    | PFloat(f: bv64)
    | PBool(b: bool)
    | PStr(s: bytes)
    | PBytes(data: bytes)
    | PList(items: seq<Elem>)
    | PDict(entries: seq<Entry>)

  /** An entry of a dictionary, which keeps the order of insertion. */
  datatype Entry = Entry(k: Key, v: Elem)

  // ---------------------------------------------------------------- what can be encoded

  predicate ByteDataOk(s: bytes) {
    0 < |s| <= INT_MAX
  }

  predicate KeyOk(k: Key) {
    k.StrKey? ==> ByteDataOk(k.s)
  }

  predicate SameKeyType(j: Key, k: Key) {
    j.StrKey? <==> k.StrKey?
  }

  /** No empty strings, bytes or dictionaries; dictionary keys are distinct and of one type. */
  predicate Encodable(e: Elem)
    decreases e, 0
  {
    match e
    case PStr(s) => ByteDataOk(s)
    case PBytes(s) => ByteDataOk(s)
    case PList(items) => |items| < TWO_63 && AllEncodable(items)
    case PDict(entries) => 0 < |entries| < TWO_63 && EntriesEncodable(entries, entries[0].k)
    case _ => true
  }

  predicate AllEncodable(items: seq<Elem>)
    decreases items, 1
  {
    items == [] || (Encodable(items[0]) && AllEncodable(items[1..]))
  }

  predicate EntriesEncodable(entries: seq<Entry>, k: Key)
    decreases entries, 1
  {
    entries != [] ==>
      var Entry(key, v) := entries[0];
      assert v < entries[0];
      && KeyOk(key) && SameKeyType(key, k)
      && (forall i | 1 <= i < |entries| :: entries[i].k != key)
      && Encodable(v)
      && EntriesEncodable(entries[1..], k)
  }

  // ---------------------------------------------------------------- encoding

  function EncKey(k: Key): bytes
    requires KeyOk(k)
  {
    match k case StrKey(s) => EncBytes(s) case IntKey(i) => EncI(i)
  }

  function KeyCode(k: Key): i64 {
    if k.StrKey? then PY_STRING else PY_INT
  }

  function EncElem(e: Elem): (s: bytes)
    requires Encodable(e)
    ensures |s| > 0
    decreases e, 0
  {
    match e
    case PInt(i) => EncI(PY_INT) + EncI(i)
    case PFloat(f) => EncI(PY_FLOAT) + EncU(FloatWord(f))
    case PBool(b) => EncI(PY_BOOLEAN) + EncU(if b then 1 else 0)
    case PStr(s) => EncI(PY_STRING) + EncBytes(s)
    case PBytes(s) => EncI(PY_VECTOR) + EncBytes(s)
    case PList(items) => EncI(PY_ARRAY) + (EncI(PY_ANY) + (EncU(|items|) + EncElems(items)))
    case PDict(entries) =>
      EncI(PY_MAP) + (EncI(KeyCode(entries[0].k))
                      + (EncI(PY_ANY) + (EncU(|entries|) + EncEntries(entries, entries[0].k))))
  }

  function EncElems(items: seq<Elem>): bytes
    requires AllEncodable(items)
    decreases items, 1
  {
    if items == [] then [] else EncElem(items[0]) + EncElems(items[1..])
  }

  /** The entries of a dictionary whose keys are of the type of `k`. */
  function EncEntries(entries: seq<Entry>, k: Key): bytes
    requires EntriesEncodable(entries, k)
    decreases entries, 1
  {
    if entries == [] then []
    else
      var Entry(key, v) := entries[0];
      assert v < entries[0];
      EncKey(key) + EncElem(v) + EncEntries(entries[1..], k)
  }

  /** The bytes of an element: the type code, for a list or dictionary the type codes of keys and items and
      the number of items, and then the value or the items. */
  lemma {:induction false} ElementBytes(e: Elem)
    requires Encodable(e)
    ensures EncElem(e) ==
            match e
            case PInt(i) => [6] + EncU(if i < 0 then -2 * i - 1 else 2 * i)
            case PFloat(f) => [8] + EncU(FloatWord(f))
            case PBool(b) => if b then [2, 1] else [2, 0]
            case PStr(s) => [12] + EncU(|s|) + s
            case PBytes(s) => [10] + EncU(|s|) + s
            case PList(items) => [20, 0] + EncU(|items|) + EncElems(items)
            case PDict(entries) =>
              [22, if entries[0].k.StrKey? then 12 else 6, 0] + EncU(|entries|) + EncEntries(entries, entries[0].k)
  {
    CodeBytes();
    hide EncElems, EncEntries;
    match e
    case PInt(i) => ZigzagBijection(i, 0);
    case PDict(entries) => assert KeyCode(entries[0].k) == if entries[0].k.StrKey? then 6 else 3;
    case _ =>
  }

  lemma {:induction false} CodeBytes()
    ensures EncI(0) == [0] && EncI(1) == [2] && EncI(3) == [6] && EncI(4) == [8]
    ensures EncI(5) == [10] && EncI(6) == [12] && EncI(10) == [20] && EncI(11) == [22]
    ensures EncU(0) == [0] && EncU(1) == [1]
  {
  }

  /** The items of a list one after the other. */
  lemma {:induction false} ItemsBytes(items: seq<Elem>)
    requires AllEncodable(items)
    ensures forall i | 0 <= i < |items| :: Encodable(items[i])
    ensures EncElems(items) == Concat(seq(|items|, i requires 0 <= i < |items| => EncElem(items[i])))
    decreases |items|
  {
    hide EncElem, Encodable;
    if items != [] {
      ItemsBytes(items[1..]);
      assert forall i | 0 < i < |items| :: items[i] == items[1..][i - 1];
      assert seq(|items|, i requires 0 <= i < |items| => EncElem(items[i]))[1..]
          == seq(|items| - 1, i requires 0 <= i < |items| - 1 => EncElem(items[1..][i]));
    }
  }

  /** The entries of a dictionary one after the other, each key without a code in front of its element. */
  lemma {:induction false} EntriesBytes(entries: seq<Entry>, k: Key)
    requires EntriesEncodable(entries, k)
    ensures forall i | 0 <= i < |entries| :: KeyOk(entries[i].k) && Encodable(entries[i].v)
    ensures EncEntries(entries, k) ==
            Concat(seq(|entries|, i requires 0 <= i < |entries| => EncKey(entries[i].k) + EncElem(entries[i].v)))
    decreases |entries|
  {
    hide EncElem, Encodable, EncKey, KeyOk;
    if entries != [] {
      EntriesBytes(entries[1..], k);
      assert forall i | 0 < i < |entries| :: entries[i] == entries[1..][i - 1];
      assert seq(|entries|, i requires 0 <= i < |entries| => EncKey(entries[i].k) + EncElem(entries[i].v))[1..]
          == seq(|entries| - 1, i requires 0 <= i < |entries| - 1 =>
               EncKey(entries[1..][i].k) + EncElem(entries[1..][i].v));
    }
  }

  lemma {:induction false} KeyBytes(k: Key)
    requires KeyOk(k)
    ensures EncKey(k) ==
            match k case StrKey(s) => EncU(|s|) + s case IntKey(i) => EncU(if i < 0 then -2 * i - 1 else 2 * i)
  {
    if k.IntKey? {
      ZigzagBijection(k.i, 0);
    }
  }

  // ---------------------------------------------------------------- decoding

  datatype ElemDec = ElemFail | GotElem(e: Elem, rest: bytes)
  datatype ElemsDec = ElemsFail | GotElems(items: seq<Elem>, rest: bytes)
  datatype EntriesDec = EntriesFail | GotEntries(entries: seq<Entry>, rest: bytes)
  datatype DataDec = DataFail | GotData(s: bytes, rest: bytes)
  datatype KeyDec = KeyFail | GotKey(k: Key, rest: bytes)

  /** An unsigned number read into a signed 64-bit variable. */
  function Signed(u: u64): i64 {
    if u < TWO_63 then u else u - TWO_64
  }

  function DecByteData(s: bytes): (r: DataDec)
    ensures r.GotData? ==> |r.rest| < |s|
  {
    match DecU(s)
    case Short(_) => DataFail
    case Got(n, t) => if n <= |t| then GotData(t[..n], t[n..]) else DataFail
  }

  function DecKey(code: i64, s: bytes): (r: KeyDec)
    ensures r.GotKey? ==> |r.rest| < |s|
  {
    if code == PY_INT then
      match DecU(s) case Short(_) => KeyFail case Got(u, t) => GotKey(IntKey(Unzigzag(u)), t)
    else
      match DecByteData(s) case DataFail => KeyFail case GotData(d, t) => GotKey(StrKey(d), t)
  }

  /** `dct[k] = v`: replaces the value of a key that is there, else adds the entry at the end. */
  function Put(dct: seq<Entry>, k: Key, v: Elem): seq<Entry> {
    if dct == [] then [Entry(k, v)]
    else if dct[0].k == k then [Entry(k, v)] + dct[1..]
    else [dct[0]] + Put(dct[1..], k, v)
  }

  /** `decodeElement`, on input whose lengths stay within the data; arrays and dictionaries with a common
      element type are not covered. */
  function DecElem(s: bytes): (r: ElemDec)
    ensures r.GotElem? ==> |r.rest| < |s|
    decreases |s|, 1, 0
  {
    match DecU(s)
    case Short(_) => ElemFail
    case Got(u, t) =>
      var code := Unzigzag(u);
      if code == PY_STRING || code == PY_VECTOR then
        (match DecByteData(t)
         case DataFail => ElemFail
         case GotData(d, t') => GotElem(if code == PY_STRING then PStr(d) else PBytes(d), t'))
      else
        match DecU(t)
        case Short(_) => ElemFail
        case Got(w, t') =>
          if code == PY_INT then GotElem(PInt(Unzigzag(w)), t')
          else if code == PY_UINT then GotElem(PInt(Signed(w)), t')
          else if code == PY_BOOLEAN then GotElem(PBool(w != 0), t')
          else if code == PY_FLOAT then GotElem(PFloat(FloatOf(w)), t')
          else if code == PY_ARRAY && Unzigzag(w) == PY_ANY then DecList(t')
          else if code == PY_MAP && (Unzigzag(w) == PY_STRING || Unzigzag(w) == PY_INT) then DecDict(Unzigzag(w), t')
          else ElemFail
  }

  function DecList(s: bytes): (r: ElemDec)
    ensures r.GotElem? ==> |r.rest| < |s|
    decreases |s|, 0, 0
  {
    match DecU(s)
    case Short(_) => ElemFail
    case Got(n, t) =>
      match DecElems(if n < TWO_63 then n else 0, t)
      case ElemsFail => ElemFail
      case GotElems(items, rest) => GotElem(PList(items), rest)
  }

  function DecElems(n: nat, s: bytes): (r: ElemsDec)
    ensures r.GotElems? ==> |r.rest| <= |s|
    decreases |s|, 2, n
  {
    if n == 0 then GotElems([], s)
    else
      match DecElem(s)
      case ElemFail => ElemsFail
      case GotElem(e, t) =>
        match DecElems(n - 1, t)
        case ElemsFail => ElemsFail
        case GotElems(es, rest) => GotElems([e] + es, rest)
  }

  function DecDict(code: i64, s: bytes): (r: ElemDec)
    ensures r.GotElem? ==> |r.rest| < |s|
    decreases |s|, 0, 0
  {
    match DecU(s)
    case Short(_) => ElemFail
    case Got(w, t) =>
      match DecU(t)
      case Short(_) => ElemFail
      case Got(n, t') =>
        if Unzigzag(w) != PY_ANY then ElemFail
        else
          match DecEntries(code, if n < TWO_63 then n else 0, t', [])
          case EntriesFail => ElemFail
          case GotEntries(entries, rest) => GotElem(PDict(entries), rest)
  }

  function DecEntries(code: i64, n: nat, s: bytes, dct: seq<Entry>): (r: EntriesDec)
    ensures r.GotEntries? ==> |r.rest| <= |s|
    decreases |s|, 2, n
  {
    if n == 0 then GotEntries(dct, s)
    else
      match DecKey(code, s)
      case KeyFail => EntriesFail
      case GotKey(k, t) =>
        match DecElem(t)
        case ElemFail => EntriesFail
        case GotElem(v, t') => DecEntries(code, n - 1, t', Put(dct, k, v))
  }

  // ---------------------------------------------------------------- round trip

  lemma {:induction false} ByteDataRoundTrip(s: bytes, rest: bytes)
    requires |s| < TWO_63
    ensures DecByteData(EncBytes(s) + rest) == GotData(s, rest)
  {
    hide DecU, EncU;
    assert EncBytes(s) + rest == EncU(|s|) + (s + rest);
    UnsignedRoundTrip(|s|, s + rest);
    assert (s + rest)[..|s|] == s && (s + rest)[|s|..] == rest;
  }

  lemma {:induction false} CodeRoundTrip(code: i64, rest: bytes)
    ensures DecU(EncI(code) + rest).Got?
    ensures var d := DecU(EncI(code) + rest); Unzigzag(d.v) == code && d.rest == rest
  {
    hide DecU, EncU;
    UnsignedRoundTrip(Zigzag(code), rest);
    ZigzagBijection(code, 0);
  }

  lemma {:induction false} KeyRoundTrip(k: Key, rest: bytes)
    requires KeyOk(k)
    ensures DecKey(KeyCode(k), EncKey(k) + rest) == GotKey(k, rest)
  {
    hide DecU, EncU, EncI, Unzigzag, EncBytes, DecByteData;
    match k
    case StrKey(s) => ByteDataRoundTrip(s, rest);
    case IntKey(i) => CodeRoundTrip(i, rest);
  }

  /** A key that is new goes to the end. */
  lemma {:induction false} PutNew(dct: seq<Entry>, k: Key, v: Elem)
    requires forall i | 0 <= i < |dct| :: dct[i].k != k
    ensures Put(dct, k, v) == dct + [Entry(k, v)]
  {
    if dct != [] {
      PutNew(dct[1..], k, v);
      assert dct == [dct[0]] + dct[1..];
    }
  }

  /** A key that is there keeps its place and gets the new value. */
  lemma {:induction false} PutOld(dct: seq<Entry>, i: nat, v: Elem)
    requires i < |dct| && forall j | 0 <= j < i :: dct[j].k != dct[i].k
    ensures Put(dct, dct[i].k, v) == dct[..i] + [Entry(dct[i].k, v)] + dct[i + 1..]
  {
    if i > 0 {
      PutOld(dct[1..], i - 1, v);
      assert dct[..i] == [dct[0]] + dct[1..][..i - 1];
      assert dct[1..][i - 1 + 1..] == dct[i + 1..];
    }
  }

  /** Elements that this module does not write: an unsigned number is read as the signed one with the same bits. */
  lemma {:induction false} UnsignedElement(w: u64, rest: bytes)
    ensures DecElem([4] + (EncU(w) + rest)) == GotElem(PInt(if w < TWO_63 then w else w - TWO_64), rest)
  {
    hide EncU, DecU, Unzigzag;
    CodeRead(2, [4], EncU(w) + rest);
    UnsignedRoundTrip(w, rest);
  }

  /** Any number but zero is true. */
  lemma {:induction false} BooleanElement(w: u64, rest: bytes)
    ensures DecElem([2] + (EncU(w) + rest)) == GotElem(PBool(w != 0), rest)
  {
    hide EncU, DecU, Unzigzag;
    CodeRead(1, [2], EncU(w) + rest);
    UnsignedRoundTrip(w, rest);
  }

  /** A list with a negative count is empty. */
  lemma {:induction false} NegativeCount(w: u64, rest: bytes)
    requires w >= TWO_63
    ensures DecElem([20] + ([0] + (EncU(w) + rest))) == GotElem(PList([]), rest)
  {
    hide EncU, DecU, Unzigzag;
    CodeRead(10, [20], [0] + (EncU(w) + rest));
    CodeRead(0, [0], EncU(w) + rest);
    UnsignedRoundTrip(w, rest);
    assert DecElems(0, rest) == GotElems([], rest);
  }

  lemma {:induction false} CodeRead(code: i64, s: bytes, rest: bytes)
    requires 0 <= code < 64 && s == [2 * code]
    ensures DecU(s + rest).Got? && DecU(s + rest).rest == rest && Unzigzag(DecU(s + rest).v) == code
  {
    assert (s + rest)[1..] == rest;
  }

  lemma {:induction false} ScalarElement(e: Elem, rest: bytes)
    requires e.PInt? || e.PFloat? || e.PBool?
    ensures DecElem(EncElem(e) + rest) == GotElem(e, rest)
  {
    hide DecU, EncU, EncI, Unzigzag, FloatWord, FloatOf;
    match e
    case PInt(i) =>
      Regroup(EncI(PY_INT), EncI(i), rest);
      CodeRoundTrip(PY_INT, EncI(i) + rest);
      CodeRoundTrip(i, rest);
    case PFloat(f) =>
      Regroup(EncI(PY_FLOAT), EncU(FloatWord(f)), rest);
      CodeRoundTrip(PY_FLOAT, EncU(FloatWord(f)) + rest);
      UnsignedRoundTrip(FloatWord(f), rest);
      FloatRoundTrip(f);
    case PBool(b) =>
      var w := if b then 1 else 0;
      Regroup(EncI(PY_BOOLEAN), EncU(w), rest);
      CodeRoundTrip(PY_BOOLEAN, EncU(w) + rest);
      UnsignedRoundTrip(w, rest);
  }

  lemma {:induction false} DataElement(e: Elem, rest: bytes)
    requires Encodable(e) && (e.PStr? || e.PBytes?)
    ensures DecElem(EncElem(e) + rest) == GotElem(e, rest)
  {
    hide DecU, EncU, EncI, Unzigzag, EncBytes, DecByteData;
    var s, code := if e.PStr? then e.s else e.data, if e.PStr? then PY_STRING else PY_VECTOR;
    Regroup(EncI(code), EncBytes(s), rest);
    CodeRoundTrip(code, EncBytes(s) + rest);
    ByteDataRoundTrip(s, rest);
  }

  /** Every element reads back as itself, wherever it stands, and reading stops exactly at its end. */
  lemma {:induction false} ElementRoundTrip(e: Elem, rest: bytes)
    requires Encodable(e)
    ensures DecElem(EncElem(e) + rest) == GotElem(e, rest)
    decreases e, 0
  {
    hide DecU, EncU, EncI, Unzigzag, DecList, DecDict, EncElems, EncEntries, AllEncodable, EntriesEncodable;
    match e
    case PStr(_) => DataElement(e, rest);
    case PBytes(_) => DataElement(e, rest);
    case PList(items) =>
      var body := EncU(|items|) + EncElems(items);
      assert EncElem(e) + rest == EncI(PY_ARRAY) + (EncI(PY_ANY) + (body + rest));
      CodeRoundTrip(PY_ARRAY, EncI(PY_ANY) + (body + rest));
      CodeRoundTrip(PY_ANY, body + rest);
      ListRoundTrip(items, rest);
    case PDict(entries) =>
      var code := KeyCode(entries[0].k);
      var body := EncI(PY_ANY) + (EncU(|entries|) + EncEntries(entries, entries[0].k));
      assert EncElem(e) + rest == EncI(PY_MAP) + (EncI(code) + (body + rest));
      CodeRoundTrip(PY_MAP, EncI(code) + (body + rest));
      CodeRoundTrip(code, body + rest);
      DictRoundTrip(entries, rest);
    case _ => ScalarElement(e, rest);
  }

  lemma {:induction false} ListRoundTrip(items: seq<Elem>, rest: bytes)
    requires |items| < TWO_63 && AllEncodable(items)
    ensures DecList(EncU(|items|) + EncElems(items) + rest) == GotElem(PList(items), rest)
    decreases items, 2
  {
    hide DecU, EncU, EncElems, DecElems, AllEncodable;
    Regroup(EncU(|items|), EncElems(items), rest);
    UnsignedRoundTrip(|items|, EncElems(items) + rest);
    ElementsRoundTrip(items, rest);
  }

  lemma {:induction false} ElementsRoundTrip(items: seq<Elem>, rest: bytes)
    requires AllEncodable(items)
    ensures DecElems(|items|, EncElems(items) + rest) == GotElems(items, rest)
    decreases items, 1
  {
    hide DecU, EncElem, DecElem, Encodable;
    if items == [] {
      assert EncElems(items) + rest == rest;
    } else {
      var tail := EncElems(items[1..]) + rest;
      Regroup(EncElem(items[0]), EncElems(items[1..]), rest);
      ElementRoundTrip(items[0], tail);
      ElementsRoundTrip(items[1..], rest);
    }
  }

  lemma {:induction false} DictRoundTrip(entries: seq<Entry>, rest: bytes)
    requires 0 < |entries| < TWO_63 && EntriesEncodable(entries, entries[0].k)
    ensures var s := EncI(PY_ANY) + (EncU(|entries|) + EncEntries(entries, entries[0].k)) + rest;
            DecDict(KeyCode(entries[0].k), s) == GotElem(PDict(entries), rest)
    decreases entries, 2
  {
    hide DecU, EncU, EncI, EncEntries, DecEntries, EntriesEncodable, Unzigzag;
    var s := EncI(PY_ANY) + (EncU(|entries|) + EncEntries(entries, entries[0].k)) + rest;
    assert s == EncI(PY_ANY) + (EncU(|entries|) + (EncEntries(entries, entries[0].k) + rest));
    CodeRoundTrip(PY_ANY, EncU(|entries|) + (EncEntries(entries, entries[0].k) + rest));
    UnsignedRoundTrip(|entries|, EncEntries(entries, entries[0].k) + rest);
    EntriesRoundTrip(entries, entries[0].k, [], rest);
    assert [] + entries == entries;
  }

  lemma {:induction false} EntriesRoundTrip(entries: seq<Entry>, k: Key, dct: seq<Entry>, rest: bytes)
    requires EntriesEncodable(entries, k)
    requires forall i, j | 0 <= i < |dct| && 0 <= j < |entries| :: dct[i].k != entries[j].k
    ensures DecEntries(KeyCode(k), |entries|, EncEntries(entries, k) + rest, dct) == GotEntries(dct + entries, rest)
    decreases entries, 1
  {
    hide DecU, EncElem, DecElem, Encodable, EncKey, DecKey;
    if entries == [] {
      assert EncEntries(entries, k) + rest == rest && dct + entries == dct;
    } else {
      var Entry(key, v) := entries[0];
      assert v < entries[0];
      var tail := EncEntries(entries[1..], k) + rest;
      assert EncEntries(entries, k) + rest == EncKey(key) + (EncElem(v) + tail);
      KeyRoundTrip(key, EncElem(v) + tail);
      ElementRoundTrip(v, tail);
      PutNew(dct, key, v);
      assert (dct + [Entry(key, v)]) + entries[1..] == dct + entries;
      EntriesRoundTrip(entries[1..], k, dct + [Entry(key, v)], rest);
    }
  }
}
