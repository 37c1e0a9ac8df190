/**
 The Python module's buffer object. Its scalar writers grow the buffer and try
 again; its byte-data writer does not grow and needs one byte to spare.
 */
module GBuffers {
  import opened Words
  import opened Float64
  import opened Gobber
  import opened Wire
  import opened Buffers
  import opened SelfDescribing

  /** `gob_encode_bytes`: a length and data, if there is more than enough room. Returns a negative
      number otherwise; the bytes before `at` are left alone either way. */
  method GobEncodeBytes(buf: array<byte>, at: nat, size: nat, s: bytes) returns (n: int)
    requires at + size <= buf.Length && |s| <= INT_MAX
    modifies buf
    ensures n == if |EncBytes(s)| < size then |EncBytes(s)| else -|EncBytes(s)|
    ensures buf[..at] == old(buf[..at])
    ensures n > 0 ==> buf[at..at + n] == EncBytes(s)
  {
    BytesRoundTrip(s, []);
    hide EncU, EncBytes;
    var nbytes := EncodeU64(buf, at, size, |s|);
    if nbytes < 0 {
      return nbytes - |s|;
    }
    assert buf[at..at + nbytes] == EncU(|s|);
    assert buf[..at] == old(buf[..at]);
    if |s| >= size - nbytes {
      return -(nbytes + |s|);
    }
    ghost var before := buf[..];
    Memcpy(buf, at + nbytes, s);
    Written(before, buf[..], at, EncU(|s|), s);
    return nbytes + |s|;
  }

  /** Two pieces written one behind the other. */
  lemma {:induction false} Written(before: bytes, after: bytes, at: nat, p: bytes, q: bytes)
    requires at + |p| + |q| <= |before| && before[at..at + |p|] == p
    requires after == before[..at + |p|] + q + before[at + |p| + |q|..]
    ensures after[..at] == before[..at] && after[at..at + (|p| + |q|)] == p + q
  {
    assert after[at..at + |p|] == before[at..at + |p|];
    assert after[at + |p|..at + (|p| + |q|)] == q;
  }

  /** Elements without byte data: their encoding can always grow the buffer. */
  predicate Plain(e: Elem)
    decreases e, 0
  {
    match e
    case PStr(_) => false
    case PBytes(_) => false
    case PList(items) => AllPlain(items)
    case PDict(entries) => EntriesPlain(entries)
    case _ => true
  }

  predicate AllPlain(items: seq<Elem>)
    decreases items, 1
  {
    items == [] || (Plain(items[0]) && AllPlain(items[1..]))
  }

  predicate EntriesPlain(entries: seq<Entry>)
    decreases entries, 1
  {
    entries != [] ==>
      var Entry(key, v) := entries[0];
      assert v < entries[0];
      key.IntKey? && Plain(v) && EntriesPlain(entries[1..])
  }

  class GBuffer {
    var buf: array<byte>
    var size: nat
    var count: nat
    var current: nat
    const owner: bool
    /** When true, reallocation always succeeds; when false it may raise MemoryError. */
    const reliable: bool

    predicate Valid()
      reads this
    {
      size == buf.Length && current <= count <= size
    }

    /** `data()`. */
    function Data(): bytes
      requires Valid()
      reads this, buf
    {
      buf[..count]
    }

    function Unread(): bytes
      requires Valid()
      reads this, buf
    {
      buf[current..count]
    }

    constructor (num: nat, reliable: bool)
      ensures Valid() && fresh(buf) && size == num && Data() == [] && current == 0
      ensures (owner <==> num > 0) && this.reliable == reliable
    {
      buf := new byte[num];
      size, count, current := num, 0, 0;
      owner := num > 0;
      this.reliable := reliable;
    }

    /** Whether a write of `s` is sure to work: the buffer has more than enough room, or the write has
        no byte data and the buffer can grow. */
    predicate CanTake(s: bytes, plain: bool)
      requires Valid()
      reads this
    {
      |s| < size - count || (plain && owner && reliable)
    }

    /** What no write ever does otherwise: earlier data stays, the read pointer stays, and the storage
        is the old block or a new one that is no smaller. */
    twostate predicate Keeps()
      requires old(Valid())
      reads this, buf
    {
      Valid() && old(Data()) <= Data() && current == old(current) &&
      size >= old(size) && (buf == old(buf) || fresh(buf))
    }

    twostate predicate Appends(s: bytes)
      requires old(Valid())
      reads this, buf
    {
      Keeps() && Data() == old(Data()) + s
    }

    // ---------------------------------------------------------------- writing

    method Resize(newsize: nat) returns (ok: bool)
      requires Valid() && newsize >= size
      modifies this`buf, this`size
      ensures Appends([]) && Unread() == old(Unread())
      ensures size == if ok then newsize else old(size)
      ensures owner && reliable ==> ok
    {
      if !owner {
        return false;
      }
      ok :| reliable ==> ok;
      if ok {
        var mem := new byte[newsize];
        forall i | 0 <= i < size {
          mem[i] := buf[i];
        }
        buf, size := mem, newsize;
      }
    }

    /** The three scalar writers: try, grow by 1024 bytes, try again. A MemoryError raised in between
        does not leave the writer, which returns zero. */
    method EncodeWord(w: u64) returns (n: int)
      requires Valid()
      modifies this, buf
      ensures (n == |EncU(w)| && Appends(EncU(w))) || (n == 0 && Appends([]))
      ensures old(CanTake(EncU(w), true)) ==> n > 0
      ensures owner && reliable ==> n > 0
      ensures size == old(size) || size == old(size) + 1024
      ensures |EncU(w)| <= old(size - count) ==> size == old(size)
    {
      n := EncodeU64(buf, count, size - count, w);
      if n < 0 {
        var ok := Resize(size + 1024);
        if !ok {
          return 0;
        }
        n := EncodeU64(buf, count, size - count, w);
      }
      if n > 0 {
        count := count + n;
      }
    }

    method EncodeByteData(s: bytes) returns (n: int)
      requires Valid() && ByteDataOk(s)
      modifies this, buf
      ensures (n == |EncBytes(s)| && Appends(EncBytes(s))) || (n < 0 && Appends([]))
      ensures n > 0 <==> |EncBytes(s)| < old(size - count)
    {
      ghost var before := buf[..count];
      n := GobEncodeBytes(buf, count, size - count, s);
      if n > 0 {
        count := count + n;
        assert buf[..count] == before + EncBytes(s);
      }
    }

    /** Any sequence of scalar writes: nothing fails, and the data is the plain concatenation of the
        encodings, whatever reallocations happened. */
    method EncodeWords(ws: seq<u64>)
      requires Valid() && owner && reliable
      modifies this, buf
      ensures Appends(EncWords(ws))
    {
      hide EncU;
      var i := 0;
      assert ws[0..] == ws;
      while i < |ws|
        invariant 0 <= i <= |ws|
        invariant Valid() && current == old(current) && size >= old(size) && (buf == old(buf) || fresh(buf))
        invariant Data() + EncWords(ws[i..]) == old(Data()) + EncWords(ws)
      {
        assert ws[i..][0] == ws[i] && ws[i..][1..] == ws[i + 1..];
        Regroup(Data(), EncU(ws[i]), EncWords(ws[i + 1..]));
        var n := EncodeWord(ws[i]);
        i := i + 1;
      }
      assert ws[i..] == [];
    }

    /** A type code and one word: the writers of int, float and bool elements. */
    method EncodeCodeAndWord(code: i64, w: u64) returns (n: int)
      requires Valid()
      modifies this, buf
      ensures Keeps()
      ensures old(CanTake(EncI(code) + EncU(w), true)) ==>
                Appends(EncI(code) + EncU(w)) && n == |EncI(code) + EncU(w)|
    {
      hide EncU;
      var at := count;
      n := EncodeWord(Zigzag(code));
      if n > 0 {
        n := EncodeWord(w);
      }
      if n > 0 {
        return count - at;
      }
      count := at;
    }

    /** A type code and byte data: the writers of string and bytes elements. */
    method EncodeCodeAndData(code: i64, s: bytes) returns (n: int)
      requires Valid() && ByteDataOk(s)
      modifies this, buf
      ensures Keeps()
      ensures old(CanTake(EncI(code) + EncBytes(s), false)) ==>
                Appends(EncI(code) + EncBytes(s)) && n == |EncI(code) + EncBytes(s)|
    {
      hide EncU, EncBytes;
      var at := count;
      n := EncodeWord(Zigzag(code));
      if n > 0 {
        n := EncodeByteData(s);
      }
      if n > 0 {
        return count - at;
      }
      count := at;
    }

    method EncodeElement(e: Elem) returns (n: int)
      requires Valid() && Encodable(e)
      modifies this, buf
      ensures Keeps() && n == count - old(count)
      ensures old(CanTake(EncElem(e), Plain(e))) ==> Appends(EncElem(e))
      ensures old(CanTake(EncElem(e), Plain(e))) ==>
                Data() == old(Data()) +
                          match e
                          case PInt(i) => [6] + EncU(if i < 0 then -2 * i - 1 else 2 * i)
                          case PFloat(f) => [8] + EncU(FloatWord(f))
                          case PBool(b) => if b then [2, 1] else [2, 0]
                          case PStr(s) => [12] + EncU(|s|) + s
                          case PBytes(s) => [10] + EncU(|s|) + s
                          case PList(items) => [20, 0] + EncU(|items|) + EncElems(items)
                          case PDict(entries) =>
                            [22, if entries[0].k.StrKey? then 12 else 6, 0] + EncU(|entries|)
                            + EncEntries(entries, entries[0].k)
      decreases e, 0
    {
      ElementBytes(e);
      hide EncU, EncBytes, FloatWord, EncElems, EncEntries, AllEncodable, EntriesEncodable, AllPlain, EntriesPlain;
      var at := count;
      match e {
        case PInt(i) => n := EncodeCodeAndWord(PY_INT, Zigzag(i));
        case PFloat(f) => n := EncodeCodeAndWord(PY_FLOAT, FloatWord(f));
        case PBool(b) => n := EncodeCodeAndWord(PY_BOOLEAN, if b then 1 else 0);
        case PStr(s) => n := EncodeCodeAndData(PY_STRING, s);
        case PBytes(s) => n := EncodeCodeAndData(PY_VECTOR, s);
        case PList(items) => n := EncodeList(items);
        case PDict(entries) => n := EncodeDict(entries);
      }
      return count - at;
    }

    /** The element type ANY and the number of elements. */
    method EncodeAnyAndCount(len: u64)
      requires Valid()
      modifies this, buf
      ensures Keeps()
      ensures old(CanTake(EncI(PY_ANY) + EncU(len), true)) ==> Appends(EncI(PY_ANY) + EncU(len))
    {
      hide EncU;
      var n := EncodeWord(Zigzag(PY_ANY));
      n := EncodeWord(len);
    }

    /** `encodeArray` of a list. */
    method EncodeList(items: seq<Elem>) returns (n: int)
      requires Valid() && |items| < TWO_63 && AllEncodable(items)
      modifies this, buf
      ensures Keeps() && n == count - old(count)
      ensures var s := EncI(PY_ARRAY) + (EncI(PY_ANY) + (EncU(|items|) + EncElems(items)));
              old(CanTake(s, AllPlain(items))) ==> Appends(s)
      decreases items, 2
    {
      hide EncU, EncElems, AllPlain, AllEncodable;
      var at := count;
      n := EncodeWord(Zigzag(PY_ARRAY));
      EncodeAnyAndCount(|items|);
      EncodeElements(items);
      return count - at;
    }

    method EncodeElements(items: seq<Elem>)
      requires Valid() && AllEncodable(items)
      modifies this, buf
      ensures Keeps()
      ensures old(CanTake(EncElems(items), AllPlain(items))) ==> Appends(EncElems(items))
      decreases items, 1
    {
      hide EncElem, Plain, Encodable;
      var i := 0;
      ghost var can := CanTake(EncElems(items), AllPlain(items));
      assert items[0..] == items;
      while i < |items|
        invariant 0 <= i <= |items|
        invariant AllEncodable(items[i..]) && Keeps()
        invariant can ==> CanTake(EncElems(items[i..]), AllPlain(items[i..]))
        invariant can ==> Data() + EncElems(items[i..]) == old(Data()) + EncElems(items)
      {
        assert items[i..][0] == items[i] && items[i..][1..] == items[i + 1..];
        Regroup(Data(), EncElem(items[i]), EncElems(items[i + 1..]));
        var n := EncodeElement(items[i]);
        i := i + 1;
      }
      assert items[i..] == [];
    }

    method EncodeKey(k: Key)
      requires Valid() && KeyOk(k)
      modifies this, buf
      ensures Keeps()
      ensures old(CanTake(EncKey(k), k.IntKey?)) ==> Appends(EncKey(k))
    {
      hide EncU, EncBytes;
      var n;
      match k
      case StrKey(s) => n := EncodeByteData(s);
      case IntKey(i) => n := EncodeWord(Zigzag(i));
    }

    method EncodeDict(entries: seq<Entry>) returns (n: int)
      requires Valid() && 0 < |entries| < TWO_63 && EntriesEncodable(entries, entries[0].k)
      modifies this, buf
      ensures Keeps() && n == count - old(count)
      ensures var k := entries[0].k;
              var s := EncI(PY_MAP) + (EncI(KeyCode(k)) + (EncI(PY_ANY) + (EncU(|entries|) + EncEntries(entries, k))));
              old(CanTake(s, EntriesPlain(entries))) ==> Appends(s)
      decreases entries, 3
    {
      hide EncU, EncEntries, EntriesPlain, EntriesEncodable;
      var at := count;
      n := EncodeWord(Zigzag(PY_MAP));
      n := EncodeDictData(entries);
      return count - at;
    }

    /** The type of the first key stands for all. */
    method EncodeDictData(entries: seq<Entry>) returns (n: int)
      requires Valid() && 0 < |entries| < TWO_63 && EntriesEncodable(entries, entries[0].k)
      modifies this, buf
      ensures Keeps() && n == count - old(count)
      ensures var k := entries[0].k;
              var s := EncI(KeyCode(k)) + (EncI(PY_ANY) + (EncU(|entries|) + EncEntries(entries, k)));
              old(CanTake(s, EntriesPlain(entries))) ==> Appends(s)
      decreases entries, 2
    {
      hide EncU, EncEntries, EntriesPlain, EntriesEncodable;
      var at := count;
      n := EncodeWord(Zigzag(KeyCode(entries[0].k)));
      EncodeAnyAndCount(|entries|);
      EncodeEntries(entries, entries[0].k);
      return count - at;
    }

    method EncodeEntry(key: Key, v: Elem)
      requires Valid() && KeyOk(key) && Encodable(v)
      modifies this, buf
      ensures Keeps()
      ensures old(CanTake(EncKey(key) + EncElem(v), key.IntKey? && Plain(v))) ==> Appends(EncKey(key) + EncElem(v))
      decreases v, 1
    {
      hide EncElem, EncKey, Plain, Encodable;
      Regroup(Data(), EncKey(key), EncElem(v));
      EncodeKey(key);
      var n := EncodeElement(v);
    }

    method EncodeEntries(entries: seq<Entry>, k: Key)
      requires Valid() && EntriesEncodable(entries, k)
      modifies this, buf
      ensures Keeps()
      ensures old(CanTake(EncEntries(entries, k), EntriesPlain(entries))) ==> Appends(EncEntries(entries, k))
      decreases entries, 1
    {
      hide EncElem, EncKey, Plain, Encodable;
      var i := 0;
      ghost var can := CanTake(EncEntries(entries, k), EntriesPlain(entries));
      assert entries[0..] == entries;
      while i < |entries|
        invariant 0 <= i <= |entries|
        invariant EntriesEncodable(entries[i..], k) && Keeps()
        invariant can ==> CanTake(EncEntries(entries[i..], k), EntriesPlain(entries[i..]))
        invariant can ==> Data() + EncEntries(entries[i..], k) == old(Data()) + EncEntries(entries, k)
      {
        assert entries[i..][0] == entries[i] && entries[i..][1..] == entries[i + 1..];
        var Entry(key, v) := entries[i];
        assert v < entries[i];
        Regroup(Data(), EncKey(key) + EncElem(v), EncEntries(entries[i + 1..], k));
        EncodeEntry(key, v);
        i := i + 1;
      }
      assert entries[i..] == [];
    }

    /** `encode(*args)`. */
    method Encode(args: seq<Elem>) returns (n: int)
      requires Valid() && AllEncodable(args)
      modifies this, buf
      ensures Keeps() && n == count - old(count)
      ensures old(CanTake(EncElems(args), AllPlain(args))) ==> Appends(EncElems(args))
    {
      var at := count;
      EncodeElements(args);
      return count - at;
    }

    // ---------------------------------------------------------------- reading
    // These methods ask for input that decodes; on other input the module raises an
    // exception or, for a byte count beyond the data, reads past it.

    method DecodeWord() returns (w: u64)
      requires Valid() && DecU(Unread()).Got?
      modifies this`current
      ensures Valid() && Got(w, Unread()) == DecU(old(Unread()))
    {
      hide DecU;
      var n;
      n, w := DecodeU64(buf, current, count - current);
      current := current + n;
    }

    method DecodeByteData() returns (data: bytes)
      requires Valid() && DecByteData(Unread()).GotData?
      modifies this`current
      ensures Valid() && GotData(data, Unread()) == DecByteData(old(Unread()))
    {
      hide DecU;
      var len := DecodeWord();
      ghost var t := Unread();
      data := buf[current..current + len];
      SliceOfSlice(buf[..], current, count, 0, len);
      current := current + len;
      assert Unread() == t[len..];
    }

    method DecodeElement() returns (e: Elem)
      requires Valid() && DecElem(Unread()).GotElem?
      modifies this`current
      ensures Valid() && GotElem(e, Unread()) == DecElem(old(Unread()))
      decreases |Unread()|, 1, 0
    {
      hide DecU, DecByteData, DecList, DecDict, Unzigzag, FloatOf;
      var code := DecodeWord();
      var etyp := Unzigzag(code);
      if etyp == PY_VECTOR {
        var data := DecodeByteData();
        return PBytes(data);
      } else if etyp == PY_STRING {
        var data := DecodeByteData();
        return PStr(data);
      }
      var w := DecodeWord();
      if etyp == PY_INT {
        return PInt(Unzigzag(w));
      } else if etyp == PY_UINT {
        return PInt(Signed(w));
      } else if etyp == PY_BOOLEAN {
        return PBool(w != 0);
      } else if etyp == PY_FLOAT {
        return PFloat(FloatOf(w));
      } else if etyp == PY_ARRAY {
        e := DecodeListData();
      } else {
        e := DecodeDictData(Unzigzag(w));
      }
    }

    /** `decodeArrayData` after the element type ANY. */
    method DecodeListData() returns (e: Elem)
      requires Valid() && DecList(Unread()).GotElem?
      modifies this`current
      ensures Valid() && GotElem(e, Unread()) == DecList(old(Unread()))
      decreases |Unread()|, 0, 0
    {
      hide DecU, DecElem;
      var word := DecodeWord();
      var n := if word < TWO_63 then word else 0;
      var lst := [];
      var i := 0;
      ghost var whole := DecElems(n, Unread());
      assert [] + whole.items == whole.items;
      while i < n
        invariant 0 <= i <= n && Valid()
        invariant |Unread()| < old(|Unread()|)
        invariant var d := DecElems(n - i, Unread()); d.GotElems? && whole == GotElems(lst + d.items, d.rest)
      {
        var x := DecodeElement();
        ghost var d := DecElems(n - i - 1, Unread());
        assert lst + ([x] + d.items) == (lst + [x]) + d.items;
        lst := lst + [x];
        i := i + 1;
      }
      assert DecElems(n - i, Unread()) == GotElems([], Unread()) && lst + [] == lst;
      return PList(lst);
    }

    method DecodeKey(ktyp: i64) returns (k: Key)
      requires Valid() && DecKey(ktyp, Unread()).GotKey?
      modifies this`current
      ensures Valid() && GotKey(k, Unread()) == DecKey(ktyp, old(Unread()))
    {
      hide DecU, DecByteData, Unzigzag;
      if ktyp == PY_INT {
        var w := DecodeWord();
        return IntKey(Unzigzag(w));
      } else {
        var data := DecodeByteData();
        return StrKey(data);
      }
    }

    /** `decodeDictData` after the key type: keys and elements are put into an empty dictionary. */
    method DecodeDictData(ktyp: i64) returns (e: Elem)
      requires Valid() && DecDict(ktyp, Unread()).GotElem?
      modifies this`current
      ensures Valid() && GotElem(e, Unread()) == DecDict(ktyp, old(Unread()))
      decreases |Unread()|, 0, 0
    {
      hide DecU, DecElem, DecKey, Put;
      var etyp := DecodeWord();
      var word := DecodeWord();
      var n := if word < TWO_63 then word else 0;
      var dct := [];
      var i := 0;
      ghost var whole := DecEntries(ktyp, n, Unread(), []);
      while i < n
        invariant 0 <= i <= n && Valid()
        invariant |Unread()| < old(|Unread()|)
        invariant whole.GotEntries? && whole == DecEntries(ktyp, n - i, Unread(), dct)
      {
        var k := DecodeKey(ktyp);
        var v := DecodeElement();
        dct := Put(dct, k, v);
        i := i + 1;
      }
      return PDict(dct);
    }

    /** Calling `decode` until it returns None: after a sequence of elements has been encoded into an
        empty buffer, exactly that sequence comes back. */
    method DecodeAll(ghost es: seq<Elem>) returns (out: seq<Elem>)
      requires Valid() && AllEncodable(es) && Unread() == EncElems(es)
      modifies this`current
      ensures Valid() && out == es && current == count
    {
      hide DecElem, EncElem, Encodable;
      out := [];
      ghost var i := 0;
      assert es[0..] == es;
      while current < count
        invariant 0 <= i <= |es| && Valid() && out == es[..i]
        invariant AllEncodable(es[i..]) && Unread() == EncElems(es[i..])
        decreases count - current
      {
        assert es[i..] != [];
        assert es[i..][0] == es[i] && es[i..][1..] == es[i + 1..];
        ElementRoundTrip(es[i], EncElems(es[i + 1..]));
        var e := DecodeElement();
        out := out + [e];
        i := i + 1;
      }
      assert Unread() == [];
      NoElements(es[i..]);
    }
  }

  lemma {:induction false} NoElements(es: seq<Elem>)
    requires AllEncodable(es)
    ensures EncElems(es) == [] ==> es == []
  {
  }

  /** A sequence encoded into a new buffer and decoded until nothing is left comes back. The buffer must
      have more than enough room, or there must be no byte data and some room to begin with. */
  method Echo(es: seq<Elem>, num: nat) returns (out: seq<Elem>)
    requires AllEncodable(es) && (|EncElems(es)| < num || (num > 0 && AllPlain(es)))
    ensures out == es
  {
    hide AllEncodable, AllPlain, EncElems;
    var b := new GBuffer(num, true);
    var n := b.Encode(es);
    assert b.Unread() == b.Data() == EncElems(es);
    out := b.DecodeAll(es);
  }

  function EncWords(ws: seq<u64>): bytes {
    if ws == [] then [] else EncU(ws[0]) + EncWords(ws[1..])
  }
}
