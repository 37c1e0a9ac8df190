/**
 The buffer object and the calls that write to and read from it.
 */
module Buffers {
  import opened Words
  import opened Float64
  import opened Gobber
  import opened Wire

  /** The C library's `memcpy`. */
  method Memcpy(dst: array<byte>, at: nat, src: bytes)
    requires at + |src| <= dst.Length
    modifies dst
    ensures dst[..] == old(dst[..at]) + src + old(dst[at + |src|..])
  {
    forall i | 0 <= i < |src| {
      dst[at + i] := src[i];
    }
  }

  /** `memcpy` of as much as fits, then `memset` of the space left over. */
  method CopyPadded(dst: array<byte>, src: bytes)
    modifies dst
    ensures dst[..] == Padded(src, dst.Length)
    ensures forall i | 0 <= i < dst.Length :: dst[i] == if i < |src| then src[i] else 0
  {
    if |src| < dst.Length {
      Memcpy(dst, 0, src);
      forall i | |src| <= i < dst.Length {
        dst[i] := 0;
      }
    } else {
      Memcpy(dst, 0, src[..dst.Length]);
    }
  }

  lemma {:induction false} BytesAre(v: bytes)
    requires |v| < TWO_63
    ensures EncBytes(v) == EncU(|v|) + v && |EncBytes(v)| == |EncU(|v|)| + |v|
  {
  }

  class Buffer {
    var buf: array<byte>
    var buflen: nat
    var count: nat
    var current: nat
    var owner: bool
    var user: object?
    var lastError: int
    /** When true, the allocator always grants what the model lets it grant; when false it may refuse anything. */
    const reliable: bool

    predicate Valid()
      reads this
    {
      buflen == buf.Length <= INT_MAX && current <= count <= buflen
    }

    /** What has been encoded. */
    function Written(): bytes
      requires Valid()
      reads this, buf
    {
      buf[..count]
    }

    /** What is left to decode. */
    function Unread(): bytes
      requires Valid()
      reads this, buf
    {
      buf[current..count]
    }

    function Free(): nat
      requires Valid()
      reads this
    {
      buflen - count
    }

    predicate Resizable()
      reads this
    {
      owner || buflen == 0
    }

    /** A buffer over zero or more bytes of its own. */
    constructor (len: nat, reliable: bool)
      requires len <= INT_MAX
      ensures Valid() && fresh(buf) && buflen == len && count == current == 0
      ensures this.reliable == reliable && (owner <==> len > 0) && user == null
    {
      buf := new byte[len];
      buflen, count, current := len, 0, 0;
      owner := len > 0;
      user := null;
      lastError := 0;
      this.reliable := reliable;
    }

    /** A buffer over the first `count` bytes of somebody else's data. */
    constructor Make(data: array<byte>, count: nat)
      requires count <= data.Length <= INT_MAX
      ensures Valid() && buf == data && this.count == count && current == 0 && !owner
    {
      buf, buflen, this.count, current, owner := data, data.Length, count, 0, false;
      user, lastError, reliable := null, 0, false;
    }

    /** What a successful write of `s` does: `s` is appended, nothing written before changes, the
        read pointer stays, and the storage is the old block or a new one that is no smaller. */
    twostate predicate Appends(s: bytes)
      requires old(Valid())
      reads this, buf
    {
      Valid() && Written() == old(Written()) + s && current == old(current) &&
      buflen >= old(buflen) && (buf == old(buf) || fresh(buf))
    }

    // ---------------------------------------------------------------- storage

    method Granted(size: nat) returns (ok: bool)
      ensures ok ==> size <= INT_MAX
      ensures reliable && size <= INT_MAX ==> ok
    {
      ok :| (ok ==> size <= INT_MAX) && (reliable && size <= INT_MAX ==> ok);
    }

    method Resize(increase: nat) returns (r: nat)
      requires Valid()
      modifies this`buf, this`buflen, this`owner, this`lastError
      ensures Appends([]) && Unread() == old(Unread())
      ensures r != 0 ==> old(Resizable()) && r == buflen == old(buflen) + increase
      ensures r == 0 ==> buflen == old(buflen)
      ensures r != 0 || !old(Resizable()) ==> lastError == old(lastError)
      ensures r == 0 && old(Resizable()) && old(buflen) + increase > 0 ==> lastError == GLME_E_NOMEM
      ensures old(Resizable()) ==> Resizable()
      ensures reliable && old(Resizable()) && old(buflen) + increase <= INT_MAX ==> r == old(buflen) + increase
    {
      if owner || buflen == 0 {
        var ok := Granted(buflen + increase);
        if ok {
          var b := new byte[buflen + increase];
          Memcpy(b, 0, buf[..]);
          buf, buflen, owner := b, buflen + increase, true;
          return buflen;
        }
        lastError := GLME_E_NOMEM;
      }
      return 0;
    }

    // ---------------------------------------------------------------- writing

    /** Writes one byte, growing the buffer when it is full. */
    method EncodeBaseType(id: TypeId) returns (n: int)
      requires Valid()
      modifies this, buf
      ensures n == 1 || n == -1
      ensures n == 1 ==> Appends([BaseType(id)])
      ensures n == -1 ==> Appends([])
      ensures old(Free()) >= 1 ==> n == 1 && buf == old(buf)
      ensures reliable && old(Resizable()) && 0 < old(buflen) <= INT_MAX - 1024 ==> n == 1
      // a full buffer grows to twice its size, or by 1024 bytes if that is less
      ensures n == 1 ==>
                buflen == old(buflen) + if old(Free()) >= 1 then 0 else if old(buflen) < 1024 then old(buflen) else 1024
      ensures user == old(user)
    {
      if buflen <= count {
        var r := Resize(if buflen < 1024 then buflen else 1024);
        if r == 0 {
          return -1;
        }
      }
      buf[count] := BaseType(id);
      count := count + 1;
      return 1;
    }

    /** Appends an unsigned number if it fits. If not, the buffer may grow, but nothing is written
        and the (negative) result of the attempt is added to `count`. */
    method EncodeValueUint64(v: u64) returns (n: int)
      requires Valid()
      modifies this, buf
      ensures |EncU(v)| <= old(Free()) ==> n == |EncU(v)| && Appends(EncU(v)) && buf == old(buf)
      ensures |EncU(v)| > old(Free()) ==> n < 0
      ensures n < -1 ==> count == (old(count) + n) % TWO_64
      ensures n < -1 ==> buflen == old(buflen) + if old(buflen) < 1024 then old(buflen) else 1024
      ensures n < -1 ==> n == -|EncU(v)|
      ensures user == old(user)
    {
      hide EncU;
      n := EncodeU64(buf, count, buflen - count, v);
      if n < 0 {
        var r := Resize(if buflen < 1024 then buflen else 1024);
        if r == 0 {
          return -1;
        }
      }
      count := (count + n) % TWO_64;
    }

    /** The three value encoders; the signed and floating-point ones first map the value to a word. */
    method EncodeValue(x: Scalar) returns (n: int)
      requires Valid()
      modifies this, buf
      ensures n >= 0 ==> Appends(EncValue(x)) && n == |EncValue(x)|
      ensures n >= 0 <==> |EncValue(x)| <= old(Free())
      ensures user == old(user)
    {
      n := EncodeValueUint64(x.Word());
    }

    /** A value preceded by its type byte. */
    method EncodeScalar(x: Scalar) returns (n: int)
      requires Valid()
      modifies this, buf
      ensures n >= 0 ==> Appends(EncScalar(x)) && n == |EncScalar(x)|
      ensures |EncScalar(x)| <= old(Free()) ==> n >= 0
      ensures user == old(user)
    {
      hide EncValue;
      n := EncodeBaseType(TypeCode(x.Type()));
      if n < 0 {
        return;
      }
      var nc := EncodeValue(x);
      return if nc < 0 then nc else nc + n;
    }

    method EncodeType(id: TypeId) returns (n: int)
      requires Valid()
      modifies this, buf
      ensures n >= 0 ==> Appends(EncType(id)) && n == |EncType(id)|
      ensures |EncType(id)| <= old(Free()) ==> n >= 0
      ensures user == old(user)
    {
      if id <= GLME_BASE_MAX {
        n := EncodeBaseType(id);
      } else {
        n := EncodeValueUint64(Zigzag(id));
      }
    }

    method Append(s: bytes)
      requires Valid() && |s| <= Free()
      modifies this`count, buf
      ensures Appends(s)
    {
      Memcpy(buf, count, s);
      count := count + |s|;
    }

    /** Appends a length and data, growing the buffer by exactly what is missing. */
    method EncodeBytes(v: bytes) returns (n: int)
      requires Valid() && |v| < TWO_63
      modifies this, buf
      ensures n == |EncBytes(v)| || n == -1
      ensures n > 0 ==> Appends(EncBytes(v)) && buflen == if old(Free()) >= n then old(buflen) else count
      ensures n == -1 ==> Appends([])
      ensures |EncBytes(v)| <= old(Free()) ==> n > 0 && buf == old(buf)
      ensures reliable && old(Resizable()) && old(count) + |EncBytes(v)| <= INT_MAX ==> n > 0
      ensures user == old(user)
    {
      hide EncU, EncBytes;
      var tmp := new byte[12];
      n := EncodeU64(tmp, 0, 12, |v|);
      BytesAre(v);
      if n + |v| > buflen - count {
        var r := Resize(n + |v| - (buflen - count));
        if r == 0 {
          return -1;
        }
      }
      Append(tmp[..n]);
      Append(v);
      return n + |v|;
    }

    method EncodeVector(v: bytes) returns (n: int)
      requires Valid() && |v| < TWO_63
      modifies this, buf
      ensures n >= 0 ==> Appends(EncVector(v)) && n == |EncVector(v)|
      ensures |EncVector(v)| <= old(Free()) ==> n >= 0
      ensures user == old(user)
    {
      n := EncodeBaseType(GLME_VECTOR);
      if n < 0 {
        return;
      }
      var nc := EncodeBytes(v);
      return if nc < 0 then nc else n + nc;
    }

    // ---------------------------------------------------------------- reading

    method Skip(k: nat)
      requires Valid() && k <= |Unread()|
      modifies this`current
      ensures Valid() && current == old(current) + k && Unread() == old(Unread())[k..]
    {
      current := current + k;
    }

    /** Reads an unsigned number without moving the read pointer. */
    method PeekUint64() returns (n: int, v: u64)
      requires Valid()
      modifies this`lastError
      ensures match DecU(Unread())
              case Short(need) => n == -need < 0 && v == 0
              case Got(u, rest) => n == |Unread()| - |rest| > 0 && v == u && rest == buf[current + n..count]
      ensures lastError == if n < 0 then GLME_E_UFLOW else old(lastError)
    {
      n, v := DecodeU64(buf, current, count - current);
      if n < 0 {
        lastError := GLME_E_UFLOW;
      }
    }

    method DecodeValueUint64() returns (n: int, v: u64)
      requires Valid()
      modifies this`current, this`lastError
      ensures Valid() && current >= old(current)
      ensures match DecU(old(Unread()))
              case Short(need) => n == -need && v == 0 && Unread() == old(Unread())
              case Got(u, rest) => n == old(|Unread()|) - |rest| > 0 && v == u && Unread() == rest
    {
      n, v := PeekUint64();
      if n >= 0 {
        current := current + n;
      }
    }

    /** The signed and floating-point value decoders negate the negative code of an underflow. */
    method DecodeValue(ty: Ty, x0: Scalar) returns (n: int, x: Scalar)
      requires Valid()
      modifies this`current, this`lastError
      ensures Valid() && current >= old(current)
      ensures match DecValue(ty, x0, old(Unread()))
              case SFail => n < 0
              case SDone(y, rest) => n > 0 && x == y && Unread() == rest
      ensures match DecU(old(Unread()))
              case Short(need) => n == (if ty == TUint then -need else need) && current == old(current)
              case Got(_, _) => n == current - old(current)
    {
      hide DecU, OfWord;
      var word: u64;
      n, word := PeekUint64();
      if n < 0 {
        return if ty == TUint then n else -n, x0;
      }
      x := OfWord(ty, word);
      current := current + n;
    }

    method DecodeBaseType(id: TypeId) returns (n: int)
      requires Valid()
      modifies this`current
      ensures Valid() && current >= old(current)
      ensures n == 1 || n == -1
      ensures n == 1 <==> old(|Unread()|) > 0 && old(Unread())[0] == BaseType(id)
      ensures n == 1 ==> Unread() == old(Unread())[1..]
    {
      if current >= count {
        return -1;
      }
      var b := buf[current];
      current := current + 1;
      return if b == BaseType(id) then 1 else -1;
    }

    method PeekBaseType(id: TypeId) returns (n: int)
      requires Valid()
      ensures n == 1 || n == -1
      ensures n == 1 <==> |Unread()| > 0 && Unread()[0] == BaseType(id)
    {
      if current >= count {
        return -1;
      }
      return if buf[current] == BaseType(id) then 1 else -1;
    }

    method DecodeScalar(ty: Ty, x0: Scalar) returns (n: int, x: Scalar)
      requires Valid()
      modifies this`current, this`lastError
      ensures Valid() && current >= old(current)
      ensures match DecScalar(ty, x0, old(Unread()))
              case SFail => n < 0
              case SDone(y, rest) => n > 0 && x == y && Unread() == rest
    {
      hide DecU, DecValue;
      n := DecodeBaseType(TypeCode(ty));
      if n < 0 {
        return -1, x0;
      }
      n, x := DecodeValue(ty, x0);
      return if n < 0 then n else n + 1, x;
    }

    /** On underflow the code is positive and the id is zero. */
    method DecodeType() returns (n: int, id: int)
      requires Valid()
      modifies this`current, this`lastError
      ensures Valid() && current >= old(current) && n > 0
      ensures match DecU(old(Unread()))
              case Short(need) => n == need && id == 0 && Unread() == old(Unread())
              case Got(u, rest) => n == current - old(current) && id == TypeOfWord(u) && Unread() == rest
    {
      var x;
      n, x := DecodeValue(TInt, I(0));
      id := ToInt32(x.i);
    }

    /** On underflow the code is positive and the id is whatever the uninitialised variable held. */
    method PeekType() returns (n: int, id: int)
      requires Valid()
      modifies this`lastError
      ensures n > 0
      ensures match DecU(Unread())
              case Short(_) => true
              case Got(u, rest) => id == TypeOfWord(u)
    {
      var word: u64;
      n, word := PeekUint64();
      if n < 0 {
        id := *;
        return -n, id;
      }
      id := ToInt32(Unzigzag(word));
    }

    /** The shared start of the two byte decoders: the length `dlen`, and whether that many bytes follow.
        If not, `n` is the code to return. */
    method PeekLength() returns (n: int, dlen: u64, fits: bool)
      requires Valid()
      modifies this`lastError
      ensures match DecU(Unread())
              case Short(need) => !fits && n == -need < 0
              case Got(d, rest) =>
                dlen == d && (fits <==> d <= |rest|) &&
                if fits then n == |Unread()| - |rest| > 0 && rest == buf[current + n..count]
                else n == ToInt32(-(d + (|Unread()| - |rest|)))
    {
      n, dlen := PeekUint64();
      fits := n >= 0 && dlen <= count - current - n;
      if n >= 0 && !fits {
        lastError := GLME_E_UFLOW;
        n := ToInt32(-(dlen + n));
      }
    }

    /** Copies as many of the next `len` bytes as fit, fills up with zeros, and steps over all of them. */
    method Fill(s: array<byte>, len: nat)
      requires Valid() && s != buf && len <= |Unread()|
      modifies this`current, s
      ensures Valid() && current == old(current) + len && Unread() == old(Unread())[len..]
      ensures forall i | 0 <= i < s.Length :: s[i] == if i < len then old(Unread())[i] else 0
    {
      CopyPadded(s, Unread()[..len]);
      Skip(len);
    }

    /** A length and data into a destination: nothing moves unless all of it is there. */
    method DecodeDataInto(s: array<byte>) returns (n: int, fits: bool)
      requires Valid() && s != buf
      modifies this`current, this`lastError, s
      ensures Valid() && current >= old(current)
      ensures match DecU(old(Unread()))
              case Short(need) => !fits && n == -need < 0 && Unread() == old(Unread()) && s[..] == old(s[..])
              case Got(dlen, rest) =>
                (fits <==> dlen <= |rest|) &&
                if fits then
                  n == current - old(current) > 0 && Unread() == rest[dlen..] &&
                  forall i | 0 <= i < s.Length :: s[i] == if i < dlen then rest[i] else 0
                else
                  n == ToInt32(-(dlen + (old(|Unread()|) - |rest|))) && Unread() == old(Unread()) && s[..] == old(s[..])
    {
      hide DecU, ToInt32;
      var dlen;
      n, dlen, fits := PeekLength();
      if fits {
        Skip(n);
        Fill(s, dlen);
        n := n + dlen;
      }
    }

    /** Decodes a byte array or string, preceded by its type byte, into the fixed-size destination `s`: copies
        what fits, and fills up with zeros. */
    method DecodeVector(s: array<byte>) returns (n: int)
      requires Valid() && s != buf
      modifies this`current, this`lastError, s
      ensures Valid() && current >= old(current)
      ensures var t := old(Unread());
              if t == [] || (t[0] != 10 && t[0] != 12) then n < 0 && s[..] == old(s[..])
              else
                match DecU(t[1..])
                case Short(need) => n == -need < 0 && Unread() == t[1..] && s[..] == old(s[..])
                case Got(dlen, rest) =>
                  if dlen <= |rest| then
                    n == |t| - |rest| + dlen && Unread() == rest[dlen..] &&
                    forall i | 0 <= i < s.Length :: s[i] == if i < dlen then rest[i] else 0
                  else
                    n == ToInt32(-(dlen + (|t| - 1 - |rest|))) && Unread() == t[1..] && s[..] == old(s[..])
    {
      hide DecU, ToInt32;
      ghost var t := Unread();
      var isVector := PeekBaseType(GLME_VECTOR);
      var isString := PeekBaseType(GLME_STRING);
      if isVector < 0 && isString < 0 {
        lastError := GLME_E_TYPE;
        return -1;
      }
      Skip(1);
      assert t[0] == 10 || t[0] == 12;
      assert Unread() == t[1..];
      hide BaseType, Valid;
      var fits;
      n, fits := DecodeDataInto(s);
      if fits {
        n := n + 1;
      }
    }

    /** Copies the next bytes into newly allocated memory and steps over them, copied or not. */
    method TakeBytes(len: nat) returns (data: array?<byte>)
      requires Valid() && len <= |Unread()|
      modifies this`current
      ensures Valid() && current == old(current) + len && Unread() == old(Unread())[len..]
      ensures data != null ==> fresh(data) && data[..] == old(Unread())[..len]
      ensures reliable ==> data != null
    {
      data := null;
      var ok := Granted(len);
      if ok {
        data := new byte[len];
        Memcpy(data, 0, Unread()[..len]);
      }
      Skip(len);
    }

    /** Decodes a length and data into newly allocated memory; `data` is null if there was none. */
    method DecodeBytes() returns (n: int, data: array?<byte>)
      requires Valid()
      modifies this`current, this`lastError
      ensures Valid() && current >= old(current)
      ensures data != null ==> fresh(data)
      ensures match DecU(old(Unread()))
              case Short(need) => n == -need && Unread() == old(Unread())
              case Got(dlen, rest) =>
                if dlen > |rest| then
                  n == ToInt32(-(dlen + (old(|Unread()|) - |rest|))) && Unread() == old(Unread())
                else
                  n == current - old(current) > 0 && Unread() == rest[dlen..] &&
                  (data != null ==> data[..] == rest[..dlen]) &&
                  (reliable ==> data != null)
    {
      hide DecU, ToInt32;
      data := null;
      var dlen, fits;
      n, dlen, fits := PeekLength();
      if fits {
        Skip(n);
        data := TakeBytes(dlen);
        n := n + dlen;
      }
    }

    /** Decodes a length and data into the destination `s`, which has a size: copies what fits, and fills up
        with zeros. */
    method DecodeBytesInto(s: array<byte>) returns (n: int)
      requires Valid() && s != buf && s.Length > 0
      modifies this`current, this`lastError, s
      ensures Valid() && current >= old(current)
      ensures match DecU(old(Unread()))
              case Short(need) => n == -need && Unread() == old(Unread()) && s[..] == old(s[..])
              case Got(dlen, rest) =>
                if dlen > |rest| then
                  n == ToInt32(-(dlen + (old(|Unread()|) - |rest|))) && Unread() == old(Unread()) && s[..] == old(s[..])
                else
                  n == current - old(current) > 0 && Unread() == rest[dlen..] &&
                  forall i | 0 <= i < s.Length :: s[i] == if i < dlen then rest[i] else 0
    {
      hide DecU, ToInt32;
      var fits;
      n, fits := DecodeDataInto(s);
    }
  }
}
