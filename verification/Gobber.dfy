/**
 The number layer: what the unsigned, signed and floating-point encodings are
 and the two array routines that read and write them.
 */
module Gobber {
  import opened Words
  import opened Float64

  // ---------------------------------------------------------------- byte count

  /** The number of base-256 digits of `v`; zero has one digit. */
  function ByteCount(v: nat): (n: nat)
    ensures n >= 1
  {
    if v < 256 then 1 else 1 + ByteCount(v / 256)
  }

  lemma {:induction false} ByteCountBrackets(v: nat)
    ensures v < Pow256(ByteCount(v))
    ensures v > 0 ==> Pow256(ByteCount(v) - 1) <= v
  {
    if v >= 256 {
      ByteCountBrackets(v / 256);
    }
  }

  /** The bracket determines the count. */
  lemma {:induction false} ByteCountUnique(v: nat, n: nat)
    requires n >= 1 && Pow256(n - 1) <= v < Pow256(n)
    ensures n == ByteCount(v)
  {
    ByteCountBrackets(v);
    var m := ByteCount(v);
    if n < m {
      Pow256Monotone(n, m - 1);
    } else if m < n {
      Pow256Monotone(m, n - 1);
    }
  }

  lemma {:induction false} ByteCountMonotone(u: nat, v: nat)
    requires u <= v
    ensures ByteCount(u) <= ByteCount(v)
  {
    if u >= 256 {
      ByteCountMonotone(u / 256, v / 256);
    }
  }

  lemma {:induction false} ByteCountBound(v: u64)
    ensures ByteCount(v) <= 8
  {
    Pow256Steps();
    if ByteCount(v) > 8 {
      ByteCountBrackets(v);
      Pow256Monotone(8, ByteCount(v) - 1);
    }
  }

  /** The portable search: nested tests on the high halves. */
  function SearchByteCount(v: u64): nat {
    var high := v / TWO_32;
    if high == 0 then
      if v / 0x1_0000 == 0 then (if v / 0x100 == 0 then 1 else 2)
      else (if v / 0x100_0000 == 0 then 3 else 4)
    else
      if high / 0x1_0000 == 0 then (if high / 0x100 == 0 then 5 else 6)
      else (if high / 0x100_0000 == 0 then 7 else 8)
  }

  /** The index of the highest set bit, as the `bsr` instruction gives it for non-zero operands. */
  function BitScanReverse(v: nat): nat {
    if v < 2 then 0 else 1 + BitScanReverse(v / 2)
  }

  function Pow2(k: nat): nat {
    if k == 0 then 1 else 2 * Pow2(k - 1)
  }

  /** The highest set bit brackets the number between powers of two. */
  lemma {:induction false} BitScanBrackets(v: nat)
    requires v > 0
    ensures Pow2(BitScanReverse(v)) <= v < 2 * Pow2(BitScanReverse(v))
  {
    if v >= 2 {
      BitScanBrackets(v / 2);
    }
  }

  /** The x86 form of the byte count. */
  function BsrByteCount(v: u64): nat {
    BitScanReverse(v) / 8 + 1
  }

  lemma {:induction false} BitScanByte(v: nat)
    requires v >= 256
    ensures BitScanReverse(v) == 8 + BitScanReverse(v / 256)
  {
    assert v / 2 / 2 / 2 / 2 / 2 / 2 / 2 / 2 == v / 256;
    assert BitScanReverse(v) == 1 + BitScanReverse(v / 2);
    assert BitScanReverse(v / 2 / 2) == 1 + BitScanReverse(v / 2 / 2 / 2);
    assert BitScanReverse(v / 2 / 2 / 2 / 2) == 1 + BitScanReverse(v / 2 / 2 / 2 / 2 / 2);
    assert BitScanReverse(v / 2 / 2 / 2 / 2 / 2 / 2) == 1 + BitScanReverse(v / 2 / 2 / 2 / 2 / 2 / 2 / 2);
  }

  lemma {:induction false} SmallBitScan(v: nat)
    requires v < 256
    ensures BitScanReverse(v) < 8
  {
    assert BitScanReverse(v / 2 / 2 / 2 / 2 / 2 / 2 / 2) == 0;
    assert BitScanReverse(v / 2 / 2 / 2 / 2 / 2) <= 2;
    assert BitScanReverse(v / 2 / 2 / 2) <= 4;
    assert BitScanReverse(v / 2) <= 6;
  }

  lemma {:induction false} BsrIsByteCount(v: nat)
    ensures BitScanReverse(v) / 8 + 1 == ByteCount(v)
  {
    if v < 256 {
      SmallBitScan(v);
    } else {
      BitScanByte(v);
      BsrIsByteCount(v / 256);
    }
  }

  /** Both ways of counting agree on every word, and give the one n with 256^(n-1) <= v < 256^n. */
  lemma {:induction false} ByteCountsAgree(v: u64)
    ensures SearchByteCount(v) == BsrByteCount(v) == ByteCount(v)
    ensures v > 0 ==> forall n | n >= 1 && Pow256(n - 1) <= v < Pow256(n) :: n == SearchByteCount(v)
    ensures v > 0 ==> Pow256(SearchByteCount(v) - 1) <= v < Pow256(SearchByteCount(v))
  {
    hide BitScanReverse;
    Pow256Steps();
    BsrIsByteCount(v);
    ByteCountBrackets(v);
    if v > 0 {
      ByteCountUnique(v, SearchByteCount(v));
      forall n | n >= 1 && Pow256(n - 1) <= v < Pow256(n) ensures n == ByteCount(v) {
        ByteCountUnique(v, n);
      }
    }
  }

  // ---------------------------------------------------------------- unsigned numbers

  /** The wire form of an unsigned number. */
  function EncU(v: u64): (s: bytes)
    ensures 1 <= |s| <= 9
  {
    ByteCountBound(v);
    if v < 128 then [v] else [256 - ByteCount(v)] + BigEndian(ByteCount(v), v)
  }

  /** What a decoder sees at the start of `s`: too few bytes (of `need`), or a number and what follows it. */
  datatype UDec = Short(need: int) | Got(v: u64, rest: bytes)

  /** The unsigned decoder. A count byte above 8 skips that many bytes and yields zero. */
  function DecU(s: bytes): (r: UDec)
    ensures r.Got? ==> |r.rest| < |s| && r.rest == s[|s| - |r.rest|..]
    ensures r.Short? ==> r.need > |s|
  {
    if |s| < 1 then Short(1)
    else if s[0] < 128 then Got(s[0], s[1..])
    else
      var n := 256 - s[0];
      if n >= |s| then Short(n + 1)
      else if n <= 8 then DigitsFit(s[1..n + 1]); Got(FromBigEndian(s[1..n + 1]), s[n + 1..])
      else Got(0, s[n + 1..])
  }

  lemma {:induction false} DigitsFit(s: bytes)
    requires |s| <= 8
    ensures FromBigEndian(s) < TWO_64
  {
    Pow256Steps();
    Pow256Monotone(|s|, 8);
  }

  /** Decoding inverts encoding, whatever follows. */
  lemma {:induction false} UnsignedRoundTrip(v: u64, rest: bytes)
    ensures DecU(EncU(v) + rest) == Got(v, rest)
  {
    var s := EncU(v) + rest;
    if v >= 128 {
      var n := ByteCount(v);
      ByteCountBound(v);
      ByteCountBrackets(v);
      BigEndianInverse(n, v);
      assert s[1..n + 1] == BigEndian(n, v);
      assert s[n + 1..] == rest;
    } else {
      assert s[1..] == rest;
    }
  }

  /** A non-empty part of an encoding makes the decoder ask for exactly the whole of it. */
  lemma {:induction false} CutEncodingAsksForLength(v: u64, k: nat)
    requires 0 < k < |EncU(v)|
    ensures DecU(EncU(v)[..k]) == Short(|EncU(v)|)
  {
    ByteCountBound(v);
  }

  /** No encoding is a prefix of another. */
  lemma {:induction false} PrefixFree(u: u64, v: u64)
    requires EncU(u) <= EncU(v)
    ensures u == v
  {
    UnsignedRoundTrip(u, []);
    UnsignedRoundTrip(v, []);
    assert EncU(u) + [] == EncU(u) && EncU(v) + [] == EncU(v);
    if |EncU(u)| < |EncU(v)| {
      CutEncodingAsksForLength(v, |EncU(u)|);
    } else {
      assert EncU(u) == EncU(v);
    }
  }

  /** What was decoded does not depend on bytes beyond the ones consumed. */
  lemma {:induction false} UnsignedLocality(s: bytes, x: bytes)
    requires DecU(s).Got?
    ensures DecU(s + x) == Got(DecU(s).v, DecU(s).rest + x)
  {
    if s[0] < 128 {
      assert (s + x)[1..] == s[1..] + x;
    } else {
      var n := 256 - s[0];
      assert (s + x)[1..n + 1] == s[1..n + 1];
      assert (s + x)[n + 1..] == s[n + 1..] + x;
    }
  }

  /** The bytes a successful decode consumed. */
  function Consumed(s: bytes): bytes
    requires DecU(s).Got?
  {
    s[..|s| - |DecU(s).rest|]
  }

  /** Encoding what was decoded is never longer than what was read, and is as long
      only when the bytes read were already the encoding. */
  lemma {:induction false} ReencodingNeverLengthens(s: bytes)
    requires DecU(s).Got?
    ensures |EncU(DecU(s).v)| <= |Consumed(s)|
    ensures |EncU(DecU(s).v)| == |Consumed(s)| <==> EncU(DecU(s).v) == Consumed(s)
  {
    hide FromBigEndian, BigEndian, Pow256;
    var v := DecU(s).v;
    if s[0] >= 128 {
      var n := 256 - s[0];
      if n <= 8 && v >= 128 {
        var d := s[1..n + 1];
        ByteCountBrackets(v);
        if ByteCount(v) > n {
          Pow256Monotone(n, ByteCount(v) - 1);
        }
        FromBigEndianInverse(d);
        if ByteCount(v) == n {
          assert Consumed(s) == [s[0]] + d;
        }
      }
    }
  }

  /** Encoded length grows with the number. */
  lemma {:induction false} LengthMonotone(u: u64, v: u64)
    requires u <= v
    ensures |EncU(u)| <= |EncU(v)|
  {
    ByteCountMonotone(u, v);
  }

  /** The bytes of a number: below 128 a single byte; otherwise the number of its base-256 digits, negated,
      and the digits, high one first and not zero. */
  lemma {:induction false} EncodedBytes(v: u64)
    ensures v < 128 ==> EncU(v) == [v]
    ensures v >= 128 ==>
              var s := EncU(v);
              var n := |s| - 1;
              1 <= n <= 8 && Pow256(n - 1) <= v < Pow256(n) && s[0] == 256 - n &&
              forall i | 1 <= i <= n :: s[i] == v / Pow256(n - i) % 256
  {
    if v >= 128 {
      hide Pow256, BigEndian, ByteCount;
      var n := ByteCount(v);
      ByteCountBound(v);
      ByteCountBrackets(v);
      forall i | 1 <= i <= n ensures EncU(v)[i] == v / Pow256(n - i) % 256 {
        BigEndianDigit(n, v, i - 1);
      }
    }
  }

  /** The number that any bytes start with: a byte below 128 is the number. Otherwise the first byte negated
      counts the bytes after it, which are the digits of the number, high one first; but more than eight
      of them count for zero. */
  lemma {:induction false} DecodedNumber(s: bytes)
    ensures s == [] ==> DecU(s) == Short(1)
    ensures s != [] && s[0] < 128 ==> DecU(s) == Got(s[0], s[1..])
    ensures s != [] && s[0] >= 128 ==>
              var n := 256 - s[0];
              if |s| <= n then DecU(s) == Short(n + 1)
              else
                DecU(s).Got? && DecU(s).rest == s[n + 1..] &&
                if n > 8 then DecU(s).v == 0
                else DecU(s).v < Pow256(n) && forall i | 1 <= i <= n :: s[i] == DecU(s).v / Pow256(n - i) % 256
  {
    if s != [] && s[0] >= 128 && 256 - s[0] < |s| && 256 - s[0] <= 8 {
      var n := 256 - s[0];
      FromBigEndianInverse(s[1..n + 1]);
      forall i | 1 <= i <= n ensures s[i] == DecU(s).v / Pow256(n - i) % 256 {
        BigEndianDigit(n, DecU(s).v, i - 1);
        assert s[1..n + 1][i - 1] == s[i];
      }
    }
  }

  // ---------------------------------------------------------------- signed numbers

  /** `(~v << 1) | 1` for negative numbers, `v << 1` otherwise; the complement of v is -v-1. */
  function Zigzag(v: i64): u64 {
    var i: int := v;
    if i < 0 then (-i - 1) * 2 + 1 else i * 2
  }

  /** `~(u >> 1)` when the low bit is set, `u >> 1` otherwise. */
  function Unzigzag(u: u64): i64 {
    var i: int := u;
    if i % 2 == 1 then -(i / 2) - 1 else i / 2
  }

  /** The signed mapping is a bijection between the two 64-bit types: even numbers stand for the
      non-negative ones, odd numbers for the negative ones. */
  lemma {:induction false} ZigzagBijection(v: i64, u: u64)
    ensures Unzigzag(Zigzag(v)) == v
    ensures Zigzag(Unzigzag(u)) == u
    ensures Zigzag(v) == if v < 0 then -2 * (v as int) - 1 else 2 * (v as int)
  {
  }

  function EncI(v: i64): bytes {
    EncU(Zigzag(v))
  }

  /** Away from zero, on either side, encoded length never shrinks. */
  lemma {:induction false} SignedLengthMonotone(v: i64, w: i64)
    requires 0 <= v <= w || w <= v < 0
    ensures |EncI(v)| <= |EncI(w)|
  {
    LengthMonotone(Zigzag(v), Zigzag(w));
  }

  // ---------------------------------------------------------------- doubles

  lemma {:induction false} LeadingZeros(s: bytes, k: nat)
    requires k < |s| && s[k] != 0 && forall i | 0 <= i < k :: s[i] == 0
    ensures Pow256(|s| - k - 1) <= FromBigEndian(s) < Pow256(|s| - k)
  {
    var init := s[..|s| - 1];
    if k < |s| - 1 {
      LeadingZeros(init, k);
    } else {
      ZeroDigits(init);
    }
  }

  lemma {:induction false} ZeroDigits(s: bytes)
    requires forall i | 0 <= i < |s| :: s[i] == 0
    ensures FromBigEndian(s) == 0
  {
    if s != [] {
      ZeroDigits(s[..|s| - 1]);
    }
  }

  lemma {:induction false} MirroredDigits(b: seq<bv8>, k: nat, v: u64)
    requires |b| == 8 && k < 8 && b[7 - k] != 0
    requires forall i | 8 - k <= i < 8 :: b[i] == 0
    requires BigEndian(8, v) == Octets(Reverse(b))
    ensures ByteCount(v) == 8 - k
  {
    var s := Octets(Reverse(b));
    BitsOfOctet(b[7 - k]);
    assert s[k] == b[7 - k] as int != 0;
    forall i | 0 <= i < k ensures s[i] == 0 {
      assert b[7 - i] == 0;
    }
    LeadingZeros(s, k);
    Pow256Steps();
    BigEndianInverse(8, v);
    ByteCountUnique(v, 8 - k);
  }

  /** A double whose k lowest bytes are zero, and byte k not, takes 9-k bytes on the
      wire (unless its reversal fits the single-byte form). */
  lemma {:induction false} DoubleLength(x: bv64, k: nat)
    requires k < 8 && Bytes8(x)[7 - k] != 0
    requires forall i | 8 - k <= i < 8 :: Bytes8(x)[i] == 0
    requires FloatWord(x) >= 128
    ensures |EncU(FloatWord(x))| == 9 - k
  {
    FloatWordSpelling(x);
    MirroredDigits(Bytes8(x), k, FloatWord(x));
  }

  /** 17.0 takes three bytes, the example of the format's description. */
  lemma {:induction false} SeventeenTakesThreeBytes()
    ensures EncU(FloatWord(0x4031_0000_0000_0000)) == [0xFE, 0x31, 0x40]
  {
    assert Flip(0x4031_0000_0000_0000) == 0x3140;
    assert Bytes8(0x3140) == [0, 0, 0, 0, 0, 0, 0x31, 0x40];
    var digits := [0, 0, 0, 0, 0, 0, 0x31, 0x40];
    assert Octets(Bytes8(0x3140)) == digits;
    ZeroDigits(digits[..6]);
    assert digits[..7][..6] == digits[..6] && digits[..8][..7] == digits[..7];
    assert FromBigEndian(digits[..7]) == 0x31;
    assert FromBigEndian(digits) == 0x3140;
    assert BigEndian(1, 0x31) == [0x31];
    assert BigEndian(2, 0x3140) == [0x31, 0x40];
  }

  // ---------------------------------------------------------------- the array routines

  method CountBytes(v: u64) returns (nbytes: nat)
    ensures nbytes == ByteCount(v) <= 8
  {
    ByteCountsAgree(v);
    ByteCountBound(v);
    nbytes := BsrByteCount(v);
  }

  /** The fall-through switch of the encoder: the lowest byte goes to the highest place, then
      the number moves down one byte. */
  method StoreDigits(buf: array<byte>, at: nat, nbytes: nat, ull: nat)
    requires at + nbytes <= buf.Length
    modifies buf
    ensures buf[..] == old(buf[..at]) + BigEndian(nbytes, ull) + old(buf[at + nbytes..])
  {
    var v: nat, k: nat := ull, nbytes;
    while k > 0
      invariant k <= nbytes
      invariant forall j | 0 <= j < buf.Length && !(at + k <= j < at + nbytes) :: buf[j] == old(buf[j])
      invariant BigEndian(nbytes, ull) == BigEndian(k, v) + buf[at + k..at + nbytes]
    {
      ghost var done := buf[at + k..at + nbytes];
      buf[at + k - 1] := v % 256;
      assert buf[at + k - 1..at + nbytes] == [v % 256] + done;
      v, k := v / 256, k - 1;
    }
  }

  lemma {:induction false} Overwritten(s: bytes, at: nat, head: byte, tail: bytes)
    requires at + 1 + |tail| <= |s|
    ensures var t := s[at := head];
            t[..at + 1] + tail + t[at + 1 + |tail|..] == s[..at] + ([head] + tail) + s[at + 1 + |tail|..]
  {
  }

  lemma {:induction false} SliceOfSlice(s: bytes, i: nat, j: nat, k: nat, l: nat)
    requires i <= j <= |s| && k <= l <= j - i
    ensures s[i..j][k..l] == s[i + k..i + l]
  {
    var t := s[i..j];
    forall m | 0 <= m < l - k ensures t[k..l][m] == s[i + k..i + l][m] {
      assert t[k..l][m] == t[k + m];
    }
  }

  /** Encodes into the `size` free bytes of `buf` that start at `at`. Returns the number of
      bytes written; when they do not fit, minus the number needed, and nothing is written. */
  method EncodeU64(buf: array<byte>, at: nat, size: nat, ull: u64) returns (n: int)
    requires at + size <= buf.Length
    modifies buf
    ensures n == if |EncU(ull)| <= size then |EncU(ull)| else -|EncU(ull)|
    ensures n > 0 ==> buf[..] == old(buf[..at]) + EncU(ull) + old(buf[at + n..])
    ensures n < 0 ==> buf[..] == old(buf[..])
  {
    hide BigEndian, ByteCount, Pow256;
    if ull < 128 {
      if size < 1 {
        return -1;
      }
      buf[at] := ull;
      return 1;
    }
    var nbytes := CountBytes(ull);
    if nbytes >= size {
      return -(nbytes + 1);
    }
    buf[at] := 256 - nbytes;
    StoreDigits(buf, at + 1, nbytes, ull);
    Overwritten(old(buf[..]), at, 256 - nbytes, BigEndian(nbytes, ull));
    return nbytes + 1;
  }

  /** The fall-through switch of the decoder: each byte is shifted in from the right. */
  method LoadDigits(buf: array<byte>, at: nat, nbytes: nat) returns (ull: u64)
    requires nbytes <= 8 && at + nbytes <= buf.Length
    ensures ull == FromBigEndian(buf[at..at + nbytes])
  {
    var k: nat, ulval: nat := 0, 0;
    while k < nbytes
      invariant k <= nbytes
      invariant ulval == FromBigEndian(buf[at..at + k])
    {
      assert buf[at..at + k + 1][..k] == buf[at..at + k];
      ulval := ulval * 256 + buf[at + k];
      k := k + 1;
    }
    DigitsFit(buf[at..at + nbytes]);
    return ulval;
  }

  /** Decodes from the `size` bytes of `buf` that start at `at`. Returns the number of bytes
      read, or minus the number the encoding needs. */
  method DecodeU64(buf: array<byte>, at: nat, size: nat) returns (n: int, ull: u64)
    requires at + size <= buf.Length
    ensures var s := buf[at..at + size];
            match DecU(s)
            case Short(need) => n == -need && ull == 0
            case Got(v, rest) => 0 < n <= size && n == size - |rest| && ull == v && rest == buf[at + n..at + size]
  {
    hide FromBigEndian, Pow256;
    ghost var s := buf[at..at + size];
    ull := 0;
    if size < 1 {
      return -1, 0;
    }
    if buf[at] < 128 {
      return 1, buf[at];
    }
    var nbytes := 256 - buf[at];
    if nbytes >= size {
      return -(nbytes + 1), 0;
    }
    // the fall-through switch has no case above 8
    if nbytes <= 8 {
      SliceOfSlice(buf[..], at, at + size, 1, nbytes + 1);
      ull := LoadDigits(buf, at + 1, nbytes);
    }
    return nbytes + 1, ull;
  }
}
