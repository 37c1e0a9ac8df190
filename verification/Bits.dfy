/**
 The signed mapping on bit patterns, with the complement and the shifts of the
 source, and its agreement with the mapping on numbers.
 */
module Bits {
  import opened Words
  import opened Float64
  import opened Gobber

  const SIGN_BIT: bv64 := 0x8000_0000_0000_0000

  /** `(~v << 1) | 1` for negative numbers, `v << 1` otherwise. */
  function ZigzagBits(v: bv64): bv64 {
    if v & SIGN_BIT != 0 then (!v << 1) | 1 else v << 1
  }

  /** `~(u >> 1)` when the low bit is set, `u >> 1` otherwise. */
  function UnzigzagBits(u: bv64): bv64 {
    if u & 1 != 0 then !(u >> 1) else u >> 1
  }

  /** The number that a pattern stands for in two's complement. */
  function AsSigned(x: bv64): i64 {
    var u: int := Load(x);
    if u < TWO_63 then u else u - TWO_64
  }

  // ---------------------------------------------------------------- byte by byte

  lemma {:induction false} ComplementOctet(q: bv8)
    ensures !q as int == 255 - q as int
  {
  }

  /** A byte shifted left by one, with the top bit of the next byte coming in. */
  function ShiftIn(q: bv8, c: bv8): bv8 {
    (q << 1) | (c >> 7)
  }

  lemma {:induction false} TopBitOfOctet(c: bv8)
    ensures (c >> 7) as int == Top(c as int)
  {
  }

  lemma {:induction false} DisjointOctets(q: bv8, c: bv8)
    ensures ((q << 1) | (c >> 7)) as int == (q << 1) as int + (c >> 7) as int
  {
  }

  lemma {:induction false} ShiftOctet(q: bv8, c: bv8)
    ensures ShiftIn(q, c) as int == Doubled(q as int) + Top(c as int)
  {
    DisjointOctets(q, c);
    ShiftLastOctet(q);
    TopBitOfOctet(c);
  }

  lemma {:induction false} ShiftLastOctet(q: bv8)
    ensures (q << 1) as int == Doubled(q as int)
    ensures ((q << 1) | 1) as int == Doubled(q as int) + 1
  {
  }

  lemma {:induction false} TopOctet(q: bv8)
    ensures q & 0x80 != 0 <==> q as int >= 128
  {
  }

  /** The byte of a pattern whose lowest bit is bit `k`. */
  function ByteAt(x: bv64, k: bv7): bv8
    requires k <= 56
  {
    ((x >> k) & 0xFF) as bv8
  }

  /** Where byte `i` of a pattern starts, counting bytes from the high end. */
  function Start(i: nat): (k: bv7)
    requires i < 8
    ensures k <= 56
  {
    [56, 48, 40, 32, 24, 16, 8, 0][i]
  }

  lemma {:induction false} BytesListed(x: bv64)
    ensures Bytes8(x) == [ByteAt(x, 56), ByteAt(x, 48), ByteAt(x, 40), ByteAt(x, 32),
                          ByteAt(x, 24), ByteAt(x, 16), ByteAt(x, 8), ByteAt(x, 0)]
  {
  }

  lemma {:induction false} BytesAt(x: bv64, i: nat)
    requires i < 8
    ensures Bytes8(x)[i] == ByteAt(x, Start(i))
  {
    hide Bytes8, ByteAt;
    BytesListed(x);
    assert i == 0 || i == 1 || i == 2 || i == 3 || i == 4 || i == 5 || i == 6 || i == 7;
  }

  lemma {:induction false} ComplementMovesByte(x: bv64, k: bv7)
    requires k <= 56
    ensures ByteAt(!x, k) == !ByteAt(x, k)
  {
  }

  lemma {:induction false} ShiftMovesByte(x: bv64, k: bv7)
    requires 8 <= k <= 56
    ensures ByteAt(x << 1, k) == ShiftIn(ByteAt(x, k), ByteAt(x, k - 8))
  {
  }

  lemma {:induction false} ShiftMovesLastByte(x: bv64)
    ensures ByteAt(x << 1, 0) == ByteAt(x, 0) << 1
  {
  }

  // ---------------------------------------------------------------- the numbers the bytes spell

  lemma {:induction false} ComplementDigits(s: bytes, t: bytes)
    requires |s| == |t| && forall i | 0 <= i < |s| :: t[i] == 255 - s[i]
    ensures FromBigEndian(t) == Pow256(|s|) - 1 - FromBigEndian(s)
  {
    if s != [] {
      ComplementDigits(s[..|s| - 1], t[..|t| - 1]);
    }
  }

  lemma {:induction false} LastDigit(s: bytes)
    requires s != []
    ensures FromBigEndian(s) == 256 * FromBigEndian(s[..|s| - 1]) + s[|s| - 1]
    ensures Pow256(|s|) == 256 * Pow256(|s| - 1)
    ensures |s| == 1 ==> FromBigEndian(s) == s[0] && Pow256(|s|) == 256
  {
  }

  /** What doubling leaves of a byte, and the top bit that it loses. */
  function Doubled(b: byte): byte {
    2 * (b as int) % 256
  }

  function Top(b: byte): int {
    b / 128
  }

  lemma {:induction false} DoubledByte(b: byte)
    ensures 2 * (b as int) == Doubled(b) + 256 * Top(b)
    ensures Top(b) == if b >= 128 then 1 else 0
  {
  }

  /** Digits doubled, each taking in the top bit of the next: the number is doubled and loses its top bit. */
  lemma {:induction false} DoubledDigits(s: bytes, t: bytes, low: int)
    requires |s| == |t| > 0 && 0 <= low < 2
    requires forall i | 0 <= i < |s| - 1 :: t[i] == Doubled(s[i]) + Top(s[i + 1])
    requires t[|s| - 1] == Doubled(s[|s| - 1]) + low
    ensures FromBigEndian(t) == 2 * FromBigEndian(s) + low - if s[0] >= 128 then Pow256(|s|) else 0
  {
    hide FromBigEndian, Pow256, Doubled, Top;
    var n := |s| - 1;
    LastDigit(s);
    LastDigit(t);
    DoubledByte(s[n]);
    if n > 0 {
      DoubledDigits(s[..n], t[..n], Top(s[n]));
    }
  }

  lemma {:induction false} ComplementOctets(p: seq<bv8>, q: seq<bv8>)
    requires |p| == |q| == 8 && forall i | 0 <= i < 8 :: p[i] == !q[i]
    ensures FromBigEndian(Octets(p)) == TWO_64 - 1 - FromBigEndian(Octets(q))
  {
    hide FromBigEndian, Pow256;
    Pow256Steps();
    forall i | 0 <= i < 8 ensures Octets(p)[i] == 255 - Octets(q)[i] {
      ComplementOctet(q[i]);
    }
    ComplementDigits(Octets(q), Octets(p));
  }

  lemma {:induction false} LoadComplement(x: bv64)
    ensures Load(!x) == TWO_64 - 1 - Load(x)
  {
    hide FromBigEndian, Bytes8, ByteAt;
    forall i | 0 <= i < 8 ensures Bytes8(!x)[i] == !Bytes8(x)[i] {
      BytesAt(x, i);
      BytesAt(!x, i);
      ComplementMovesByte(x, Start(i));
    }
    ComplementOctets(Bytes8(!x), Bytes8(x));
  }

  lemma {:induction false} ShiftedOctets(p: seq<bv8>, q: seq<bv8>, low: int)
    requires |p| == |q| == 8
    requires forall i | 0 <= i < 7 :: p[i] == ShiftIn(q[i], q[i + 1])
    requires (low == 0 && p[7] == q[7] << 1) || (low == 1 && p[7] == (q[7] << 1) | 1)
    ensures FromBigEndian(Octets(p)) == 2 * FromBigEndian(Octets(q)) + low - if q[0] as int >= 128 then TWO_64 else 0
  {
    hide FromBigEndian, Pow256, Doubled, Top, ShiftIn;
    Pow256Steps();
    forall i | 0 <= i < 7 ensures Octets(p)[i] == Doubled(Octets(q)[i]) + Top(Octets(q)[i + 1]) {
      ShiftOctet(q[i], q[i + 1]);
    }
    ShiftLastOctet(q[7]);
    DoubledDigits(Octets(q), Octets(p), low);
  }

  lemma {:induction false} ShiftMovesByteAt(x: bv64, i: nat)
    requires i < 7
    ensures Bytes8(x << 1)[i] == ShiftIn(Bytes8(x)[i], Bytes8(x)[i + 1])
  {
    hide Bytes8, ByteAt, ShiftIn;
    BytesAt(x, i);
    BytesAt(x, i + 1);
    BytesAt(x << 1, i);
    NextStart(i);
    ShiftMovesByte(x, Start(i));
  }

  /** Bytes of a pattern from high to low. */
  lemma {:induction false} ShiftMovesBytes(x: bv64)
    ensures forall i | 0 <= i < 7 :: Bytes8(x << 1)[i] == ShiftIn(Bytes8(x)[i], Bytes8(x)[i + 1])
    ensures Bytes8(x << 1)[7] == Bytes8(x)[7] << 1
  {
    hide Bytes8, ByteAt, ShiftIn;
    forall i | 0 <= i < 7 ensures Bytes8(x << 1)[i] == ShiftIn(Bytes8(x)[i], Bytes8(x)[i + 1]) {
      ShiftMovesByteAt(x, i);
    }
    BytesAt(x, 7);
    BytesAt(x << 1, 7);
    ShiftMovesLastByte(x);
  }

  lemma {:induction false} NextStart(i: nat)
    requires i < 7
    ensures 8 <= Start(i) && Start(i + 1) == Start(i) - 8
  {
    assert i == 0 || i == 1 || i == 2 || i == 3 || i == 4 || i == 5 || i == 6;
  }

  lemma {:induction false} LowBitMovesBytes(x: bv64)
    ensures Bytes8((x << 1) | 1) == Bytes8(x << 1)[7 := Bytes8(x << 1)[7] | 1]
  {
  }

  lemma {:induction false} SignIsTopBit(x: bv64)
    ensures x & SIGN_BIT != 0 <==> Bytes8(x)[0] & 0x80 != 0
  {
  }

  /** Shifting left by one doubles, without the top bit, which is the sign. */
  lemma {:induction false} LoadShifted(x: bv64)
    ensures Load(x << 1) == 2 * (Load(x) as int) - if x & SIGN_BIT != 0 then TWO_64 else 0
    ensures Load((x << 1) | 1) == Load(x << 1) + 1
    ensures x & SIGN_BIT != 0 <==> Load(x) >= TWO_63
  {
    hide FromBigEndian, Bytes8, ShiftIn;
    var q := Bytes8(x);
    ShiftMovesBytes(x);
    LowBitMovesBytes(x);
    SignIsTopBit(x);
    TopOctet(q[0]);
    ShiftedOctets(Bytes8(x << 1), q, 0);
    ShiftedOctets(Bytes8((x << 1) | 1), q, 1);
  }

  // ---------------------------------------------------------------- agreement

  lemma {:induction false} ZigzagAgrees(v: bv64)
    ensures Load(ZigzagBits(v)) == Zigzag(AsSigned(v))
  {
    hide Load;
    LoadShifted(v);
    LoadShifted(!v);
    LoadComplement(v);
  }

  lemma {:induction false} OddInverse(u: bv64)
    requires u & 1 != 0
    ensures !(u >> 1) & SIGN_BIT != 0 && (!!(u >> 1) << 1) | 1 == u
  {
  }

  lemma {:induction false} EvenInverse(u: bv64)
    requires u & 1 == 0
    ensures (u >> 1) & SIGN_BIT == 0 && (u >> 1) << 1 == u
  {
  }

  lemma {:induction false} UnzigzagBitsInverse(u: bv64)
    ensures ZigzagBits(UnzigzagBits(u)) == u
  {
    if u & 1 != 0 {
      OddInverse(u);
    } else {
      EvenInverse(u);
    }
  }

  /** On all 64-bit patterns the complements and shifts of the source compute the signed mapping and its inverse. */
  lemma {:induction false} SignedMappingIsBitwise(x: bv64)
    ensures Load(ZigzagBits(x)) == Zigzag(AsSigned(x))
    ensures AsSigned(UnzigzagBits(x)) == Unzigzag(Load(x))
  {
    hide Load, ZigzagBits, UnzigzagBits, Zigzag, Unzigzag, AsSigned;
    ZigzagAgrees(x);
    ZigzagAgrees(UnzigzagBits(x));
    UnzigzagBitsInverse(x);
    ZigzagBijection(AsSigned(UnzigzagBits(x)), 0);
  }
}
