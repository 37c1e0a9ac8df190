/**
 Doubles as 64-bit patterns. The source reads a double through a union, so the
 integer it encodes is the number spelled by the eight bytes of the pattern.
 */
module Float64 {
  import opened Words

  /** The three mask-and-shift steps that reverse the byte order of a pattern. */
  function Flip(ul: bv64): bv64 {
    var a := ((ul >> 8) & 0x00FF00FF00FF00FF) | ((ul & 0x00FF00FF00FF00FF) << 8);
    var b := ((a >> 16) & 0x0000FFFF0000FFFF) | ((a & 0x0000FFFF0000FFFF) << 16);
    (b >> 32) | (b << 32)
  }

  /** The eight bytes of a pattern, high byte first. */
  function Bytes8(x: bv64): (s: seq<bv8>)
    ensures |s| == 8
  {
    [ (x >> 56) as bv8, ((x >> 48) & 0xFF) as bv8, ((x >> 40) & 0xFF) as bv8, ((x >> 32) & 0xFF) as bv8,
      ((x >> 24) & 0xFF) as bv8, ((x >> 16) & 0xFF) as bv8, ((x >> 8) & 0xFF) as bv8, (x & 0xFF) as bv8 ]
  }

  function Join8(b: seq<bv8>): bv64
    requires |b| == 8
  {
    (b[0] as bv64 << 56) | (b[1] as bv64 << 48) | (b[2] as bv64 << 40) | (b[3] as bv64 << 32) |
    (b[4] as bv64 << 24) | (b[5] as bv64 << 16) | (b[6] as bv64 << 8) | b[7] as bv64
  }

  function Octets(b: seq<bv8>): (s: bytes)
    ensures |s| == |b|
  {
    seq(|b|, i requires 0 <= i < |b| => b[i] as int)
  }

  function Bits(s: bytes): (b: seq<bv8>)
    ensures |b| == |s|
  {
    seq(|s|, i requires 0 <= i < |s| => s[i] as bv8)
  }

  function Reverse<T>(s: seq<T>): (r: seq<T>)
    ensures |r| == |s|
  {
    seq(|s|, i requires 0 <= i < |s| => s[|s| - 1 - i])
  }

  /** The integer half of the union: the pattern read as an unsigned number. */
  function Load(x: bv64): u64 {
    Pow256Steps();
    FromBigEndian(Octets(Bytes8(x)))
  }

  /** The pattern half of the union. */
  function Store(u: u64): bv64 {
    Join8(Bits(BigEndian(8, u)))
  }

  /** What `gob_encode_double` hands to the unsigned encoder. */
  function FloatWord(x: bv64): u64 {
    Load(Flip(x))
  }

  /** What `gob_decode_double` makes of a decoded number. */
  function FloatOf(u: u64): bv64 {
    Flip(Store(u))
  }

  lemma {:induction false} BitsOfOctets(b: seq<bv8>)
    ensures Bits(Octets(b)) == b
  {
    forall i | 0 <= i < |b| ensures Bits(Octets(b))[i] == b[i] {
      BitsOfOctet(b[i]);
    }
  }

  lemma {:induction false} BitsOfOctet(x: bv8)
    ensures (x as int) as bv8 == x
  {
  }

  lemma {:induction false} JoinBytes(x: bv64)
    ensures Join8(Bytes8(x)) == x
  {
  }

  lemma {:induction false} FlipMovesBytes(x: bv64)
    ensures var p, q := Bytes8(Flip(x)), Bytes8(x);
            && p[0] == q[7] && p[1] == q[6] && p[2] == q[5] && p[3] == q[4]
            && p[4] == q[3] && p[5] == q[2] && p[6] == q[1] && p[7] == q[0]
  {
  }

  lemma {:induction false} MirrorImage<T>(p: seq<T>, q: seq<T>)
    requires |p| == |q| == 8
    requires p[0] == q[7] && p[1] == q[6] && p[2] == q[5] && p[3] == q[4]
    requires p[4] == q[3] && p[5] == q[2] && p[6] == q[1] && p[7] == q[0]
    ensures p == Reverse(q)
  {
    forall i | 0 <= i < 8 ensures p[i] == Reverse(q)[i] {
      assert i == 0 || i == 1 || i == 2 || i == 3 || i == 4 || i == 5 || i == 6 || i == 7;
    }
  }

  /** The mask-and-shift steps are full byte reversal. */
  lemma {:induction false} FlipReverses(x: bv64)
    ensures Bytes8(Flip(x)) == Reverse(Bytes8(x))
  {
    FlipMovesBytes(x);
    MirrorImage(Bytes8(Flip(x)), Bytes8(x));
  }

  lemma {:induction false} FlipTwice(x: bv64)
    ensures Flip(Flip(x)) == x
  {
  }

  /** Storing what was loaded gives the pattern back. */
  lemma {:induction false} StoreLoad(x: bv64)
    ensures Store(Load(x)) == x
  {
    FromBigEndianInverse(Octets(Bytes8(x)));
    BitsOfOctets(Bytes8(x));
    JoinBytes(x);
  }

  lemma {:induction false} OctetsOfBits(s: bytes)
    ensures Octets(Bits(s)) == s
  {
    forall i | 0 <= i < |s| ensures Octets(Bits(s))[i] == s[i] {
      OctetOfBits(s[i]);
    }
  }

  lemma {:induction false} NextOctet(b: bv8)
    requires b != 0xFF
    ensures (b + 1) as int == b as int + 1
  {
  }

  /** Counting up to a byte. */
  lemma {:induction false} CountedOctet(x: byte) returns (b: bv8)
    ensures b as int == x
    decreases x as int
  {
    b := 0;
    if x > 0 {
      b := CountedOctet(x - 1);
      LastOctet(b);
      NextOctet(b);
      b := b + 1;
    }
  }

  lemma {:induction false} LastOctet(b: bv8)
    ensures b == 0xFF ==> b as int == 255
  {
  }

  lemma {:induction false} OctetOfBits(x: byte)
    ensures (x as bv8) as int == x
  {
    var b := CountedOctet(x);
    BitsOfOctet(b);
  }

  lemma {:induction false} JoinedBytes(b: seq<bv8>)
    requires |b| == 8
    ensures Bytes8(Join8(b)) == b
  {
  }

  lemma {:induction false} LoadStore(u: u64)
    ensures Load(Store(u)) == u
  {
    Pow256Steps();
    BigEndianInverse(8, u);
    OctetsOfBits(BigEndian(8, u));
    JoinedBytes(Bits(BigEndian(8, u)));
  }

  /** Every 64-bit pattern, NaNs and infinities included, survives the trip to the wire and back. */
  lemma {:induction false} FloatRoundTrip(x: bv64)
    ensures FloatOf(FloatWord(x)) == x
  {
    StoreLoad(Flip(x));
    FlipTwice(x);
  }

  /** And every number is one that some pattern is sent as. */
  lemma {:induction false} WordRoundTrips(u: u64)
    ensures FloatWord(FloatOf(u)) == u
  {
    FlipTwice(Store(u));
    LoadStore(u);
  }

  /** The number sent for a double is spelled by the double's bytes in reverse order. */
  lemma {:induction false} FloatWordSpelling(x: bv64)
    ensures BigEndian(8, FloatWord(x)) == Octets(Reverse(Bytes8(x)))
  {
    FlipReverses(x);
    FromBigEndianInverse(Octets(Bytes8(Flip(x))));
  }

  const EXPONENT: bv64 := 0x7FF0_0000_0000_0000
  const MAGNITUDE: bv64 := 0x7FFF_FFFF_FFFF_FFFF

  predicate IsNaN(x: bv64) {
    x & MAGNITUDE > EXPONENT
  }

  /** C's `==` on doubles (IEEE 754): NaN equals nothing, and the two zeros equal each other. */
  predicate IeeeEqual(x: bv64, y: bv64) {
    !IsNaN(x) && !IsNaN(y) && (x == y || (x & MAGNITUDE == 0 && y & MAGNITUDE == 0))
  }

  const NEGATIVE_ZERO: bv64 := 0x8000_0000_0000_0000

  /** Which patterns are equal: those that are the same and not a NaN (exponent all ones, fraction not zero),
      and the two zeros. */
  lemma {:induction false} IeeeEqualMeans(x: bv64, y: bv64)
    ensures IsNaN(x) <==> (x >> 52) & 0x7FF == 0x7FF && x & 0xF_FFFF_FFFF_FFFF != 0
    ensures IeeeEqual(x, y) <==>
            !IsNaN(x) && !IsNaN(y) &&
            (x == y || (x == 0 && y == NEGATIVE_ZERO) || (x == NEGATIVE_ZERO && y == 0))
  {
    NaNMeans(x);
    ZeroMeans(x);
    ZeroMeans(y);
  }

  lemma {:induction false} NaNMeans(x: bv64)
    ensures IsNaN(x) <==> (x >> 52) & 0x7FF == 0x7FF && x & 0xF_FFFF_FFFF_FFFF != 0
  {
  }

  lemma {:induction false} ZeroMeans(x: bv64)
    ensures x & MAGNITUDE == 0 <==> x == 0 || x == NEGATIVE_ZERO
  {
  }
}
