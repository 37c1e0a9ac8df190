/**
 Machine words: bytes, 64-bit integers, and the big-endian digit strings that
 the wire format is made of.
 */
module Words {

  const TWO_31 := 0x8000_0000
  const TWO_32 := 0x1_0000_0000
  const TWO_63 := 0x8000_0000_0000_0000
  const TWO_64 := 0x1_0000_0000_0000_0000

  /** The largest C `int`; every return code and every buffer size stays below it. */
  const INT_MAX := TWO_31 - 1

  type byte = x: int | 0 <= x < 256
  type bytes = seq<byte>
  type u64 = x: int | 0 <= x < TWO_64
  type i64 = x: int | -TWO_63 <= x < TWO_63

  /** The conversion of an integer to a 32-bit `int`, as `(int)x` does it. */
  function ToInt32(x: int): (r: int)
    ensures -TWO_31 <= r < TWO_31
    ensures -TWO_31 <= x < TWO_31 ==> r == x
    ensures (x - r) % TWO_32 == 0
  {
    var low := x % TWO_32;
    if low < TWO_31 then low else low - TWO_32
  }

  function Pow256(n: nat): (p: nat)
    ensures p >= 1
  {
    if n == 0 then 1 else 256 * Pow256(n - 1)
  }

  /** The `n` low-order bytes of `v`, high byte first. */
  function BigEndian(n: nat, v: nat): (s: bytes)
    ensures |s| == n
  {
    if n == 0 then [] else BigEndian(n - 1, v / 256) + [v % 256]
  }

  /** The number a byte string spells, high byte first. */
  function FromBigEndian(s: bytes): (v: nat)
    ensures v < Pow256(|s|)
  {
    if s == [] then 0 else 256 * FromBigEndian(s[..|s| - 1]) + s[|s| - 1]
  }

  lemma {:induction false} BigEndianInverse(n: nat, v: nat)
    requires v < Pow256(n)
    ensures FromBigEndian(BigEndian(n, v)) == v
  {
    if n > 0 {
      BigEndianInverse(n - 1, v / 256);
      assert BigEndian(n, v)[..n - 1] == BigEndian(n - 1, v / 256);
    }
  }

  lemma {:induction false} DivideTwice(v: nat, p: nat)
    requires p > 0
    ensures v / 256 / p == v / (256 * p)
  {
    var a, m := v / 256, 256 * p;
    var q, r := a / p, a % p;
    assert a == p * q + r;
    assert v == m * q + (256 * r + v % 256);
    QuotientIs(v, m, q, 256 * r + v % 256);
  }

  lemma {:induction false} QuotientIs(v: nat, d: nat, q: nat, r: nat)
    requires d > 0 && v == d * q + r && r < d
    ensures v / d == q
  {
    var e := v / d - q;
    assert v == d * (v / d) + v % d;
    assert d * e == r - v % d;
    assert d * 1 == d;
    if e > 0 {
      Grows(d, 1, e);
    } else if e < 0 {
      Grows(d, e, -1);
    }
  }

  lemma {:induction false} Grows(d: nat, i: int, j: int)
    requires i <= j
    ensures d * i <= d * j
  {
  }

  /** Byte `i` of `n` is the digit of that place: the low one is last. */
  lemma {:induction false} BigEndianDigit(n: nat, v: nat, i: nat)
    requires i < n
    ensures BigEndian(n, v)[i] == v / Pow256(n - 1 - i) % 256
  {
    if i < n - 1 {
      BigEndianDigit(n - 1, v / 256, i);
      DivideTwice(v, Pow256(n - 2 - i));
    }
  }

  lemma {:induction false} FromBigEndianInverse(s: bytes)
    ensures BigEndian(|s|, FromBigEndian(s)) == s
  {
    hide Pow256;
    if s != [] {
      FromBigEndianInverse(s[..|s| - 1]);
      var high, low: int := FromBigEndian(s[..|s| - 1]), s[|s| - 1];
      assert (256 * high + low) / 256 == high && (256 * high + low) % 256 == low;
      assert s == s[..|s| - 1] + [s[|s| - 1]];
    }
  }

  lemma {:induction false} Pow256Steps()
    ensures Pow256(1) == 0x100 && Pow256(2) == 0x1_0000 && Pow256(3) == 0x100_0000
    ensures Pow256(4) == TWO_32 && Pow256(5) == 0x100_0000_0000
    ensures Pow256(6) == 0x1_0000_0000_0000 && Pow256(7) == 0x100_0000_0000_0000
    ensures Pow256(8) == TWO_64
  {
    assert Pow256(3) == 256 * Pow256(2);
    assert Pow256(5) == 256 * Pow256(4);
    assert Pow256(7) == 256 * Pow256(6);
  }

  lemma {:induction false} Pow256Monotone(m: nat, n: nat)
    requires m <= n
    ensures Pow256(m) <= Pow256(n)
  {
    if m < n {
      Pow256Monotone(m, n - 1);
    }
  }

  lemma {:induction false} Regroup(a: bytes, b: bytes, c: bytes)
    ensures (a + b) + c == a + (b + c)
  {
  }

  function Concat(parts: seq<bytes>): bytes {
    if parts == [] then [] else parts[0] + Concat(parts[1..])
  }
}
