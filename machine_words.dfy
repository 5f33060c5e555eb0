/** Machine words as the hasher sees them: unsigned bytes and 64-bit words,
    Rust's wrapping arithmetic on `u64`, and the little-endian byte layout of a
    word on x86_64. */
module MachineWords {

  newtype u8 = x: int | 0 <= x < 0x100
  newtype u64 = x: int | 0 <= x < 0x1_0000_0000_0000_0000

  /** 2^64, the modulus of all `u64` arithmetic. */
  const TWO64: int := 0x1_0000_0000_0000_0000

  /** `a.wrapping_add(b)` */
  function WrappingAdd(a: u64, b: u64): u64 {
    ((a as int + b as int) % TWO64) as u64
  }

  /** `a.wrapping_mul(b)`: the low 64 bits of the product. */
  function WrappingMul(a: u64, b: u64): u64 {
    ((a as int * b as int) % TWO64) as u64
  }

  function Pow256(n: nat): (p: nat)
    ensures p > 0
  {
    if n == 0 then 1 else 256 * Pow256(n - 1)
  }

  function Pow2(k: nat): (p: nat)
    ensures p > 0
  {
    if k == 0 then 1 else 2 * Pow2(k - 1)
  }

  lemma Pow2Is64Bit()
    ensures Pow2(64) == TWO64
  {
    assert Pow2(8) == 0x100;
    assert Pow2(16) == 0x1_0000;
    assert Pow2(24) == 0x100_0000;
    assert Pow2(32) == 0x1_0000_0000;
    assert Pow2(40) == 0x100_0000_0000;
    assert Pow2(48) == 0x1_0000_0000_0000;
    assert Pow2(56) == 0x100_0000_0000_0000;
  }

  /** The number whose little-endian base-256 digits are `s`: byte k is worth 256^k. */
  function LeValue(s: seq<u8>): (v: nat)
    ensures v < Pow256(|s|)
  {
    if s == [] then 0 else s[0] as nat + 256 * LeValue(s[1..])
  }

  /** Reading 8 bytes as a `u64` on a little-endian machine. */
  function LeWord(s: seq<u8>): u64
    requires |s| == 8
  {
    assert Pow256(8) == TWO64;
    LeValue(s) as u64
  }

  /** The n low-order base-256 digits of v, least significant first. */
  function LeBytes(v: nat, n: nat): (s: seq<u8>)
    ensures |s| == n
  {
    if n == 0 then [] else [(v % 256) as u8] + LeBytes(v / 256, n - 1)
  }

  function Zeros(n: nat): (s: seq<u8>)
    ensures |s| == n && forall k :: 0 <= k < n ==> s[k] == 0
  {
    seq(n, _ => 0)
  }

  /** Decoding undoes encoding for every value that fits in n bytes. */
  lemma {:induction false} LeValueOfLeBytes(v: nat, n: nat)
    requires v < Pow256(n)
    ensures LeValue(LeBytes(v, n)) == v
  {
    if n > 0 {
      var s := LeBytes(v, n);
      assert s[1..] == LeBytes(v / 256, n - 1);
      LeValueOfLeBytes(v / 256, n - 1);
    }
  }

  /** Encoding undoes decoding: a byte string is determined by its value and length. */
  lemma {:induction false} LeBytesOfLeValue(s: seq<u8>)
    ensures LeBytes(LeValue(s), |s|) == s
  {
    if s != [] {
      var v := LeValue(s);
      assert v % 256 == s[0] as nat && v / 256 == LeValue(s[1..]);
      LeBytesOfLeValue(s[1..]);
    }
  }

  /** Concatenation: the bytes of b sit above the |a| bytes of a. */
  lemma {:induction false} LeValueAppend(a: seq<u8>, b: seq<u8>)
    ensures LeValue(a + b) == LeValue(a) + Pow256(|a|) * LeValue(b)
  {
    if a == [] {
      assert a + b == b;
    } else {
      assert (a + b)[1..] == a[1..] + b;
      LeValueAppend(a[1..], b);
      var y, p := LeValue(b), Pow256(|a| - 1);
      assert LeValue(a + b) == a[0] as nat + 256 * LeValue(a[1..]) + 256 * (p * y);
      MulAssoc(256, p, y);
    }
  }

  lemma {:induction false} LeValueZeros(n: nat)
    ensures LeValue(Zeros(n)) == 0
  {
    if n > 0 {
      assert Zeros(n)[1..] == Zeros(n - 1);
      LeValueZeros(n - 1);
    }
  }

  /** If 2^k divides d * h for an odd h, then 2^k divides d. */
  lemma {:induction false} OddFactorCancels(d: int, h: int, k: nat)
    requires h % 2 == 1
    requires (d * h) % Pow2(k) == 0
    ensures d % Pow2(k) == 0
    decreases k
  {
    if k > 0 {
      var m := Pow2(k - 1);
      var q := (d * h) / Pow2(k);
      assert d * h == 2 * (m * q);
      var e := d / 2;
      if d % 2 == 1 {
        OddTimesOdd(d, h);
        assert false;
      }
      assert d == 2 * e;
      assert e * h == m * q by {
        MulAssoc(2, e, h);
      }
      MulMod(m, q);
      OddFactorCancels(e, h, k - 1);
      var f := e / m;
      assert d == Pow2(k) * f by {
        assert e == m * f;
        MulAssoc(2, m, f);
      }
      MulMod(Pow2(k), f);
    }
  }

  lemma OddTimesOdd(d: int, h: int)
    requires d % 2 == 1 && h % 2 == 1
    ensures (d * h) % 2 == 1
  {
    var x, y := d / 2, h / 2;
    assert d * h == 2 * (2 * x * y + x + y) + 1;
  }

  lemma MulMod(m: int, q: int)
    requires m > 0
    ensures (m * q) % m == 0
  {
    var r, t := (m * q) % m, (m * q) / m;
    MulSub(m, q, t);
    assert m * (q - t) == r;
    if q - t > 0 {
      MulAtLeast(m, q - t);
    } else if q - t < 0 {
      MulAtLeast(m, t - q);
      MulSub(m, t, q);
    }
  }

  lemma MulAssoc(a: int, b: int, c: int)
    ensures a * (b * c) == (a * b) * c
  {
  }

  lemma MulSub(m: int, a: int, b: int)
    ensures m * (a - b) == m * a - m * b
  {
  }

  lemma MulAtLeast(m: int, n: int)
    requires m > 0 && n >= 1
    ensures m * n >= m
  {
  }

  lemma MulMonotone(a: int, b: int, c: int)
    requires 0 <= a && b <= c
    ensures a * b <= a * c && b * a <= c * a
  {
  }
}
