/** What `hi64mul`, `mult_hi128` and `finish` compute, as arithmetic on
    unbounded integers. */
module Mixing {
  import opened MachineWords
  import opened MultiplyShift

  /** `hi64mul(x, y)` is the high word of the 128-bit product: the product
      is hi * 2^64 plus its low word `x.wrapping_mul(y)`. It never exceeds
      either factor. */
  lemma Hi64MulIsHighWord(x: u64, y: u64)
    ensures Hi64Mul(x, y) as int * TWO64 <= x as int * y as int < (Hi64Mul(x, y) as int + 1) * TWO64
    ensures x as int * y as int == Hi64Mul(x, y) as int * TWO64 + WrappingMul(x, y) as int
    ensures Hi64Mul(x, y) <= x && Hi64Mul(x, y) <= y
  {
    var p := x as int * y as int;
    ProductFits(x as int, y as int);
    WordSplit(p);
    MulMonotone(x as int, y as int, TWO64);
    MulMonotone(y as int, x as int, TWO64);
  }

  /** Adding a multiple of 2^64 or reducing a summand first does not change
      a sum modulo 2^64. */
  lemma AddMod(x: int, y: int, q: int)
    ensures (x % TWO64 + y) % TWO64 == (x + y) % TWO64
    ensures (q * TWO64 + x) % TWO64 == x % TWO64
  {
  }

  /** `mult_hi128` as one sum: (accum * h0 + result * h1 + hi64mul(result, h0)) mod 2^64. */
  lemma MultHi128Value(result: u64, accum: u64, h0: u64, h1: u64)
    ensures MultHi128(result, accum, h0, h1) as int
         == (accum as int * h0 as int + result as int * h1 as int + Hi64Mul(result, h0) as int) % TWO64
  {
    var p, q, hi := accum as int * h0 as int, result as int * h1 as int, Hi64Mul(result, h0) as int;
    AddMod(p, q % TWO64, 0);
    AddMod(q, p, 0);
    AddMod(p + q, hi, 0);
  }

  lemma SameResidue(x: int, y: int, z: int)
    requires (x + z) % TWO64 == (y + z) % TWO64
    ensures (x - y) % TWO64 == 0
  {
  }

  lemma SmallMultiple(d: int)
    requires -TWO64 < d < TWO64 && d % TWO64 == 0
    ensures d == 0
  {
  }

  /** (a * 2^64 + r) * (h1 * 2^64 + h0), grouped by powers of 2^64. */
  lemma Expand(a: int, r: int, h0: int, h1: int)
    ensures (a * TWO64 + r) * (h1 * TWO64 + h0) == ((a * h1) * TWO64 + a * h0 + r * h1) * TWO64 + r * h0
  {
  }

  /** The quotient is determined by any decomposition with a remainder in
      range. */
  lemma DivUnique(n: int, q: int, r: int)
    requires n == q * TWO64 + r && 0 <= r < TWO64
    ensures n / TWO64 == q
  {
  }

  /** The comment on `mult_hi128`: the new `result` is bits 64..127 of the
      128-bit accum:result times the 128-bit seed h1:h0. */
  lemma MultHi128MiddleWord(result: u64, accum: u64, h0: u64, h1: u64)
    ensures MultHi128(result, accum, h0, h1) as int
         == ((accum as int * TWO64 + result as int) * (h1 as int * TWO64 + h0 as int) / TWO64) % TWO64
  {
    var a, r := accum as int, result as int;
    var hi, lo := Hi64Mul(result, h0) as int, WrappingMul(result, h0) as int;
    var upper := (a * h1 as int) * TWO64 + a * h0 as int + r * h1 as int;
    Expand(a, r, h0 as int, h1 as int);
    Hi64MulIsHighWord(result, h0);
    assert (a * TWO64 + r) * (h1 as int * TWO64 + h0 as int) == (upper + hi) * TWO64 + lo;
    DivUnique((a * TWO64 + r) * (h1 as int * TWO64 + h0 as int), upper + hi, lo);
    AddMod(a * h0 as int + r * h1 as int + hi, 0, a * h1 as int);
    MultHi128Value(result, accum, h0, h1);
  }

  /** Only the result word reaches the high half of the product. */
  lemma MultHi128ResultPart(result: u64, h0: u64, h1: u64)
    ensures MultHi128(result, 0, h0, h1) as int == (result as int * (h1 as int * TWO64 + h0 as int) / TWO64) % TWO64
  {
    MultHi128MiddleWord(result, 0, h0, h1);
  }

  /** A zero word mixed into a zero result leaves it zero. */
  lemma MultHi128ZeroZero(h0: u64, h1: u64)
    ensures MultHi128(0, 0, h0, h1) == 0
  {
    MultHi128Value(0, 0, h0, h1);
    Hi64MulIsHighWord(0, h0);
  }

  /** Mixing a word into a zero result gives the low word of accum * h0. */
  lemma MultHi128FromZero(accum: u64, h0: u64, h1: u64)
    ensures MultHi128(0, accum, h0, h1) as int == (accum as int * h0 as int) % TWO64
  {
    MultHi128Value(0, accum, h0, h1);
    Hi64MulIsHighWord(0, h0);
  }

  /** With an odd h0, the mixed-in word can be read back from the new result:
      for a fixed result, different words give different new results. */
  lemma MultHi128InjectiveInAccum(result: u64, a: u64, b: u64, h0: u64, h1: u64)
    requires h0 % 2 == 1
    ensures MultHi128(result, a, h0, h1) == MultHi128(result, b, h0, h1) <==> a == b
  {
    if MultHi128(result, a, h0, h1) == MultHi128(result, b, h0, h1) {
      var z := result as int * h1 as int + Hi64Mul(result, h0) as int;
      var pa, pb := a as int * h0 as int, b as int * h0 as int;
      MultHi128Value(result, a, h0, h1);
      MultHi128Value(result, b, h0, h1);
      SameResidue(pa, pb, z);
      MulSub(h0 as int, a as int, b as int);
      assert (a as int - b as int) * h0 as int == pa - pb;
      Pow2Is64Bit();
      OddFactorCancels(a as int - b as int, h0 as int, 64);
      SmallMultiple(a as int - b as int);
    }
  }

  /** Two states with the same seeds and the same pending value before the
      count is mixed in finish to the same digest exactly when their counts
      are equal (h0 odd). */
  lemma FinishSeparatesCounts(s: State, t: State)
    requires |s.accum| == 8 && |t.accum| == 8
    requires s.h0 == t.h0 && s.h1 == t.h1 && s.h0 % 2 == 1
    requires Pending(s) == Pending(t)
    ensures Finish(s) == Finish(t) <==> s.count == t.count
  {
    MultHi128InjectiveInAccum(Pending(s), s.count, t.count, s.h0, s.h1);
  }
}
