/** What the hasher's operations guarantee, stated over the pure model. */
module HornerProperties {
  import opened MachineWords
  import opened MultiplyShift
  import Mixing

  /** `load_u64_le` reads the 8 bytes as one word and loses nothing: the
      word's little-endian bytes are exactly buf[i..i+8], and every word is
      the load of its own bytes. */
  lemma {:induction false} LoadU64LeRoundTrip(buf: seq<u8>, i: nat, w: u64)
    requires i + 8 <= |buf|
    ensures LeBytes(LoadU64Le(buf, i) as nat, 8) == buf[i..i + 8]
    ensures LoadU64Le(LeBytes(w as nat, 8), 0) == w
  {
    LeBytesOfLeValue(buf[i..i + 8]);
    assert Pow256(8) == TWO64;
    var b := LeBytes(w as nat, 8);
    LeValueOfLeBytes(w as nat, 8);
    assert b[0..8] == b;
  }

  /** Storing one more byte right after the bytes already placed. */
  lemma {:induction false} PlaceSnoc(acc: seq<u8>, at: nat, buf: seq<u8>, lo: nat, hi: nat)
    requires |acc| == 8 && lo <= hi < |buf| && at + (hi - lo) < 8
    ensures Place(acc, at, buf, lo, hi + 1) == Place(acc, at, buf, lo, hi)[at + (hi - lo) := buf[hi]]
  {
    var l, r := Place(acc, at, buf, lo, hi + 1), Place(acc, at, buf, lo, hi)[at + (hi - lo) := buf[hi]];
    assert forall m :: 0 <= m < 8 ==> l[m] == r[m];
  }

  /** How `write` splits its input: k refill bytes, whole words, t tail bytes. */
  lemma {:induction false} WriteSplit(count: u64, n: nat)
    ensures RefillLen(count, n) + TailLen(count, n) <= n
    ensures (n - RefillLen(count, n) - TailLen(count, n)) % 8 == 0
    ensures TailLen(count, n) < 8
    ensures count as int % 8 == 0 ==> RefillLen(count, n) == 0
    ensures RefillLen(count, n) == 0 ==> count as int % 8 == 0 || n == 0
    ensures RefillLen(count, n) < n ==> (count as int + RefillLen(count, n)) % 8 == 0
    ensures RefillLen(count, n) + count as int % 8 <= 8
  {
  }

  /** The main loop of `write` stops at the first offset from which fewer
      than 8 bytes remain. */
  lemma {:induction false} MainLoopExit(start: nat, m: nat, n: nat)
    requires start + 8 * m <= n < start + 8 * m + 8
    ensures m == (n - start) / 8 && start + 8 * m == n - (n - start) % 8
  {
  }

  /** `write` keeps the accumulator bytes below offset 8 - count % 8 at zero. */
  lemma {:induction false} WrittenKeepsClean(s: State, bytes: seq<u8>)
    requires |s.accum| == 8
    requires s.count as int + |bytes| < TWO64
    ensures Clean(s) ==> Clean(Written(s, bytes))
  {
    if Clean(s) && bytes != [] {
      var n := |bytes|;
      var k, t := RefillLen(s.count, n), TailLen(s.count, n);
      WriteSplit(s.count, n);
      RefilledIsEmpty(s, bytes);
      var w := Written(s, bytes);
      assert w.accum == Place(Zeros(8), 8 - t, bytes, n - t, n);
      if k < n {
        CountAfterRefill(s.count as int, k, n, w.count as int);
      }
      ParkedIsClean(w, bytes, t);
    }
  }

  /** From a clean state the refill leaves an empty accumulator: either it
      flushed, or the count was aligned and the accumulator already zero. */
  lemma {:induction false} RefilledIsEmpty(s: State, bytes: seq<u8>)
    requires Clean(s) && bytes != [] && s.count as int + |bytes| < TWO64
    ensures Refilled(s, bytes).accum == Zeros(8)
  {
    WriteSplit(s.count, |bytes|);
    if RefillLen(s.count, |bytes|) == 0 {
      assert s.accum == Zeros(8);
    }
  }

  /** A tail of t bytes parked at the top of a zero word is clean when the
      count leaves t bytes pending, or when there is no tail at all. */
  lemma {:induction false} ParkedIsClean(w: State, bytes: seq<u8>, t: nat)
    requires t <= 8 && t <= |bytes|
    requires w.accum == Place(Zeros(8), 8 - t, bytes, |bytes| - t, |bytes|)
    requires t == 0 || w.count as int % 8 == t
    ensures Clean(w)
  {
  }

  lemma {:induction false} CountAfterRefill(c: int, k: int, n: int, total: int)
    requires (c + k) % 8 == 0 && k <= n && total == c + n
    ensures total % 8 == (n - k) % 8
  {
  }

  /** From a word-aligned state, the refill takes nothing: `write` folds the
      |bytes| / 8 whole words and parks the rest. */
  lemma {:induction false} WrittenWhenAligned(s: State, bytes: seq<u8>)
    requires |s.accum| == 8 && s.count as int % 8 == 0
    requires s.count as int + |bytes| < TWO64
    ensures Written(s, bytes)
         == s.(result := FoldRange(s.result, bytes, 0, |bytes| / 8, s.h0, s.h1),
               accum := Place(s.accum, 8 - |bytes| % 8, bytes, |bytes| - |bytes| % 8, |bytes|),
               count := (s.count as int + |bytes|) as u64)
  {
    assert RefillLen(s.count, |bytes|) == 0 && TailLen(s.count, |bytes|) == |bytes| % 8;
  }

  /** Writing an empty slice leaves every field as it was. */
  lemma {:induction false} EmptyWriteChangesNothing(s: State)
    requires |s.accum| == 8
    ensures Written(s, []) == s
  {
    var w := Written(s, []);
    assert w.accum == s.accum;
  }

  /** The word-range fold of the main loop is the fold of `Words`, the input
      cut into little-endian words in order. */
  lemma {:induction false} FoldRangeIsFold(r: u64, buf: seq<u8>, m: nat, h0: u64, h1: u64)
    requires 8 * m <= |buf|
    ensures FoldRange(r, buf, 0, m, h0, h1) == Fold(r, Words(buf)[..m], h0, h1)
  {
    if m == 0 {
      assert Words(buf)[..m] == [];
    } else {
      FoldRangeIsFold(r, buf, m - 1, h0, h1);
      var ws := Words(buf)[..m];
      assert ws[..m - 1] == Words(buf)[..m - 1];
    }
  }

  /** From a word-aligned state with an empty accumulator, `write` folds the
      |bytes| / 8 whole words of the input into `result` in input order and
      leaves the last |bytes| % 8 bytes at the top of the accumulator, with
      zeros below them. */
  lemma {:induction false} WrittenFromAligned(s: State, bytes: seq<u8>)
    requires s.count as int % 8 == 0 && s.accum == Zeros(8)
    requires s.count as int + |bytes| < TWO64
    ensures |Words(bytes)| == |bytes| / 8
    ensures Written(s, bytes).result == Fold(s.result, Words(bytes), s.h0, s.h1)
    ensures forall m :: 0 <= m < 8 - |bytes| % 8 ==> Written(s, bytes).accum[m] == 0
    ensures forall m :: 8 - |bytes| % 8 <= m < 8 ==> Written(s, bytes).accum[m] == bytes[|bytes| - 8 + m]
  {
    var n := |bytes|;
    assert RefillLen(s.count, n) == 0 && TailLen(s.count, n) == n % 8;
    FoldRangeIsFold(s.result, bytes, n / 8, s.h0, s.h1);
    assert Words(bytes)[..n / 8] == Words(bytes);
  }

  /** A refill that takes bytes but does not complete the word still mixes
      the accumulator into `result` and clears it, so `finish` later mixes
      an all-zero pending word as well. */
  lemma {:induction false} PartialRefillFlushes(s: State, bytes: seq<u8>)
    requires |s.accum| == 8 && s.count as int + |bytes| < TWO64
    requires s.count % 8 != 0 && 0 < |bytes| < 8 - s.count as int % 8
    ensures Written(s, bytes)
         == s.(result := MultHi128(s.result, LeWord(Place(s.accum, s.count as int % 8, bytes, 0, |bytes|)), s.h0, s.h1),
               accum := Zeros(8), count := (s.count as int + |bytes|) as u64)
  {
    var n := |bytes|;
    var w := Written(s, bytes);
    assert RefillLen(s.count, n) == n && TailLen(s.count, n) == 0;
    assert w.accum == Place(Zeros(8), 8, bytes, n, n);
    assert w.accum == Zeros(8);
  }

  /** After such a partial refill `finish` mixes an all-zero pending word
      before the count. */
  lemma {:induction false} PartialRefillLeavesZeroWord(s: State, bytes: seq<u8>)
    requires |s.accum| == 8 && s.count as int + |bytes| < TWO64
    requires s.count % 8 != 0 && 0 < |bytes| < 8 - s.count as int % 8
    ensures Pending(Written(s, bytes)) == MultHi128(Written(s, bytes).result, 0, s.h0, s.h1)
  {
    var w := Written(s, bytes);
    PartialRefillFlushes(s, bytes);
    StaysPartial(s.count as int, |bytes|, w.count as int);
    assert w.accum == Zeros(8) && w.count % 8 != 0;
    LeValueZeros(8);
  }

  lemma {:induction false} StaysPartial(c: int, n: int, total: int)
    requires 0 <= n && 0 < c % 8 && c % 8 + n < 8 && total == c + n
    ensures total % 8 != 0
  {
  }

  /** Folding all-zero words into a zero result keeps it zero. */
  lemma {:induction false} FoldRangeZeros(buf: seq<u8>, lo: nat, m: nat, h0: u64, h1: u64)
    requires lo + 8 * m <= |buf|
    requires forall j :: lo <= j < lo + 8 * m ==> buf[j] == 0
    ensures FoldRange(0, buf, lo, m, h0, h1) == 0
  {
    if m > 0 {
      FoldRangeZeros(buf, lo, m - 1, h0, h1);
      var i := lo + 8 * (m - 1);
      assert buf[i..i + 8] == Zeros(8);
      LeValueZeros(8);
      Mixing.MultHi128ZeroZero(h0, h1);
    }
  }

  /** n zero bytes written to a fresh hasher leave `result` at 0 and the
      accumulator all zero. */
  lemma {:induction false} ZeroInputKeepsZero(h0: u64, h1: u64, n: nat)
    requires n < TWO64
    ensures Written(Fresh(h0, h1), Zeros(n)).result == 0
    ensures Written(Fresh(h0, h1), Zeros(n)).accum == Zeros(8)
  {
    var s, bytes := Fresh(h0, h1), Zeros(n);
    var w := Written(s, bytes);
    assert RefillLen(s.count, n) == 0 && Refilled(s, bytes).result == 0;
    FoldRangeZeros(bytes, 0, n / 8, h0, h1);
    assert w.accum == Place(Zeros(8), 8 - n % 8, bytes, n - n % 8, n);
  }

  /** So the digest of n zero bytes is n * h0 mod 2^64: only the length
      tells such inputs apart. */
  lemma {:induction false} ZeroInputDigest(h0: u64, h1: u64, n: nat)
    requires n < TWO64
    ensures Finish(Written(Fresh(h0, h1), Zeros(n))) as int == (n * h0 as int) % TWO64
  {
    var w := Written(Fresh(h0, h1), Zeros(n));
    ZeroInputKeepsZero(h0, h1, n);
    LeValueZeros(8);
    Mixing.MultHi128ZeroZero(h0, h1);
    assert Pending(w) == 0;
    Mixing.MultHi128FromZero(w.count, h0, h1);
  }

  /** The empty key: nothing is pending and the count is 0, so the digest
      is 0 whatever the seeds. */
  lemma {:induction false} EmptyInputDigest(h0: u64, h1: u64)
    ensures Finish(Fresh(h0, h1)) == 0
    ensures Finish(Written(Fresh(h0, h1), [])) == 0
  {
    EmptyWriteChangesNothing(Fresh(h0, h1));
    Mixing.MultHi128ZeroZero(h0, h1);
  }

  /** With an odd h0, zero inputs of different lengths get different digests. */
  lemma {:induction false} ZeroInputsSeparatedByLength(h0: u64, h1: u64, n: nat, m: nat)
    requires h0 % 2 == 1 && n < TWO64 && m < TWO64
    ensures Finish(Written(Fresh(h0, h1), Zeros(n))) == Finish(Written(Fresh(h0, h1), Zeros(m))) <==> n == m
  {
    var v, w := Written(Fresh(h0, h1), Zeros(n)), Written(Fresh(h0, h1), Zeros(m));
    ZeroInputKeepsZero(h0, h1, n);
    ZeroInputKeepsZero(h0, h1, m);
    LeValueZeros(8);
    assert v.accum == Zeros(8) && w.accum == Zeros(8);
    Mixing.MultHi128ZeroZero(h0, h1);
    Mixing.FinishSeparatesCounts(v, w);
  }

  /** Folding m1 + m2 words is folding the first m1, then the m2 after them. */
  lemma {:induction false} FoldRangeSplit(r: u64, buf: seq<u8>, lo: nat, m1: nat, m2: nat, h0: u64, h1: u64)
    requires lo + 8 * (m1 + m2) <= |buf|
    ensures FoldRange(r, buf, lo, m1 + m2, h0, h1)
         == FoldRange(FoldRange(r, buf, lo, m1, h0, h1), buf, lo + 8 * m1, m2, h0, h1)
    decreases m2
  {
    if m2 > 0 {
      FoldRangeSplit(r, buf, lo, m1, m2 - 1, h0, h1);
      assert lo + 8 * (m1 + m2 - 1) == lo + 8 * m1 + 8 * (m2 - 1);
    }
  }

  /** Words load the same after a prefix p is put in front of the buffer. */
  lemma {:induction false} FoldRangeShift(r: u64, p: seq<u8>, buf: seq<u8>, lo: nat, m: nat, h0: u64, h1: u64)
    requires lo + 8 * m <= |buf|
    ensures FoldRange(r, p + buf, |p| + lo, m, h0, h1) == FoldRange(r, buf, lo, m, h0, h1)
  {
    if m > 0 {
      FoldRangeShift(r, p, buf, lo, m - 1, h0, h1);
      LoadShift(p, buf, lo + 8 * (m - 1));
    }
  }

  lemma {:induction false} LoadShift(p: seq<u8>, buf: seq<u8>, i: nat)
    requires i + 8 <= |buf|
    ensures LoadU64Le(p + buf, |p| + i) == LoadU64Le(buf, i)
  {
    assert (p + buf)[|p| + i..|p| + i + 8] == buf[i..i + 8];
  }

  /** z whole zero words in front of a buffer fold into a zero result as
      nothing: the buffer's words follow on from 0. */
  lemma {:induction false} ZeroWordsFoldAway(key: seq<u8>, z: nat, m: nat, h0: u64, h1: u64)
    requires 8 * m <= |key|
    ensures FoldRange(0, Zeros(8 * z) + key, 0, z + m, h0, h1) == FoldRange(0, key, 0, m, h0, h1)
  {
    var zs := Zeros(8 * z);
    FoldRangeSplit(0, zs + key, 0, z, m, h0, h1);
    FoldRangeZeros(zs + key, 0, z, h0, h1);
    FoldRangeShift(0, zs, key, 0, m, h0, h1);
  }

  /** Placing bytes of p + buf is placing the same bytes of buf. */
  lemma {:induction false} PlaceShift(acc: seq<u8>, at: nat, p: seq<u8>, buf: seq<u8>, lo: nat, hi: nat)
    requires |acc| == 8 && lo <= hi <= |buf| && at + (hi - lo) <= 8
    ensures Place(acc, at, p + buf, |p| + lo, |p| + hi) == Place(acc, at, buf, lo, hi)
  {
    var u, v := Place(acc, at, p + buf, |p| + lo, |p| + hi), Place(acc, at, buf, lo, hi);
    assert forall m :: 0 <= m < 8 ==> u[m] == v[m];
  }

  /** From a fresh hasher, a key after z whole zero words leaves the same
      result as the key alone ... */
  lemma {:induction false} PrependedZeroWordsResult(h0: u64, h1: u64, key: seq<u8>, z: nat)
    requires 8 * z + |key| < TWO64
    ensures Written(Fresh(h0, h1), Zeros(8 * z) + key).result == Written(Fresh(h0, h1), key).result
  {
    var s, zs, n := Fresh(h0, h1), Zeros(8 * z), |key|;
    WrittenWhenAligned(s, zs + key);
    WrittenWhenAligned(s, key);
    assert |zs + key| / 8 == z + n / 8;
    ZeroWordsFoldAway(key, z, n / 8, h0, h1);
  }

  /** ... and the same accumulator. */
  lemma {:induction false} PrependedZeroWordsAccum(h0: u64, h1: u64, key: seq<u8>, z: nat)
    requires 8 * z + |key| < TWO64
    ensures Written(Fresh(h0, h1), Zeros(8 * z) + key).accum == Written(Fresh(h0, h1), key).accum
  {
    var s, zs, n := Fresh(h0, h1), Zeros(8 * z), |key|;
    var t, buf := n % 8, zs + key;
    var len := |buf|;
    assert len == 8 * z + n;
    WholeWordsKeepResidue(n, z, len);
    AlignedTail(s, buf, len, t);
    AlignedTail(s, key, n, t);
    PlaceShift(Zeros(8), 8 - t, zs, key, n - t, n);
  }

  /** The accumulator part of `WrittenWhenAligned`, for a length and tail
      named by the caller. */
  lemma {:induction false} AlignedTail(s: State, bytes: seq<u8>, len: nat, t: nat)
    requires |s.accum| == 8 && s.count as int % 8 == 0
    requires s.count as int + |bytes| < TWO64
    requires len == |bytes| && t == len % 8
    ensures Written(s, bytes).accum == Place(s.accum, 8 - t, bytes, len - t, len)
  {
    WrittenWhenAligned(s, bytes);
  }

  /** The comment on `finish`: the count is mixed in so that prepending zero
      bytes cannot produce a collision. With h0 odd, a key written after
      z > 0 whole zero words has a digest different from the key alone. */
  lemma {:induction false} PrependedZeroWords(h0: u64, h1: u64, key: seq<u8>, z: nat)
    requires h0 % 2 == 1 && 0 < z && 8 * z + |key| < TWO64
    ensures Finish(Written(Fresh(h0, h1), Zeros(8 * z) + key)) != Finish(Written(Fresh(h0, h1), key))
  {
    PrependedZeroWordsResult(h0, h1, key, z);
    PrependedZeroWordsAccum(h0, h1, key, z);
    CountOnlyDiffers(Written(Fresh(h0, h1), Zeros(8 * z) + key), Written(Fresh(h0, h1), key), z);
  }

  /** Two states that differ only in their counts, by a whole number of
      words, finish to different digests (h0 odd). */
  lemma {:induction false} CountOnlyDiffers(v: State, w: State, z: nat)
    requires |v.accum| == 8 && v.h0 % 2 == 1 && 0 < z
    requires v.h0 == w.h0 && v.h1 == w.h1 && v.result == w.result && v.accum == w.accum
    requires v.count as int == 8 * z + w.count as int
    ensures Finish(v) != Finish(w)
  {
    WholeWordsKeepResidue(w.count as int, z, v.count as int);
    assert v.count % 8 == w.count % 8 && v.count != w.count;
    assert Pending(v) == Pending(w);
    Mixing.FinishSeparatesCounts(v, w);
  }

  lemma {:induction false} WholeWordsKeepResidue(c: int, z: int, total: int)
    requires total == 8 * z + c
    ensures total % 8 == c % 8
  {
  }

  /** Every clean, word-aligned state has an empty accumulator, so every
      aligned hasher reachable from `Default` meets the precondition of
      `WrittenFromAligned`. */
  lemma CleanAligned(s: State)
    requires Clean(s) && s.count % 8 == 0
    ensures s.accum == Zeros(8)
  {
  }
}
