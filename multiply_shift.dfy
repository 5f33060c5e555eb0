/** The pure side of `HornerHasher`: the widening multiply, the mixing step
    `mult_hi128`, the little-endian word load, the hasher's state as a value,
    and what `write` and `finish` compute from it. */
module MultiplyShift {
  import opened MachineWords

  /** The seeds `Default` installs; the hash map constructor replaces them
      with random ones. Both are odd. */
  const DEFAULT_H0: u64 := 4167967182414233411
  const DEFAULT_H1: u64 := 15315631059493996859

  /** `hi64mul` (the `mulq` instruction): the 64 most significant bits of the
      128-bit product. */
  function Hi64Mul(x: u64, y: u64): u64 {
    ProductFits(x as int, y as int);
    WordSplit(x as int * y as int);
    (x as int * y as int / TWO64) as u64
  }

  lemma ProductFits(x: int, y: int)
    requires 0 <= x < TWO64 && 0 <= y < TWO64
    ensures 0 <= x * y < TWO64 * TWO64
  {
    MulMonotone(x, 0, y);
    MulMonotone(x, y, TWO64 - 1);
    MulMonotone(TWO64 - 1, x, TWO64 - 1);
  }

  lemma WordSplit(p: int)
    requires 0 <= p < TWO64 * TWO64
    ensures p / TWO64 < TWO64
    ensures p == (p / TWO64) * TWO64 + p % TWO64
  {
  }

  /** `mult_hi128`: the new value of `result` after folding in the word
      `accum`, as the source computes it with wrapping arithmetic. */
  function MultHi128(result: u64, accum: u64, h0: u64, h1: u64): u64 {
    WrappingAdd(WrappingAdd(WrappingMul(accum, h0), WrappingMul(result, h1)), Hi64Mul(result, h0))
  }

  /** `load_u64_le`: the word whose little-endian bytes are buf[i..i+8]. The
      requires clause is the source's `debug_assert!`. */
  function LoadU64Le(buf: seq<u8>, i: nat): u64
    requires i + 8 <= |buf|
  {
    LeWord(buf[i..i + 8])
  }

  /** The words of `data`, eight bytes each, in input order. */
  function Words(data: seq<u8>): seq<u64> {
    seq(|data| / 8, j requires 0 <= j < |data| / 8 => LoadU64Le(data, 8 * j))
  }

  /** Folding words into `result` one after the other with `mult_hi128`. */
  function Fold(result: u64, ws: seq<u64>, h0: u64, h1: u64): u64
    decreases |ws|
  {
    if ws == [] then result
    else MultHi128(Fold(result, ws[..|ws| - 1], h0, h1), ws[|ws| - 1], h0, h1)
  }

  /** Folding the m words loaded at lo, lo + 8, ..., lo + 8 * (m - 1) of
      buf into `result`, in that order. */
  function FoldRange(result: u64, buf: seq<u8>, lo: nat, m: nat, h0: u64, h1: u64): u64
    requires lo + 8 * m <= |buf|
  {
    if m == 0 then result
    else MultHi128(FoldRange(result, buf, lo, m - 1, h0, h1), LoadU64Le(buf, lo + 8 * (m - 1)), h0, h1)
  }

  /** The fields of `HornerHasher`, with `accum` seen as its 8 bytes,
      least significant first. */
  datatype State = State(h0: u64, h1: u64, result: u64, accum: seq<u8>, count: u64)

  /** A hasher as `Default` builds it, for the given seeds. */
  function Fresh(h0: u64, h1: u64): State {
    State(h0, h1, 0, Zeros(8), 0)
  }

  /** The accumulator bytes below offset 8 - count % 8 are zero. Every state
      reachable from `Default` by `write` satisfies this. */
  ghost predicate Clean(s: State) {
    |s.accum| == 8 && forall k :: 0 <= k < 8 - s.count as int % 8 ==> s.accum[k] == 0
  }

  /** acc with buf[lo..hi] stored over it from offset `at` upward. */
  function Place(acc: seq<u8>, at: nat, buf: seq<u8>, lo: nat, hi: nat): (r: seq<u8>)
    requires |acc| == 8 && lo <= hi <= |buf| && at + (hi - lo) <= 8
    ensures |r| == 8
  {
    seq(8, m requires 0 <= m < 8 => if at <= m < at + (hi - lo) then buf[lo + m - at] else acc[m])
  }

  /** How many bytes the refill loop of `write` takes from an input of n bytes. */
  function RefillLen(count: u64, n: nat): nat {
    var c := count as int % 8;
    if c == 0 then 0 else if n < 8 - c then n else 8 - c
  }

  /** Number of tail bytes `write` leaves in the accumulator: what the main
      loop leaves over after the refill. */
  function TailLen(count: u64, n: nat): nat {
    (n - RefillLen(count, n)) % 8
  }

  /** The refill takes at most what fits in the word and what the input
      has; the tail is shorter than a word and what lies between is whole
      words. */
  lemma SplitBounds(count: u64, n: nat)
    ensures RefillLen(count, n) <= n && count as int % 8 + RefillLen(count, n) <= 8
    ensures TailLen(count, n) < 8 && RefillLen(count, n) + TailLen(count, n) <= n
    ensures RefillLen(count, n) + 8 * ((n - RefillLen(count, n)) / 8) == n - TailLen(count, n)
  {
  }

  /** The refill loop, the count update and the flush: the first k input
      bytes go to the accumulator from offset count & 7 upward, the count
      grows by the whole input, and if k > 0 the accumulator is mixed into
      `result` and cleared. */
  function Refilled(s: State, bytes: seq<u8>): (r: State)
    requires |s.accum| == 8
    requires s.count as int + |bytes| < TWO64
    ensures |r.accum| == 8 && r.h0 == s.h0 && r.h1 == s.h1
    ensures r.count as int == s.count as int + |bytes|
  {
    var k := RefillLen(s.count, |bytes|);
    SplitBounds(s.count, |bytes|);
    var s1 := s.(count := (s.count as int + |bytes|) as u64);
    if k == 0 then s1
    else s1.(result := MultHi128(s.result, LeWord(Place(s.accum, s.count as int % 8, bytes, 0, k)), s.h0, s.h1),
             accum := Zeros(8))
  }

  /** The state after `write(bytes)`: the refill, then the whole words
      folded in order, then the t tail bytes parked in the accumulator at
      offsets 8 - t .. 7. */
  function Written(s: State, bytes: seq<u8>): (w: State)
    requires |s.accum| == 8
    requires s.count as int + |bytes| < TWO64
    ensures |w.accum| == 8 && w.h0 == s.h0 && w.h1 == s.h1
    ensures w.count as int == s.count as int + |bytes|
  {
    var n := |bytes|;
    var k, t := RefillLen(s.count, n), TailLen(s.count, n);
    SplitBounds(s.count, n);
    var s1 := Refilled(s, bytes);
    s1.(result := FoldRange(s1.result, bytes, k, (n - k) / 8, s.h0, s.h1),
        accum := Place(s1.accum, 8 - t, bytes, n - t, n))
  }

  /** What `finish` holds just before mixing in the count: `result`, with the
      accumulator mixed in when the count is not a multiple of 8. */
  function Pending(s: State): u64
    requires |s.accum| == 8
  {
    if s.count % 8 > 0 then MultHi128(s.result, LeWord(s.accum), s.h0, s.h1) else s.result
  }

  /** `finish`: the digest; the count is always mixed in last. */
  function Finish(s: State): u64
    requires |s.accum| == 8
  {
    MultHi128(Pending(s), s.count, s.h0, s.h1)
  }
}
