/** Where `write` parks its tail bytes. The tail loop stores the t leftover
    bytes at offsets 8 - t .. 7 of the accumulator, while the refill loop of
    the next `write` stores from offset count & 7 = t upward. A refill that
    completes the word covers offsets t .. 7 and so overwrites the parked
    bytes at offsets t .. 7 before they are mixed in: all of them when
    t <= 4, all but the first 2t - 8 when t > 4. The struct's comment says
    `accum` holds its bytes in its least significant bits, that is at
    offsets 0 .. t - 1; parked there, the next refill continues the word
    where the tail stopped. */
module TailPlacement {
  import opened MachineWords
  import opened MultiplyShift
  import Mixing
  import HornerProperties

  /** The first write from an aligned, empty state only parks its bytes. */
  lemma ShortWriteParks(s: State, a: seq<u8>)
    requires s.count as int % 8 == 0 && s.accum == Zeros(8)
    requires |a| < 8 && s.count as int + |a| < TWO64
    ensures Written(s, a) == s.(accum := Place(Zeros(8), 8 - |a|, a, 0, |a|), count := (s.count as int + |a|) as u64)
  {
    assert RefillLen(s.count, |a|) == 0 && TailLen(s.count, |a|) == |a|;
  }

  /** A write that exactly completes the partial word mixes the refilled
      word and leaves an empty accumulator. */
  lemma CompletingWrite(s: State, b: seq<u8>)
    requires |s.accum| == 8 && 0 < s.count as int % 8
    requires |b| == 8 - s.count as int % 8 && s.count as int + |b| < TWO64
    ensures Written(s, b)
         == s.(result := MultHi128(s.result, LeWord(Place(s.accum, s.count as int % 8, b, 0, |b|)), s.h0, s.h1),
               accum := Zeros(8), count := (s.count as int + |b|) as u64)
  {
    var n := |b|;
    assert RefillLen(s.count, n) == n && TailLen(s.count, n) == 0;
    assert Written(s, b).accum == Place(Zeros(8), 8, b, n, n);
  }

  /** As written: after a tail of p bytes from an aligned, empty state, a
      write of the 8 - p bytes that complete the word overwrites every tail
      byte from index 2p - 8 on (every tail byte when p <= 4), so streams
      that differ only there end in the same state. */
  lemma TailOverwritten(s: State, a: seq<u8>, a': seq<u8>, b: seq<u8>)
    requires s.count as int % 8 == 0 && s.accum == Zeros(8)
    requires 0 < |a| < 8 && |a'| == |a| && |b| == 8 - |a|
    requires s.count as int + 8 < TWO64
    requires forall j :: 0 <= j < 2 * |a| - 8 ==> a[j] == a'[j]
    ensures Written(Written(s, a), b) == Written(Written(s, a'), b)
  {
    var p := |a|;
    var u, u' := Written(s, a), Written(s, a');
    ShortWriteParks(s, a);
    ShortWriteParks(s, a');
    assert u.count == u'.count && u.count as int % 8 == p;
    CompletingWrite(u, b);
    CompletingWrite(u', b);
    RefillOverwritesTail(a, a', b);
    assert Place(u.accum, p, b, 0, |b|) == Place(u'.accum, p, b, 0, |b|);
  }

  /** The bytes the refill stores from offset p upward cover the tail bytes
      parked there. */
  lemma RefillOverwritesTail(a: seq<u8>, a': seq<u8>, b: seq<u8>)
    requires 0 < |a| < 8 && |a'| == |a| && |b| == 8 - |a|
    requires forall j :: 0 <= j < 2 * |a| - 8 ==> a[j] == a'[j]
    ensures Place(Place(Zeros(8), 8 - |a|, a, 0, |a|), |a|, b, 0, |b|)
         == Place(Place(Zeros(8), 8 - |a|, a', 0, |a|), |a|, b, 0, |b|)
  {
    var p := |a|;
    var w, w' := Place(Place(Zeros(8), 8 - p, a, 0, p), p, b, 0, 8 - p),
                 Place(Place(Zeros(8), 8 - p, a', 0, p), p, b, 0, 8 - p);
    assert forall m :: 0 <= m < 8 ==> w[m] == w'[m];
  }

  /** A concrete collision: 1 2 3 4 5 | 6 7 8 and 1 2 0 0 0 | 6 7 8 drive a
      fresh hasher to the same state, hence the same digest. */
  lemma CollidingStreams(h0: u64, h1: u64)
    ensures Written(Written(Fresh(h0, h1), [1, 2, 3, 4, 5]), [6, 7, 8])
         == Written(Written(Fresh(h0, h1), [1, 2, 0, 0, 0]), [6, 7, 8])
    ensures Finish(Written(Written(Fresh(h0, h1), [1, 2, 3, 4, 5]), [6, 7, 8]))
         == Finish(Written(Written(Fresh(h0, h1), [1, 2, 0, 0, 0]), [6, 7, 8]))
  {
    var a: seq<u8>, a': seq<u8> := [1, 2, 3, 4, 5], [1, 2, 0, 0, 0];
    assert a[0] == a'[0] && a[1] == a'[1];
    TailOverwritten(Fresh(h0, h1), a, a', [6, 7, 8]);
  }

  /** Corrected: `write` with the tail parked at offsets 0 .. t - 1, the
      bytes the next refill continues from. Everything else is `Written`. */
  function WrittenCorrected(s: State, bytes: seq<u8>): (w: State)
    requires |s.accum| == 8
    requires s.count as int + |bytes| < TWO64
    ensures |w.accum| == 8 && w.h0 == s.h0 && w.h1 == s.h1
    ensures w.count as int == s.count as int + |bytes|
  {
    var n, t := |bytes|, TailLen(s.count, |bytes|);
    SplitBounds(s.count, n);
    Written(s, bytes).(accum := Place(Refilled(s, bytes).accum, 0, bytes, n - t, n))
  }

  /** Corrected: the first write from an aligned, empty state parks its bytes
      at the bottom of the accumulator. */
  lemma CorrectedShortWriteParks(s: State, a: seq<u8>)
    requires s.count as int % 8 == 0 && s.accum == Zeros(8)
    requires |a| < 8 && s.count as int + |a| < TWO64
    ensures WrittenCorrected(s, a) == s.(accum := Place(Zeros(8), 0, a, 0, |a|), count := (s.count as int + |a|) as u64)
  {
    ShortWriteParks(s, a);
  }

  /** Corrected: the tail and the refill together form the word a + b. */
  lemma TailThenRefill(a: seq<u8>, b: seq<u8>)
    requires |a| < 8 && |a| + |b| == 8
    ensures Place(Place(Zeros(8), 0, a, 0, |a|), |a|, b, 0, |b|) == a + b
  {
    var w := Place(Place(Zeros(8), 0, a, 0, |a|), |a|, b, 0, |b|);
    assert forall m :: 0 <= m < 8 ==> w[m] == (a + b)[m];
  }

  /** Corrected: one word written in one go from an aligned, empty state. */
  lemma CorrectedOneWord(s: State, ab: seq<u8>)
    requires s.count as int % 8 == 0 && s.accum == Zeros(8)
    requires |ab| == 8 && s.count as int + 8 < TWO64
    ensures WrittenCorrected(s, ab)
         == s.(result := MultHi128(s.result, LeWord(ab), s.h0, s.h1), count := (s.count as int + 8) as u64)
  {
    HornerProperties.WrittenWhenAligned(s, ab);
    assert FoldRange(s.result, ab, 0, 1, s.h0, s.h1) == MultHi128(s.result, LeWord(ab[0..8]), s.h0, s.h1);
    assert ab[0..8] == ab;
    assert Place(Zeros(8), 0, ab, 8, 8) == Zeros(8);
  }

  /** Corrected: a word split as a tail and a completing write gives the
      same state as the word written at once. */
  lemma CorrectedWordCompletes(s: State, a: seq<u8>, b: seq<u8>)
    requires s.count as int % 8 == 0 && s.accum == Zeros(8)
    requires 0 < |a| < 8 && |a| + |b| == 8
    requires s.count as int + 8 < TWO64
    ensures WrittenCorrected(WrittenCorrected(s, a), b) == WrittenCorrected(s, a + b)
  {
    var u := WrittenCorrected(s, a);
    CorrectedShortWriteParks(s, a);
    CompletingWrite(u, b);
    assert WrittenCorrected(u, b) == Written(u, b) by {
      assert RefillLen(u.count, |b|) == |b| && TailLen(u.count, |b|) == 0;
      assert WrittenCorrected(u, b).accum == Place(Zeros(8), 0, b, |b|, |b|);
    }
    TailThenRefill(a, b);
    CorrectedOneWord(s, a + b);
  }

  /** Corrected: the word mixed in has the tail as its least significant
      bytes and the completing bytes above them, the layout the struct's
      comment gives `accum`. */
  lemma CorrectedWordValue(s: State, a: seq<u8>, b: seq<u8>)
    requires s.count as int % 8 == 0 && s.accum == Zeros(8)
    requires 0 < |a| < 8 && |a| + |b| == 8
    requires s.count as int + 8 < TWO64
    ensures WrittenCorrected(WrittenCorrected(s, a), b).result == MultHi128(s.result, LeWord(a + b), s.h0, s.h1)
    ensures LeWord(a + b) as int == LeValue(a) + Pow256(|a|) * LeValue(b)
  {
    CorrectedWordCompletes(s, a, b);
    CorrectedOneWord(s, a + b);
    LeValueAppend(a, b);
  }

  /** Corrected: with an odd h0, no tail byte is lost. Two tails of the same
      length that differ anywhere, completed by the same bytes, leave
      different results. */
  lemma CorrectedKeepsEveryByte(s: State, a: seq<u8>, a': seq<u8>, b: seq<u8>)
    requires s.count as int % 8 == 0 && s.accum == Zeros(8) && s.h0 % 2 == 1
    requires 0 < |a| < 8 && |a'| == |a| && |a| + |b| == 8
    requires s.count as int + 8 < TWO64
    ensures WrittenCorrected(WrittenCorrected(s, a), b).result == WrittenCorrected(WrittenCorrected(s, a'), b).result
            <==> a == a'
  {
    CorrectedWordCompletes(s, a, b);
    CorrectedWordCompletes(s, a', b);
    CorrectedOneWord(s, a + b);
    CorrectedOneWord(s, a' + b);
    Mixing.MultHi128InjectiveInAccum(s.result, LeWord(a + b), LeWord(a' + b), s.h0, s.h1);
    if LeWord(a + b) == LeWord(a' + b) {
      LeBytesOfLeValue(a + b);
      LeBytesOfLeValue(a' + b);
      assert (a + b)[..|a|] == a && (a' + b)[..|a|] == a';
    }
  }
}
