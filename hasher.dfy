/** `HornerHasher` itself: the five fields the source's struct has, updated in
    place by `write` exactly as its three loops do, and read by `finish`. */
module Hasher {
  import opened MachineWords
  import opened MultiplyShift
  import HornerProperties

  class HornerHasher {
    // A randomly chosen odd 128-bit multiplier, least significant word first.
    var h0: u64
    var h1: u64
    // The hash value accumulated so far.
    var result: u64
    // The 8 bytes of the partial word, byte k being worth 256^k.
    var accum: seq<u8>
    // The number of bytes seen so far.
    var count: u64

    ghost function Snapshot(): State
      reads this
    {
      State(h0, h1, result, accum, count)
    }

    ghost predicate Valid()
      reads this
    {
      Clean(Snapshot())
    }

    /** `Default`: the built-in odd seeds and an empty stream. */
    constructor Default()
      ensures Valid() && Snapshot() == Fresh(DEFAULT_H0, DEFAULT_H1)
      ensures h0 % 2 == 1 && h1 % 2 == 1
    {
      h0 := DEFAULT_H0;
      h1 := DEFAULT_H1;
      result := 0;
      accum := Zeros(8);
      count := 0;
    }

    /** `Hasher::finish`: reads the hasher, works on a copy of `result`, and
        changes nothing. */
    method Finish() returns (digest: u64)
      requires |accum| == 8
      ensures digest == MultiplyShift.Finish(Snapshot())
    {
      var r := result;
      if count % 8 > 0 {
        r := MultHi128(r, LeWord(accum), h0, h1);
      }
      r := MultHi128(r, count, h0, h1);
      digest := r;
    }

    /** `Hasher::write`: refill the partial word, flush it, fold whole words,
        park the tail. */
    method Write(bytes: seq<u8>)
      requires |accum| == 8
      requires count as int + |bytes| < TWO64
      modifies this
      ensures Snapshot() == Written(old(Snapshot()), bytes)
      ensures old(Valid()) ==> Valid()
    {
      ghost var s := Snapshot();
      var i := Refill(bytes);
      i := FoldWords(bytes, i, s.count);
      ParkTail(bytes, i);
      HornerProperties.WrittenKeepsClean(s, bytes);
    }

    /** The start of `write`: the refill loop, the count update, and the
        flush when the loop took any byte. */
    method Refill(bytes: seq<u8>) returns (i: nat)
      requires |accum| == 8
      requires count as int + |bytes| < TWO64
      modifies this`result, this`accum, this`count
      ensures i == RefillLen(old(count), |bytes|)
      ensures Snapshot() == Refilled(old(Snapshot()), bytes)
    {
      i := FillAccum(bytes);
      count := count + (|bytes| - i) as u64;
      // If the refill touched the accumulator, mix it in and clear it.
      if i > 0 {
        Flush();
      }
    }

    /** `mult_hi128` of the accumulator into `result`, then `accum = 0`. */
    method Flush()
      requires |accum| == 8
      modifies this`result, this`accum
      ensures result == MultHi128(old(result), LeWord(old(accum)), h0, h1)
      ensures accum == Zeros(8)
    {
      result := MultHi128(result, LeWord(accum), h0, h1);
      accum := Zeros(8);
    }

    /** The refill loop of `write`: copies input bytes into the accumulator
        from offset count & 7 upward until the word is full or the input ends. */
    method FillAccum(bytes: seq<u8>) returns (i: nat)
      requires |accum| == 8
      requires count as int + |bytes| < TWO64
      modifies this`accum, this`count
      ensures i == RefillLen(old(count), |bytes|)
      ensures count as int == old(count) as int + i
      ensures accum == if i == 0 then old(accum) else Place(old(accum), old(count) as int % 8, bytes, 0, i)
    {
      ghost var c := count as int % 8;
      ghost var k := RefillLen(count, |bytes|);
      i := 0;
      while count % 8 > 0 && i < |bytes|
        invariant 0 <= i <= k
        invariant count as int == old(count) as int + i
        invariant accum == if i == 0 then old(accum) else Place(old(accum), c, bytes, 0, i)
        decreases |bytes| - i
      {
        // The store lands at offset count & 7, inside 1..7.
        assert 1 <= count % 8 <= 7 && count as int % 8 == c + i;
        HornerProperties.PlaceSnoc(old(accum), c, bytes, 0, i);
        accum := accum[(count % 8) as int := bytes[i]];
        i := i + 1;
        count := count + 1;
      }
    }

    /** The main loop of `write`: folds every whole little-endian word of
        bytes[start..] into `result`, in input order. */
    method FoldWords(bytes: seq<u8>, start: nat, ghost count0: u64) returns (i: nat)
      requires start == RefillLen(count0, |bytes|)
      modifies this`result
      ensures i == |bytes| - TailLen(count0, |bytes|)
      ensures result == FoldRange(old(result), bytes, start, (|bytes| - start) / 8, h0, h1)
    {
      i := start;
      ghost var m := 0;
      while i + 7 < |bytes|
        invariant start <= i <= |bytes| && i == start + 8 * m
        invariant result == FoldRange(old(result), bytes, start, m, h0, h1)
      {
        // Every load reads bytes[i..i + 8], inside the input.
        result := MultHi128(result, LoadU64Le(bytes, i), h0, h1);
        i, m := i + 8, m + 1;
      }
      HornerProperties.MainLoopExit(start, m, |bytes|);
    }

    /** The tail loop of `write`: the fewer than 8 bytes of bytes[start..] go
        to the top offsets 8 - (|bytes| - start) .. 7 of the accumulator. */
    method ParkTail(bytes: seq<u8>, start: nat)
      requires |accum| == 8
      requires start <= |bytes| < start + 8
      modifies this`accum
      ensures accum == Place(old(accum), 8 - (|bytes| - start), bytes, start, |bytes|)
    {
      var i := start;
      while i < |bytes|
        invariant start <= i <= |bytes|
        invariant accum == Place(old(accum), 8 - (|bytes| - start), bytes, start, i)
      {
        // The store lands at offset 8 + i - bytes.len(), inside 1..7.
        assert 1 <= 8 + i - |bytes| <= 7;
        HornerProperties.PlaceSnoc(old(accum), 8 - (|bytes| - start), bytes, start, i);
        accum := accum[8 + i - |bytes| := bytes[i]];
        i := i + 1;
      }
    }
  }
}
