# HornerHasher in Dafny

A model of `HornerHasher` from `src/multiply_shift.rs`, a streaming
implementation of Rust's `Hasher` trait. It hashes a byte stream by
iterated multiply-shift hashing (Dietzfelbinger et al.). The hasher keeps:

- a 128-bit odd seed `h1:h0`;
- the running value `result`;
- `accum`, a partial 64-bit word of up to 8 bytes;
- `count`, the number of bytes seen so far.

`write` does three things in order:

1. It completes the partial word byte by byte.
2. It folds every whole little-endian word of the input into `result` with
   `mult_hi128`.
3. It parks the leftover bytes in `accum`.

`finish` mixes in the pending partial word and then the byte count.

The project has five modules:

- `MachineWords` (`machine_words.dfy`):
  - `u8` and `u64` as newtypes;
  - Rust's `wrapping_add` and `wrapping_mul` modulo 2^64;
  - the little-endian byte layout of a word, with its round trips.
- `MultiplyShift` (`multiply_shift.dfy`) is the pure side. It holds:
  - `hi64mul` (`Hi64Mul`), `mult_hi128` (`MultHi128`), `load_u64_le` (`LoadU64Le`);
  - the hasher's fields as a `State` value;
  - `Written(s, bytes)`, the state that `write` leaves;
  - `Finish(s)`, the digest.
- `Hasher` (`hasher.dfy`) is the class `HornerHasher`. Its fields are updated in
  place by `Write`. `Write` is split into the source's three loops and its flush,
  and each is proved against the pure specification.
- `Mixing` (`mixing.dfy`) holds the arithmetic facts about the mixing step:
  - the high word of the product;
  - the middle 64 bits of the 128-bit product;
  - injectivity in the mixed word when `h0` is odd.
- `HornerProperties` (`properties.dfy`) holds what `write` and `finish`
  guarantee:
  - the byte count;
  - empty writes;
  - the word fold from an aligned state;
  - where the tail goes;
  - the partial-refill flush;
  - the zero fixed point, and that the length separates zero inputs;
  - that whole zero words put in front of a key change its digest.
- `TailPlacement` (`tail_placement.dfy`) covers the finding below. It has two halves:
  - the code as written, with a proved collision;
  - the evidently intended placement, proved to keep every byte.

### Modelling choices

- `accum` is modelled as its 8 bytes, byte k being worth 256^k. This is how
  the source's `*mut u8` stores see the field on x86_64. `LeWord` reads the
  bytes back as the `u64` that `mult_hi128` and `finish` use. `accum = 0`
  becomes `Zeros(8)`.
- `count & 7` is written `count % 8`. The two are equal on unsigned integers.
- The loop bodies assert that every store offset lies in 1..7. That is, the
  raw-pointer stores at lines 114 and 142 stay inside `accum`.
- `LoadU64Le`'s precondition is the source's `debug_assert!`. The main loop
  proves it at every call, so the unchecked read stays inside `bytes`.

Two details of the code differ from how a buffered hasher is usually
described. The model follows the code in both:

- A refill that takes bytes but does not complete the word is still flushed
  (line 124 tests `i > 0`, not a full word). See
  `HornerProperties.PartialRefillFlushes`.
- The tail is parked at the top of `accum`. See the Findings section.

## Model

| member | source | states |
|---|---|---|
| MachineWords.WrappingAdd | src/multiply_shift.rs:75-77 | definition of `u64::wrapping_add`: the sum modulo 2^64 (no contract of its own; `Mixing.MultHi128Value` states what the wrapped sums add up to) |
| MachineWords.WrappingMul | src/multiply_shift.rs:75-76 | definition of `u64::wrapping_mul`: the low 64 bits of the product (no contract of its own; `Mixing.Hi64MulIsHighWord` ties it to `hi64mul`) |
| MultiplyShift.Hi64Mul | src/multiply_shift.rs:60-67 | definition of `hi64mul` as floor(x*y / 2^64) (no contract of its own; see `Mixing.Hi64MulIsHighWord`) |
| MultiplyShift.MultHi128 | src/multiply_shift.rs:74-78 | definition of `mult_hi128` with the source's wrapping operations (no contract of its own; see `Mixing.MultHi128Value`, `Mixing.MultHi128MiddleWord`, `Mixing.MultHi128InjectiveInAccum`) |
| MultiplyShift.LoadU64Le | src/multiply_shift.rs:86-91 | definition of `load_u64_le`; its requires is the `debug_assert!` at line 87 (no contract of its own; see `HornerProperties.LoadU64LeRoundTrip`) |
| MultiplyShift.Words | src/multiply_shift.rs:129-137 | reference definition: the input cut into little-endian words, in order (see `HornerProperties.FoldRangeIsFold`) |
| MultiplyShift.Fold | src/multiply_shift.rs:129-137 | reference definition: `mult_hi128` applied to a list of words in order (see `HornerProperties.WrittenFromAligned`) |
| MultiplyShift.FoldRange | src/multiply_shift.rs:131-136 | the m iterations of the main loop starting at offset lo (see `HornerProperties.FoldRangeIsFold`) |
| MultiplyShift.Fresh | src/multiply_shift.rs:48-50 | a hasher with the given seeds and result, accum and count zero (see `Hasher.HornerHasher.Default`) |
| MultiplyShift.Place | src/multiply_shift.rs:112-146 | the byte stores of the refill and tail loops: bytes buf[lo..hi] over the accumulator from offset `at` upward; the result is always a whole 8-byte word |
| MultiplyShift.RefillLen | src/multiply_shift.rs:112 | the number of iterations of the refill loop (no contract of its own; bounds in `MultiplyShift.SplitBounds`) |
| MultiplyShift.TailLen | src/multiply_shift.rs:140 | the number of iterations of the tail loop (no contract of its own; bounds in `MultiplyShift.SplitBounds`) |
| MultiplyShift.Pending | src/multiply_shift.rs:99-102 | what `finish` holds before mixing in the count (no contract of its own; see `Mixing.FinishSeparatesCounts`) |
| MultiplyShift.Finish | src/multiply_shift.rs:95-105 | definition of `finish` (no contract of its own; see `Hasher.HornerHasher.Finish`, `HornerProperties.ZeroInputDigest`, `HornerProperties.PrependedZeroWords`) |
| MachineWords.LeWord | src/multiply_shift.rs:35-38 | the `u64` whose little-endian bytes are `accum`'s 8 bytes, byte k worth 256^k, as `mult_hi128` receives it at lines 101 and 125 and as `load_u64_le` returns it (no contract of its own; see `HornerProperties.LoadU64LeRoundTrip`, `TailPlacement.CorrectedWordValue`) |
| MachineWords.LeValueOfLeBytes | src/multiply_shift.rs:80-91 | decoding the little-endian bytes of any value that fits gives the value back |
| MachineWords.LeBytesOfLeValue | src/multiply_shift.rs:80-91 | encoding the value of a byte string gives the same bytes back, so a word determines its bytes |
| MachineWords.LeValueAppend | src/multiply_shift.rs:35-37 | in the little-endian layout of `accum`, later bytes sit above earlier ones: value(a + b) = value(a) + 256^len(a) * value(b) |
| MachineWords.LeValueZeros | src/multiply_shift.rs:126 | the zeroed accumulator reads as the word 0 |
| MachineWords.OddFactorCancels | src/multiply_shift.rs:29-30 | an odd multiplier cannot absorb a factor of two: 2^k dividing d * h with h odd means 2^k divides d |
| MultiplyShift.ProductFits | src/multiply_shift.rs:54-55 | the product of two 64-bit words fits in 128 bits, so `hi64mul`'s result fits in a `u64` |
| MultiplyShift.SplitBounds | src/multiply_shift.rs:112-146 | the refill takes at most 8 - count%8 bytes and no more than the input; the tail is shorter than a word; the main loop covers exactly the whole words between them |
| MultiplyShift.Refilled | src/multiply_shift.rs:110-127 | after the refill and the flush, the count has grown by the whole input and the seeds are unchanged |
| MultiplyShift.Written | src/multiply_shift.rs:107-147 | `write` raises `count` by the input length, never touches the seeds, and keeps `accum` an 8-byte word |
| Mixing.Hi64MulIsHighWord | src/multiply_shift.rs:54-67 | `hi64mul(x, y)` is floor(x*y / 2^64): x*y = hi * 2^64 + x.wrapping_mul(y); it is below 2^64 and at most each factor |
| Mixing.MultHi128Value | src/multiply_shift.rs:74-78 | the new result is (accum*h0 + result*h1 + hi64mul(result, h0)) mod 2^64 |
| Mixing.MultHi128MiddleWord | src/multiply_shift.rs:69-72 | the new result is bits 64..127 of the 128-bit accum:result times the 128-bit seed h1:h0 |
| Mixing.MultHi128ResultPart | src/multiply_shift.rs:69-78 | with a zero word, the new result is the middle word of result times h1:h0 |
| Mixing.MultHi128ZeroZero | src/multiply_shift.rs:74-78 | mixing a zero word into a zero result gives zero |
| Mixing.MultHi128FromZero | src/multiply_shift.rs:74-78 | mixing a word into a zero result gives accum*h0 mod 2^64 |
| Mixing.MultHi128InjectiveInAccum | src/multiply_shift.rs:74-78 | with h0 odd, for a fixed result, two words give the same new result if and only if they are equal |
| Mixing.FinishSeparatesCounts | src/multiply_shift.rs:95-105 | with h0 odd and the same pending value, two digests are equal if and only if the byte counts are equal |
| HornerProperties.LoadU64LeRoundTrip | src/multiply_shift.rs:80-91 | the loaded word's little-endian bytes are exactly buf[i..i+8], and loading a word's own bytes gives the word |
| HornerProperties.PlaceSnoc | src/multiply_shift.rs:112-118 | each store of one more byte after those already placed extends the placement by one offset |
| HornerProperties.WriteSplit | src/multiply_shift.rs:112-136 | the refill, the whole words and the tail partition the input; a refill that stops before the input ends leaves the count word-aligned |
| HornerProperties.MainLoopExit | src/multiply_shift.rs:131-137 | the main loop stops after exactly (n - start) / 8 words, at the first offset with fewer than 8 bytes left |
| HornerProperties.WrittenKeepsClean | src/multiply_shift.rs:107-147 | `write` preserves the invariant that the accumulator bytes below offset 8 - count%8 are zero |
| HornerProperties.WrittenWhenAligned | src/multiply_shift.rs:107-147 | from a word-aligned count, `write` takes no refill bytes, folds the n/8 whole words and parks the last n%8 bytes |
| HornerProperties.EmptyWriteChangesNothing | src/multiply_shift.rs:107-147 | writing an empty slice leaves every field as it was |
| HornerProperties.FoldRangeIsFold | src/multiply_shift.rs:129-137 | the main loop's fold over m words is the fold of the first m little-endian words of the input, in order |
| HornerProperties.WrittenFromAligned | src/multiply_shift.rs:129-146 | from an aligned, empty state: the n/8 words are folded in input order; the tail sits at offsets 8 - n%8 .. 7; the bytes below it are zero |
| HornerProperties.PartialRefillFlushes | src/multiply_shift.rs:123-127 | a refill that takes bytes but does not complete the word still mixes the accumulator in once and clears it |
| HornerProperties.PartialRefillLeavesZeroWord | src/multiply_shift.rs:100-102 | after such a write, `finish` mixes an all-zero pending word |
| HornerProperties.FoldRangeZeros | src/multiply_shift.rs:129-137 | folding all-zero words into a zero result keeps it zero |
| HornerProperties.ZeroInputKeepsZero | src/multiply_shift.rs:107-147 | n zero bytes written to a fresh hasher leave `result` 0 and the accumulator all zero |
| HornerProperties.ZeroInputDigest | src/multiply_shift.rs:96-103 | the digest of n zero bytes is n*h0 mod 2^64 |
| HornerProperties.EmptyInputDigest | src/multiply_shift.rs:95-105 | the empty key hashes to 0 under every pair of seeds: `finish` of a fresh hasher, or of one after an empty write, is 0 |
| HornerProperties.ZeroInputsSeparatedByLength | src/multiply_shift.rs:96-103 | with h0 odd, zero inputs of lengths n and m get equal digests if and only if n = m |
| HornerProperties.RefilledIsEmpty | src/multiply_shift.rs:123-127 | from a clean state, a non-empty write leaves the accumulator zero after the refill: either it flushed, or the count was aligned and the accumulator was already zero |
| HornerProperties.ParkedIsClean | src/multiply_shift.rs:139-146 | a tail parked at the top of a zero word keeps the accumulator invariant |
| HornerProperties.CleanAligned | src/multiply_shift.rs:35-38 | every state that keeps the accumulator invariant and has a word-aligned count has an all-zero accumulator, so it meets the precondition of `WrittenFromAligned` |
| HornerProperties.FoldRangeSplit | src/multiply_shift.rs:131-136 | m1 + m2 iterations of the main loop are m1 iterations followed by m2 more |
| HornerProperties.LoadShift | src/multiply_shift.rs:86-91 | a word loads the same after any prefix is put in front of the buffer |
| HornerProperties.FoldRangeShift | src/multiply_shift.rs:131-136 | the main loop folds the same words after any prefix is put in front of the buffer |
| HornerProperties.ZeroWordsFoldAway | src/multiply_shift.rs:131-136 | z zero words in front of a buffer fold into a zero result as nothing |
| HornerProperties.PlaceShift | src/multiply_shift.rs:139-146 | the tail stores place the same bytes after any prefix is put in front of the buffer |
| HornerProperties.AlignedTail | src/multiply_shift.rs:139-146 | from an aligned count, the accumulator after `write` holds the last len % 8 bytes at the top of the old word |
| HornerProperties.PrependedZeroWordsResult | src/multiply_shift.rs:107-147 | from a fresh hasher, a key after z whole zero words leaves the same `result` as the key alone |
| HornerProperties.PrependedZeroWordsAccum | src/multiply_shift.rs:107-147 | ... and the same accumulator |
| HornerProperties.CountOnlyDiffers | src/multiply_shift.rs:95-105 | with h0 odd, two states that differ only by a whole number of words in their counts finish to different digests |
| HornerProperties.PrependedZeroWords | src/multiply_shift.rs:96-98 | with h0 odd, putting z > 0 whole zero words in front of any key changes its digest: the protection against prepended zero bytes that the comment on `finish` gives |
| TailPlacement.ShortWriteParks | src/multiply_shift.rs:139-146 | a write of fewer than 8 bytes from an aligned, empty state only parks them at offsets 8 - n .. 7 and counts them |
| TailPlacement.CompletingWrite | src/multiply_shift.rs:110-127 | a write that exactly completes the partial word mixes that word into `result` and leaves an empty accumulator |
| TailPlacement.RefillOverwritesTail | src/multiply_shift.rs:112-119 | a completing refill from offset t covers every parked tail byte from index 2t - 8 on |
| TailPlacement.TailOverwritten | src/multiply_shift.rs:139-146 | as written: two tails that differ only from index 2t - 8 on, completed by the same bytes, reach the same state |
| TailPlacement.CollidingStreams | src/multiply_shift.rs:107-147 | as written: 1 2 3 4 5 then 6 7 8 and 1 2 0 0 0 then 6 7 8 give the same state and the same digest |
| TailPlacement.WrittenCorrected | src/multiply_shift.rs:35-37 | corrected `write`: like `write`, it raises the count by the input length and keeps the seeds |
| TailPlacement.CorrectedShortWriteParks | src/multiply_shift.rs:35-37 | corrected: a short write parks its bytes in the least significant bytes of `accum` |
| TailPlacement.TailThenRefill | src/multiply_shift.rs:35-37 | corrected: a tail parked at offsets 0 .. t-1, followed by a completing refill from offset t, forms the word a + b |
| TailPlacement.CorrectedOneWord | src/multiply_shift.rs:129-137 | corrected: one 8-byte write from an aligned, empty state folds exactly that word |
| TailPlacement.CorrectedWordCompletes | src/multiply_shift.rs:35-37 | corrected: a word written as a tail plus a completing write gives the same state as the word written at once |
| TailPlacement.CorrectedWordValue | src/multiply_shift.rs:35-37 | corrected: the word mixed in is value(a) + 256^len(a) * value(b), so the tail sits in the least significant bytes as the struct's comment says |
| TailPlacement.CorrectedKeepsEveryByte | src/multiply_shift.rs:35-37 | corrected, with h0 odd: two tails completed by the same bytes give equal results if and only if the tails are equal |
| Hasher.HornerHasher.Default | src/multiply_shift.rs:43-52 | the built-in seeds, with result, accum and count zero; both seeds are odd and the accumulator invariant holds |
| Hasher.HornerHasher.Finish | src/multiply_shift.rs:95-105 | the digest is the pure `Finish` of the current fields; the method has no modifies clause, so the hasher is unchanged |
| Hasher.HornerHasher.Write | src/multiply_shift.rs:107-147 | the new fields are `Written` of the old ones, and the accumulator invariant is preserved |
| Hasher.HornerHasher.Refill | src/multiply_shift.rs:110-127 | the refill loop, the count update and the flush give `Refilled` of the old fields; it returns the number of refill bytes |
| Hasher.HornerHasher.Flush | src/multiply_shift.rs:123-127 | `result` becomes `mult_hi128` of the old accumulator word, and `accum` becomes zero |
| Hasher.HornerHasher.FillAccum | src/multiply_shift.rs:110-119 | copies RefillLen bytes into `accum` from offset count%8 upward and counts them |
| Hasher.HornerHasher.FoldWords | src/multiply_shift.rs:129-137 | folds the whole words after the refill into `result`, in order, and stops where the tail begins |
| Hasher.HornerHasher.ParkTail | src/multiply_shift.rs:139-146 | stores the fewer than 8 remaining bytes at offsets 8 - t .. 7 of `accum` |

## Left out

- Hasher.HornerHasher.Write: requires `count + bytes.len() < 2^64`. The
  source's `count += ...` would wrap in a release build and panic in a debug
  build after 2^64 bytes. That overflow is not modelled.
- MultiplyShift.Written: requires the same bound on the count, for the same
  reason.
- `hi64mul`'s inline `mulq` assembly is replaced by floor(x*y / 2^64),
  the meaning the comment at lines 54-55 gives it. Whether the asm
  operand constraints at lines 62-65 bind `hi` to the high half of the
  product is not modelled. Other architectures, where the source has no
  `hi64mul`, are not modelled.
- The raw-pointer view of `accum` as `[u8; 8]` is modelled as a byte
  sequence on a little-endian machine. Pointer aliasing and
  `copy_nonoverlapping` are not modelled. Only the bounds those stores and
  loads rely on are proved.
- The comment at lines 19-27 relating the hash to Horner evaluation of a
  polynomial is not stated. The source itself leaves it unexplained.
- The statistical guarantees of multiply-shift hashing (universality) are
  not modelled.
- Random seeding by the hash map constructor is not modelled. Seeds are
  parameters. `Default` uses the two built-in constants.
- Independence of the digest from how the input is split into `write` calls
  is not claimed. The code does not have it:
  - the partial-refill flush depends on how the input is split;
  - so does the tail placement below.
- HornerProperties.PrependedZeroWords: covers zero bytes prepended in
  whole words to a key written from a fresh hasher in one call. A zero
  prefix whose length is not a multiple of 8 shifts every later word
  boundary, and no guarantee is proved for it.
- `src/main.rs`, the benchmark driver, is not part of this model.

## Findings

| source | as written | input that shows it | evidently intended | confidence | as-written member | corrected member |
|---|---|---|---|---|---|---|
| src/multiply_shift.rs:142 | The tail loop parks the t leftover bytes at offsets 8 - t .. 7 of `accum`. The next `write` refills from offset count & 7 = t upward (line 114). A completing refill therefore overwrites tail bytes before they are mixed in: all of them when t <= 4, and all but the first 2t - 8 otherwise. | On a fresh hasher, write 1 2 3 4 5 then 6 7 8. Then write 1 2 0 0 0 then 6 7 8. Both give the same state and the same digest. | Per the comment at lines 35-37, `accum` holds its bytes in its least-significant bits. The tail belongs at offsets 0 .. t - 1, where the refill continues the word, so every byte is mixed in. | not executed | TailPlacement.CollidingStreams | TailPlacement.CorrectedKeepsEveryByte |

The class `HornerHasher` models the code as written. `TailPlacement`
proves the following about the corrected placement (`WrittenCorrected`):

- a word written in two pieces gives the same state as the word written
  at once;
- with h0 odd, no tail byte is lost.
