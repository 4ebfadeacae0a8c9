# HyperLogLog in Dafny

A model of the core of `prasanthj/hyperloglog`, a Java HyperLogLog cardinality
sketch, with proofs about it. The model covers:

- the counter arrays `HLLRegister` and `HLLDenseRegister`;
- the unfinished `HLLSparseRegister`;
- the first, dense-only `HyperLogLogOriginal`;
- the sketch's control logic in `HyperLogLog`;
- the binary format of `HyperLogLogUtils`: header byte, varints and bit packing.

Modules:

| module | file | models |
|---|---|---|
| `JavaInts` | java_ints.dfy | Java `byte`/`int`/`long` as integer ranges; the shifts, masks, casts and `Long.numberOfTrailingZeros` the core uses |
| `Results` | results.dfy | the exceptions the code throws (`Error`), `Result` and `Option` |
| `Streams` | streams.dfy | input streams as byte sequences; `in.read()` returns -1 at the end |
| `Registers` | hll_register.dfy | `HLLRegister`: counters plus the cached `maxRegisterValue` and `numZeroes` |
| `DenseRegisters` | hll_dense_register.dfy | `HLLDenseRegister`: `m = 2^p` counters plus the hash-splitting `add` |
| `Sorting` | sorting.dfy | `Arrays.sort` on an `int[]`, defined as the unique ascending permutation |
| `SparseRegisters` | hll_sparse_register.dfy | `HLLSparseRegister`: the write buffer and `encodeHash` |
| `HyperLogLogOriginal` | hll_original.dfy | `HyperLogLogOriginal`: `findLongestRun` and `add` |
| `HyperLogLog` | hyperloglog.dfy | the sketch: construction, `add`, promotion from SPARSE to DENSE, the cached `count`, `merge`, `setRegister` |
| `BitStrings` | bit_strings.dfy | bit strings, most significant bit first; the specification language of the packing |
| `BitPacking` | bit_packing.dfy | `bitpackHLLRegister` and `unpackHLLRegister` |
| `Varints` | varints.dfy | `writeVulong`, `readVulong` and the zig-zag `writeVslong`/`readVslong` |
| `Codec` | codec.dfy | `serializeHLL`, `deserializeHLL`, `getEstimatedCountFromSerializedHLL` and their helpers |

How the model represents the Java code:

- **Values, not objects.** Registers and sketches are immutable datatypes.
  - An operation that mutates a Java object returns the updated value.
  - An operation that throws returns `Err(e)`, where `e` names the exception.
  - A `null` register is `None`.
- **Integers.** Every Java integer is the mathematical integer it denotes, restricted to its type's range. Bit operations are stated arithmetically:
  - `x & (2^k - 1)` is `x % 2^k`;
  - `x >> k` is `x / 2^k`;
  - `x >>> k` on a `long` is `x`, read as unsigned, divided by `2^k`;
  - `|` of disjoint bits is `+`;
  - a shift distance is taken modulo 32 (`int`) or 64 (`long`), as Java takes it;
  - `int` overflow wraps modulo 2^32, and the model says where.
- **Bytes.** A stream byte is an integer in 0..255 (`Byte`), not a bit-vector.
- **Each Java loop has a pure reference definition.**
  - The loops `Bitpack`, `Unpack`, `WriteVulong`, `ReadVulong`, `GetMax`, `GetBitWidth`, `FindLongestRun`, `SetRegister`, `DeserializeHLL` and the reconstruction at the end of `deserializeHLL` are methods.
  - Each method is proved to compute its reference definition.
  - The round trips are proved about the reference definitions.
- **Collaborators as parameters.** `HyperLogLog` calls code that the repository does not define, or defines with a different signature. That code becomes parameters, one field each of a `Collaborators` value:
  - the Guava hash function's `bits()`;
  - a sparse `boolean add(long)` and a sparse `getSize()`;
  - `HyperLogLogUtils.sparseToDenseRegister`;
  - the floating-point estimate inside `count()`.

Behaviour of the code that a reader of the class names might not expect, and that the model keeps:

- **Promotion.**
  - A sketch built DENSE has no sparse register.
  - A sketch built SPARSE has no dense register until it is promoted.
  - Promotion keeps the sparse register.
  - `setEncoding` switches the encoding without building the other register. A sketch switched this way throws `NullPointerException` on its next `add` or recomputing `count`.
- **Merge.**
  - `merge` combines only the receiver's dense register.
  - When the receiver has no dense register, `merge` only marks the count dirty.
  - When the receiver has a dense register and the argument does not, `merge` throws `NullPointerException`.
  - A refused merge builds its message with `toString()`, which calls `count()`. It throws `NullPointerException` instead of `IllegalArgumentException` when either sketch must recompute without its register.
- **The sparse register.** `HLLSparseRegister` folds its buffer into a `merge` whose body is empty, so `getSize()` stays 0.
- **Selector 7.** The format's Javadoc (`HyperLogLogUtils.java:88-92`) calls selector 111 unused. `serializeHLL` nevertheless writes selector 7 for counters packed at 7 bits, and `deserializeHLL` rejects it.
- **Register length.** The format's Javadoc (`HyperLogLogUtils.java:98-100`) requires a register length after the estimated count for a SPARSE sketch. `serializeHLL` writes nothing after the count for SPARSE, while `deserializeHLL` reads a register length there.
- **Width 0.** A DENSE register of zeros has bit width 0, so `serializeHLL` writes selector 0, which `deserializeHLL` reads as SPARSE.

## Model

| member | source | states |
|---|---|---|
| Registers.New | src/main/java/hyperloglog/HLLRegister.java:12-18 | `size` zero counters, `numZeroes == size`, max 0, summaries consistent; a negative size fails |
| Registers.Set | src/main/java/hyperloglog/HLLRegister.java:20-39 | updated exactly when the slot exists and the value is larger; then only that slot changes, max and zero count follow; otherwise nothing changes; a negative index throws; consistency preserved |
| Registers.MergeFrom | src/main/java/hyperloglog/HLLRegister.java:57-65 | from slot `i` on, each counter becomes the larger of the two; the zero count drops by the slots newly filled |
| Registers.Merge | src/main/java/hyperloglog/HLLRegister.java:49-70 | length mismatch throws IllegalArgument; otherwise pointwise maximum, zero count less the newly filled slots, max of the two maxima; consistency preserved when the argument's max is accurate |
| Registers.SetRegister | src/main/java/hyperloglog/HLLRegister.java:76-78 | replaces the array and keeps the stale summaries |
| Registers.SetRegisterValidIff | src/main/java/hyperloglog/HLLRegister.java:76-78 | the summaries stay consistent exactly when the new array has the old zero count and max |
| Registers.SetRegisterBreaksValid | src/main/java/hyperloglog/HLLRegister.java:76-78 | a concrete register whose summaries `setRegister` makes inconsistent |
| Registers.SetIdempotent | src/main/java/hyperloglog/HLLRegister.java:20-39 | setting the same slot to the same value twice: the second call updates nothing |
| Registers.SetMonotone | src/main/java/hyperloglog/HLLRegister.java:20-39 | no counter decreases and other slots are untouched |
| Registers.MergeIdempotent | src/main/java/hyperloglog/HLLRegister.java:49-70 | merging the same register twice equals merging it once |
| Registers.MergeCommutative | src/main/java/hyperloglog/HLLRegister.java:49-70 | for consistent registers of equal length, merge order does not matter |
| Registers.MergeAssociative | src/main/java/hyperloglog/HLLRegister.java:49-70 | for consistent registers of equal length, merge grouping does not matter |
| Registers.AllZeroCount | src/main/java/hyperloglog/HLLRegister.java:12-18 | an all-zero array has zero count equal to its length and max 0 |
| Registers.MaxValueIsMax | src/main/java/hyperloglog/HLLRegister.java:24-27 | the maximum bounds every counter and is attained unless it is 0 |
| Registers.UpdateZeroCount | src/main/java/hyperloglog/HLLRegister.java:29-32 | writing one slot changes the zero count by the slot's old and new zero-ness |
| Registers.UpdateMaxValue | src/main/java/hyperloglog/HLLRegister.java:24-27 | raising one slot makes the max the larger of the old max and the value |
| Registers.MergedZeroCount | src/main/java/hyperloglog/HLLRegister.java:57-62 | the zero count of a pointwise maximum is the old count less the newly filled slots |
| Registers.MergedMaxValue | src/main/java/hyperloglog/HLLRegister.java:67-69 | the max of a pointwise maximum is the larger of the two maxima |
| DenseRegisters.New | src/main/java/hyperloglog/HLLDenseRegister.java:16-24 | `2^p` zero counters, zero count `m`, max 0, consistent |
| DenseRegisters.Set | src/main/java/hyperloglog/HLLDenseRegister.java:26-45 | as `HLLRegister.set`, keeping `p` and `m` |
| DenseRegisters.NumZeroes | src/main/java/hyperloglog/HLLDenseRegister.java:51-53 | in a consistent register, the number of zero counters |
| DenseRegisters.Merge | src/main/java/hyperloglog/HLLDenseRegister.java:55-76 | length mismatch throws; otherwise pointwise maximum with updated summaries, consistent when both inputs are |
| DenseRegisters.SetRegister | src/main/java/hyperloglog/HLLDenseRegister.java:82-84 | replaces the array and keeps the summaries |
| DenseRegisters.MaxRegisterValue | src/main/java/hyperloglog/HLLDenseRegister.java:86-88 | in a consistent register, bounds every counter and is attained unless 0 |
| DenseRegisters.SlotIndex | src/main/java/hyperloglog/HLLDenseRegister.java:133 | the low `p` bits of the hash address one of the `m` counters |
| DenseRegisters.HighBits | src/main/java/hyperloglog/HLLDenseRegister.java:136 | the unsigned shift leaves fewer than `64 - p` bits |
| DenseRegisters.RunLength | src/main/java/hyperloglog/HLLDenseRegister.java:139 | one more than the trailing zeros of the high bits: 65 exactly when they are all zero, otherwise at most `64 - p` |
| DenseRegisters.Add | src/main/java/hyperloglog/HLLDenseRegister.java:130-141 | updated exactly when the run length exceeds the addressed counter, which then becomes the run length; consistency preserved |
| DenseRegisters.AddIdempotent | src/main/java/hyperloglog/HLLDenseRegister.java:130-141 | adding the same hash twice: the second add reports no update and changes nothing |
| DenseRegisters.AddMonotone | src/main/java/hyperloglog/HLLDenseRegister.java:130-141 | adding never lowers a counter and changes only the addressed one |
| SparseRegisters.RegisterSize | src/main/java/hyperloglog/HLLSparseRegister.java:22 | `6 * (1 << p)` on 32-bit ints: `6 * 2^p` up to `p % 32 == 28`, negative for 29 and 30, zero for 31 |
| SparseRegisters.SizeCases | src/main/java/hyperloglog/HLLSparseRegister.java:22 | the three cases of the wrapped size |
| SparseRegisters.LowMask | src/main/java/hyperloglog/HLLSparseRegister.java:29 | `(1 << n) - 1` is `2^(n % 32) - 1` |
| SparseRegisters.MaskCases | src/main/java/hyperloglog/HLLSparseRegister.java:29 | the wrapped mask expression equals `2^(n % 32) - 1` |
| SparseRegisters.New | src/main/java/hyperloglog/HLLSparseRegister.java:21-31 | a negative size throws NegativeArraySize; otherwise zeroed lists of a quarter and a thirty-second of the size, empty indices, the given precisions and mask |
| SparseRegisters.NewSizes | src/main/java/hyperloglog/HLLSparseRegister.java:21-24 | for `p <= 28` construction succeeds with lists of `6 * 2^p / 4` and `6 * 2^p / 32` |
| SparseRegisters.NewTooLarge | src/main/java/hyperloglog/HLLSparseRegister.java:22-23 | `p` of 29 or 30 throws NegativeArraySize |
| SparseRegisters.Window | src/main/java/hyperloglog/HLLSparseRegister.java:55 | the extra-precision window lies within the mask |
| SparseRegisters.WindowBits | src/main/java/hyperloglog/HLLSparseRegister.java:55 | with a mask of `j` ones, the window is the `j` bits above bit `qPrime + 1` |
| SparseRegisters.SetLowBit | src/main/java/hyperloglog/HLLSparseRegister.java:59 | sets bit 0 and keeps every other bit |
| SparseRegisters.ClearLowBit | src/main/java/hyperloglog/HLLSparseRegister.java:63 | clears bit 0 and keeps every other bit |
| SparseRegisters.EncodeHash | src/main/java/hyperloglog/HLLSparseRegister.java:53-65 | keeps all but bit 0; bit 0 is set exactly when the window is zero |
| SparseRegisters.EncodeHashIdempotent | src/main/java/hyperloglog/HLLSparseRegister.java:53-65 | encoding an encoded hash changes nothing |
| SparseRegisters.SortBuffer | src/main/java/hyperloglog/HLLSparseRegister.java:41 | the buffer sorted: ascending and a permutation |
| SparseRegisters.Add | src/main/java/hyperloglog/HLLSparseRegister.java:33-47 | -1 exactly when the lists are over-full, then nothing changes; with room in the buffer the encoded hash is appended; with a full buffer it is sorted and emptied; the sparse list and precisions never change |
| SparseRegisters.GetSize | src/main/java/hyperloglog/HLLSparseRegister.java:67-69 | four times the sparse list index |
| SparseRegisters.AddAll | src/main/java/hyperloglog/HLLSparseRegister.java:33-47 | a sequence of adds gives one result per hash and never moves the sparse list index |
| SparseRegisters.AddAllAccepted | src/main/java/hyperloglog/HLLSparseRegister.java:33-47 | from an empty sparse list, every add returns 0 and the size stays 0 |
| SparseRegisters.FreshRegisterAccepts | src/main/java/hyperloglog/HLLSparseRegister.java:21-47 | a newly built register accepts every hash and keeps size 0 |
| Sorting.Sort | src/main/java/hyperloglog/HLLSparseRegister.java:41 | an ascending permutation of the input |
| Sorting.SortIsTheSort | src/main/java/hyperloglog/HLLSparseRegister.java:41 | every ascending permutation of the input equals `Sort`, so `Arrays.sort` is determined |
| HyperLogLogOriginal.RegisterCount | src/main/java/hyperloglog/HyperLogLogOriginal.java:29 | `(int) Math.pow(2, p)`: `2^p` for non-negative `p`, 0 for negative `p` |
| HyperLogLogOriginal.New | src/main/java/hyperloglog/HyperLogLogOriginal.java:27-35 | throws IllegalArgument exactly when the hash width is not positive (Guava's `goodFastHash`); otherwise `m` zero registers and no elements |
| HyperLogLogOriginal.HighBits | src/main/java/hyperloglog/HyperLogLogOriginal.java:63 | the unsigned shift by `p mod 64` never exceeds the unsigned hash |
| HyperLogLogOriginal.SlotIndex | src/main/java/hyperloglog/HyperLogLogOriginal.java:62 | with `m > 0`, the hash modulo `m`; with `m == 0`, the hash's low 32 bits |
| HyperLogLogOriginal.Increment | src/main/java/hyperloglog/HyperLogLogOriginal.java:56 | `numElems++` on a `long`: plus one modulo 2^64, wrapping at the maximum |
| HyperLogLogOriginal.FindLongestRun | src/main/java/hyperloglog/HyperLogLogOriginal.java:77-84 | one more than the number of trailing zero bits of `v`, between 1 and 64 |
| HyperLogLogOriginal.LongestRun | src/main/java/hyperloglog/HyperLogLogOriginal.java:77-84 | the loop's result: 1 to 64, one more than the trailing zeros |
| HyperLogLogOriginal.Add | src/main/java/hyperloglog/HyperLogLogOriginal.java:55-66 | fails exactly when there are no registers; otherwise counts the element and raises only the addressed register to the run length |
| HyperLogLogOriginal.AddCommutes | src/main/java/hyperloglog/HyperLogLogOriginal.java:65 | two hashes added in either order leave the same registers |
| HyperLogLogOriginal.AgreesWithDense | src/main/java/hyperloglog/HyperLogLogOriginal.java:61-65 | from the same counters, adding a hash gives what `HLLDenseRegister.add` gives |
| HyperLogLog.ClampHashBits | src/main/java/hyperloglog/HyperLogLog.java:83-85 | hash widths above 128 become 128; others are unchanged |
| HyperLogLog.New | src/main/java/hyperloglog/HyperLogLog.java:73-99 | throws IllegalArgument exactly when `p` is outside 4..16 or the hash width is not positive (Guava's `goodFastHash`); otherwise `m = 2^p`, the chosen hash width, no cached count, and the register of the requested encoding only |
| HyperLogLog.Fresh | src/main/java/hyperloglog/HyperLogLog.java:78-98 | the fields a successful constructor sets, with the sparse register `new HLLSparseRegister(p, 25, 6)` or a fresh dense one |
| HyperLogLog.PromotionThreshold | src/main/java/hyperloglog/HyperLogLog.java:197 | `(m * 6) / 8` is exactly three quarters of `m` |
| HyperLogLog.Add | src/main/java/hyperloglog/HyperLogLog.java:192-207 | throws NullPointer exactly when the current encoding's register is missing; DENSE adds to the dense register; SPARSE adds to the sparse one and becomes DENSE exactly when its size exceeds three quarters of `m`; the count is invalidated exactly on an update or a promotion |
| HyperLogLog.AddAll | src/main/java/hyperloglog/HyperLogLog.java:192-207 | a sequence of adds keeps `p`, the hash width and validity |
| HyperLogLog.Count | src/main/java/hyperloglog/HyperLogLog.java:209-248 | throws NullPointer exactly when the count must be recomputed and the current encoding's register is missing; otherwise the valid non-negative cached count is returned unchanged, any other is recomputed by the estimator, and the result is stored with the flag cleared |
| HyperLogLog.SetCount | src/main/java/hyperloglog/HyperLogLog.java:250-253 | stores the count and marks it stale; nothing else changes |
| HyperLogLog.SetRegister | src/main/java/hyperloglog/HyperLogLog.java:271-277 | raises each dense counter to the given byte; throws NullPointer exactly when there is no dense register and the array is not empty; consistency preserved |
| HyperLogLog.Merge | src/main/java/hyperloglog/HyperLogLog.java:279-290 | incompatible `p` or hash width throws: NullPointer exactly when `count()` throws on either sketch, as `toString()` calls it, otherwise IllegalArgument; a receiver without a dense register is only invalidated; otherwise pointwise maximum, throwing when the argument has no dense register or a different length |
| HyperLogLog.SetEncoding | src/main/java/hyperloglog/HyperLogLog.java:322-324 | only the encoding changes; both registers are kept |
| HyperLogLog.DenseStaysDense | src/main/java/hyperloglog/HyperLogLog.java:192-207 | a DENSE sketch stays DENSE under any sequence of adds |
| HyperLogLog.AddAllSucceeds | src/main/java/hyperloglog/HyperLogLog.java:192-207 | a sketch that has its current register never throws on add |
| HyperLogLog.FreshSketchAccepts | src/main/java/hyperloglog/HyperLogLog.java:89-98 | a newly built sketch accepts any sequence of hashes |
| HyperLogLog.NeverPromoted | src/main/java/hyperloglog/HyperLogLog.java:197-201 | with this version's `HLLSparseRegister`, whose size stays 0, a SPARSE sketch is never promoted |
| HyperLogLog.CountIsCached | src/main/java/hyperloglog/HyperLogLog.java:213-247 | after a successful `count()` with a non-negative result, a second `count()` returns the same value and state |
| HyperLogLog.NegativeCountRecomputed | src/main/java/hyperloglog/HyperLogLog.java:213 | after a successful `count()` with a negative result, the next call succeeds and recomputes |
| HyperLogLog.SetCountRecomputes | src/main/java/hyperloglog/HyperLogLog.java:250-253 | after `setCount` the next `count()` throws exactly when the current register is missing, and otherwise recomputes |
| HyperLogLog.UpdateRecomputes | src/main/java/hyperloglog/HyperLogLog.java:203-205 | after a dense add that updated a counter, the next `count()` succeeds and recomputes |
| HyperLogLog.SwitchedEncodingCannotCount | src/main/java/hyperloglog/HyperLogLog.java:213-218 | a sketch built SPARSE and switched to DENSE by `setEncoding` throws NullPointer on its first `count()` |
| HyperLogLog.RefusedMergeCanThrowNullPointer | src/main/java/hyperloglog/HyperLogLog.java:279-283 | sketches of different `p`, the argument switched to DENSE by `setEncoding`: the refusal throws NullPointer |
| HyperLogLog.MergeTwice | src/main/java/hyperloglog/HyperLogLog.java:285-287 | merging the same sketch twice leaves the dense register as merging once |
| HyperLogLog.SetRegisterIsMerge | src/main/java/hyperloglog/HyperLogLog.java:271-277 | `setRegister` with a full-length array is the pointwise maximum |
| BitPacking.Pack | src/main/java/hyperloglog/HyperLogLogUtils.java:15-44 | `m` counters at `w` bits fill `m * w / 8` whole bytes |
| BitPacking.Bitpack | src/main/java/hyperloglog/HyperLogLogUtils.java:15-44 | the loop writes the counters' low `w` bits back to back, most significant first, cut into bytes |
| BitPacking.ReadCount | src/main/java/hyperloglog/HyperLogLogUtils.java:53-77 | the bytes the reader takes: at least one, and just enough for `length * w` bits |
| BitPacking.Unpacked | src/main/java/hyperloglog/HyperLogLogUtils.java:53-77 | `length` counters, each below `2^w` |
| BitPacking.Unpack | src/main/java/hyperloglog/HyperLogLogUtils.java:53-77 | the loop yields the `w`-bit fields of the stream and reads the stated number of bytes |
| BitPacking.FieldBelow128 | src/main/java/hyperloglog/HyperLogLogUtils.java:74 | a field of at most 7 bits fits a non-negative byte |
| BitPacking.UnpackOfPack | src/main/java/hyperloglog/HyperLogLogUtils.java:15-77 | unpacking packed counters that fit `w` bits gives them back |
| BitPacking.PackedCount | src/main/java/hyperloglog/HyperLogLogUtils.java:21-43 | when the bits fill whole bytes, the reader takes exactly the bytes written |
| BitPacking.ConcatOfPack | src/main/java/hyperloglog/HyperLogLogUtils.java:21-43 | the packed bytes spell the counters' bits |
| Varints.Encode | src/main/java/hyperloglog/HyperLogLogUtils.java:226-236 | at least one byte |
| Varints.EncodeShape | src/main/java/hyperloglog/HyperLogLogUtils.java:226-236 | only the last byte lacks the continuation bit; the first carries the low 7 bits; one byte exactly for values below 128 |
| Varints.WriteVulong | src/main/java/hyperloglog/HyperLogLogUtils.java:226-236 | the loop writes the encoding of the value read as unsigned, in 1 to 10 bytes |
| Varints.EncodeAtMost10 | src/main/java/hyperloglog/HyperLogLogUtils.java:226-236 | a 64-bit value takes at most 10 bytes |
| Varints.DecodeFrom | src/main/java/hyperloglog/HyperLogLogUtils.java:242-255 | a successful read consumes between 1 and all of the bytes |
| Varints.DecodeFromStops | src/main/java/hyperloglog/HyperLogLogUtils.java:246-253 | reading hits end of file exactly when no byte ends the number; it stops at the first byte below 128 |
| Varints.DecodeVulong | src/main/java/hyperloglog/HyperLogLogUtils.java:242-255 | EndOfFile exactly when every byte has the continuation bit; otherwise the read ends at the first byte without it |
| Varints.ReadVulong | src/main/java/hyperloglog/HyperLogLogUtils.java:242-255 | the loop computes the decoding |
| Varints.DecodeEncodeFrom | src/main/java/hyperloglog/HyperLogLogUtils.java:242-255 | decoding an encoding, whatever follows it, accumulates the value and consumes exactly its bytes |
| Varints.VulongRoundTrip | src/main/java/hyperloglog/HyperLogLogUtils.java:226-255 | `readVulong` reads back what `writeVulong` wrote, for every `long` |
| Varints.ZigZag | src/main/java/hyperloglog/HyperLogLogUtils.java:238-240 | non-negative values double; negative values map to odd numbers |
| Varints.UnZigZag | src/main/java/hyperloglog/HyperLogLogUtils.java:257-260 | even values halve; odd values map to negatives |
| Varints.ZigZagRoundTrip | src/main/java/hyperloglog/HyperLogLogUtils.java:238-260 | the two maps are inverse bijections between `long` and unsigned 64-bit |
| Varints.EncodeSigned | src/main/java/hyperloglog/HyperLogLogUtils.java:238-240 | `writeVslong` writes 1 to 10 bytes, from which `readVslong` reads the value back, consuming all of them |
| Varints.ZigZagDecoded | src/main/java/hyperloglog/HyperLogLogUtils.java:238-260 | the varint of the zig-zag value, whatever follows it, reads back as the original `long` |
| Varints.DecodeVslong | src/main/java/hyperloglog/HyperLogLogUtils.java:257-260 | `readVslong` fails where `readVulong` does, consumes the same bytes and un-zig-zags the value |
| Varints.VslongRoundTrip | src/main/java/hyperloglog/HyperLogLogUtils.java:238-260 | `readVslong` reads back what `writeVslong` wrote |
| Streams.ReadAt | src/main/java/hyperloglog/HyperLogLogUtils.java:247-248 | `in.read()` is the next byte, or -1 exactly at the end |
| Streams.OctetAt | src/main/java/hyperloglog/HyperLogLogUtils.java:203-205 | a read kept to 8 bits is the byte, or 255 at the end |
| Codec.GetMax | src/main/java/hyperloglog/HyperLogLogUtils.java:142-150 | the loop yields the maximum counter, 0 when none is positive |
| Codec.MaxValueBelow128 | src/main/java/hyperloglog/HyperLogLogUtils.java:142-150 | the maximum of a byte array is at most 127 |
| Codec.BitWidth | src/main/java/hyperloglog/HyperLogLogUtils.java:212-219 | the least width that holds the value: below `2^w` and not below `2^(w-1)` |
| Codec.BitWidthIsLeast | src/main/java/hyperloglog/HyperLogLogUtils.java:212-219 | any width that holds the value is at least `BitWidth` |
| Codec.GetBitWidth | src/main/java/hyperloglog/HyperLogLogUtils.java:212-219 | the shifting loop counts the value's bit width |
| Codec.WidthAtMost7 | src/main/java/hyperloglog/HyperLogLogUtils.java:124-126 | a dense register's width is at most 7, so `bitWidth & 7` keeps it whole |
| Codec.CountersFitWidth | src/main/java/hyperloglog/HyperLogLogUtils.java:124-125 | every non-negative counter fits the width of the maximum |
| Codec.CheckMagic | src/main/java/hyperloglog/HyperLogLogUtils.java:201-210 | succeeds exactly when the stream starts with "HLL", reading 3 bytes; otherwise IllegalArgument |
| Codec.Selector | src/main/java/hyperloglog/HyperLogLogUtils.java:119-129 | 0 for SPARSE; for DENSE the bit width |
| Codec.HashFlag | src/main/java/hyperloglog/HyperLogLogUtils.java:114-117 | bit 3 is set exactly for hash widths above 32 |
| Codec.HeaderByte | src/main/java/hyperloglog/HyperLogLogUtils.java:111-131 | the written byte holds `p mod 16`, the hash flag and the selector in their fields |
| Codec.HeaderOf | src/main/java/hyperloglog/HyperLogLogUtils.java:154-167 | the header fields of a byte: `p` in 0..15, 32 or 128 hash bits, bit size 0 exactly for SPARSE and at most 7; the fields reassemble the byte |
| Codec.DecodeHeaderAsWritten | src/main/java/hyperloglog/HyperLogLogUtils.java:163-173 | rejects exactly selector 7 with IllegalArgument; otherwise the header fields |
| Codec.HeaderOfWellFormed | src/main/java/hyperloglog/HyperLogLogUtils.java:154-173 | every byte decodes to a 4-bit `p`, 32 or 128 hash bits and a width of 0 exactly for SPARSE |
| Codec.HeaderRoundTrip | src/main/java/hyperloglog/HyperLogLogUtils.java:111-173 | the reader gets back `p mod 16`, the hash width class and the selector; the reader as written accepts exactly selectors below 7 |
| Codec.WidthFor | src/main/java/hyperloglog/HyperLogLogUtils.java:119-129 | 0 for SPARSE; for DENSE the bit width of the maximum counter, at most 7 |
| Codec.Serialized | src/main/java/hyperloglog/HyperLogLogUtils.java:108-140 | the stream starts with "HLL" and the header byte for the sketch's `p`, hash width and selector |
| Codec.SerializeHLL | src/main/java/hyperloglog/HyperLogLogUtils.java:108-140 | the writes produce the magic, header byte, varint count and, for DENSE, the packed register |
| Codec.SerializedParts | src/main/java/hyperloglog/HyperLogLogUtils.java:108-140 | the stream is magic, header byte, count and packed register, in that order |
| Codec.BodyOf | src/main/java/hyperloglog/HyperLogLogUtils.java:131-139 | after the 4 header bytes come the count's varint and the packed register, nothing else |
| Codec.DecodeBody | src/main/java/hyperloglog/HyperLogLogUtils.java:175-185 | a decoded body keeps the header and has a register exactly for DENSE, of `2^p` counters |
| Codec.ReadBody | src/main/java/hyperloglog/HyperLogLogUtils.java:175-185 | the reads after the header compute the decoded body |
| Codec.DecodeRegister | src/main/java/hyperloglog/HyperLogLogUtils.java:178-185 | SPARSE reads and discards an entry count; DENSE unpacks `2^p` counters |
| Codec.ReadRegister | src/main/java/hyperloglog/HyperLogLogUtils.java:178-185 | the reads of the register part compute its decoding |
| Codec.SkipEntryCount | src/main/java/hyperloglog/HyperLogLogUtils.java:179-181 | SPARSE: reads one varint and keeps no register |
| Codec.ReadDenseRegister | src/main/java/hyperloglog/HyperLogLogUtils.java:182-185 | DENSE: unpacks `1 << p` counters of `bitSize` bits |
| Codec.DeserializeAsWritten | src/main/java/hyperloglog/HyperLogLogUtils.java:152-185 | IllegalArgument exactly for a bad magic string or selector 7 |
| Codec.Deserialize | src/main/java/hyperloglog/HyperLogLogUtils.java:152-185 | the corrected reader: IllegalArgument exactly for a bad magic string |
| Codec.DeserializeHLL | src/main/java/hyperloglog/HyperLogLogUtils.java:152-185 | the reads compute the reader as written |
| Codec.DeserializeHLLCorrected | src/main/java/hyperloglog/HyperLogLogUtils.java:152-185 | the same reads with selector 7 accepted compute the corrected reader |
| Codec.DenseRoundTrip | src/main/java/hyperloglog/HyperLogLogUtils.java:108-185 | the corrected reader gives back the header, count and exact counters of a serialized DENSE sketch, consuming the whole stream |
| Codec.SelectorSevenRejected | src/main/java/hyperloglog/HyperLogLogUtils.java:126 | a DENSE register with a counter of 64 or more serializes to a stream the reader as written rejects |
| Codec.ZeroDenseUnreadable | src/main/java/hyperloglog/HyperLogLogUtils.java:166-167 | an all-zero DENSE register is written with selector 0, read as SPARSE, and hits end of file |
| Codec.SparseUnreadable | src/main/java/hyperloglog/HyperLogLogUtils.java:179-180 | a serialized SPARSE sketch lacks the entry count the reader expects, so reading hits end of file |
| Codec.DenseWidth | src/main/java/hyperloglog/HyperLogLogUtils.java:124-126 | the corrected width: the bit width of the maximum counter, or 1 for a register of zeros, always 1 to 7 |
| Codec.FitsDenseWidth | src/main/java/hyperloglog/HyperLogLogUtils.java:124-126 | every non-negative counter fits the corrected width |
| Codec.SerializedDense | src/main/java/hyperloglog/HyperLogLogUtils.java:108-140 | the corrected DENSE writer: magic and a header byte with the corrected width |
| Codec.SerializedDenseAgrees | src/main/java/hyperloglog/HyperLogLogUtils.java:124-139 | the corrected DENSE writer writes what `serializeHLL` writes whenever some counter is positive |
| Codec.DenseWidthRoundTrip | src/main/java/hyperloglog/HyperLogLogUtils.java:108-185 | with the corrected writer and reader, every DENSE sketch with `p <= 15` reads back exactly, a register of zeros included |
| Codec.SerializedSparse | src/main/java/hyperloglog/HyperLogLogUtils.java:108-140 | the corrected SPARSE writer: magic and a header byte with selector 0 |
| Codec.SerializedSparseExtends | src/main/java/hyperloglog/HyperLogLogUtils.java:133-139 | the corrected SPARSE writer is `serializeHLL`'s output followed by the register length |
| Codec.SparseRoundTrip | src/main/java/hyperloglog/HyperLogLogUtils.java:108-185 | both readers read the corrected SPARSE stream back: header fields and estimated count, consuming every byte |
| Codec.SparseBody | src/main/java/hyperloglog/HyperLogLogUtils.java:175-181 | a SPARSE body of the count and the register length decodes to the count, consuming both |
| Codec.NothingAfterCount | src/main/java/hyperloglog/HyperLogLogUtils.java:179-180 | with width 0 nothing follows the count, so the entry-count read fails |
| Codec.Reconstruct | src/main/java/hyperloglog/HyperLogLogUtils.java:187-190 | `new HyperLogLog(p, hb)`, `setEncoding`, `setRegister`, `setCount`: IllegalArgument exactly for `p` below 4; otherwise NullPointer unless the register is an empty array |
| Codec.DecodedRegisterNotEmpty | src/main/java/hyperloglog/HyperLogLogUtils.java:178-185 | a decoded stream has a well-formed header and a register that is `null` or has `2^p` counters, never empty |
| Codec.DeserializeHLLFully | src/main/java/hyperloglog/HyperLogLogUtils.java:152-192 | `deserializeHLL` never returns a sketch: the reader's error, IllegalArgument for `p` below 4, otherwise NullPointer |
| Codec.DecodedCountersNonNegative | src/main/java/hyperloglog/HyperLogLogUtils.java:182-185 | every counter the corrected reader unpacks is non-negative |
| Codec.ReconstructCorrected | src/main/java/hyperloglog/HyperLogLogUtils.java:187-190 | building with the decoded encoding: IllegalArgument exactly for `p` below 4; otherwise the decoded `p`, encoding and count, the current register present, and a DENSE sketch holding exactly the decoded counters |
| Codec.DeserializeHLLFullyCorrected | src/main/java/hyperloglog/HyperLogLogUtils.java:152-192 | corrected reader and reconstruction: the reader's error, or a sketch exactly when `p >= 4`, with the decoded fields and counters |
| Codec.DenseSketchRoundTrip | src/main/java/hyperloglog/HyperLogLogUtils.java:108-192 | a DENSE sketch with `4 <= p <= 15` written by the corrected writer comes back with its `p`, count and exact counters |
| Codec.SparseSketchRoundTrip | src/main/java/hyperloglog/HyperLogLogUtils.java:108-192 | a SPARSE sketch with `4 <= p <= 15` written by the corrected writer comes back with its `p` and count |
| Codec.EstimatedCount | src/main/java/hyperloglog/HyperLogLogUtils.java:195-199 | fails only with IllegalArgument or EndOfFile |
| Codec.EstimatedCountOfSerialized | src/main/java/hyperloglog/HyperLogLogUtils.java:195-199 | the fast path reads back the count of any serialized sketch, SPARSE or DENSE |
| JavaInts.Unsigned64 | src/main/java/hyperloglog/HyperLogLogOriginal.java:63 | a `long`'s bits read as unsigned: unchanged if non-negative, plus 2^64 otherwise |
| JavaInts.Wrap32 | src/main/java/hyperloglog/HyperLogLogOriginal.java:62 | the `(int)` cast: equal modulo 2^32, unchanged within range |
| JavaInts.TrailingZeros64 | src/main/java/hyperloglog/HLLDenseRegister.java:139 | `Long.numberOfTrailingZeros`: 64 exactly for 0, else the exact trailing zero count |
| JavaInts.IntShiftLeft | src/main/java/hyperloglog/HLLSparseRegister.java:22 | `x << n` on `int`: `x * 2^(n mod 32)` modulo 2^32 |
| JavaInts.OneShiftedLeft | src/main/java/hyperloglog/HLLSparseRegister.java:22 | `1 << n` is `2^(n mod 32)`, or the minimum `int` at 31 |
| JavaInts.IntShiftRight | src/main/java/hyperloglog/HLLSparseRegister.java:55 | `x >> n` on `int` is the `r` with `2^k * r <= x < 2^k * (r + 1)` for `k = n mod 32`: division rounded down, negative values included |
| JavaInts.IntAnd | src/main/java/hyperloglog/HLLSparseRegister.java:55 | `x & mask` with a non-negative mask lies within the mask |
| JavaInts.IntAndLowMask | src/main/java/hyperloglog/HLLSparseRegister.java:55 | `x & (2^j - 1)` is `x mod 2^j` |
| JavaInts.IntDiv | src/main/java/hyperloglog/HLLSparseRegister.java:23-24 | Java's `/` truncates: floor for non-negative `a`; for negative `a`, `a <= b * q < a + b`, so the quotient rounds toward zero |

## Left out

- Hashing: Guava's hash functions, the typed `add*` methods and `getHashCode`. The model takes the hash as a `long` input, and `hf.bits()` is the collaborator `hashBits`.
- Floating point, which has no exact model here:
  - `initializeAlpha` and `alphaMM`, and the inverse-power array `invPow2Register` with `getSumInversePow2`;
  - `linearCount`, `getStandardError`, `getRelativeError` and `HLLResult`;
  - `HyperLogLogOriginal.count`, its `alpha` and `shortRangeThreshold`.
- HyperLogLog.Count: the estimate itself is the collaborator `estimate`. Only the caching around it is modelled.
- HyperLogLog.Add: requires a lawful collaborator, whose `sparseToDenseRegister` returns a register with `m = 2^p`. Two parts of `HyperLogLog.add` are parameters:
  - its sparse calls `add(long)` returning `boolean` and `getSize()`, which this version's `HLLSparseRegister` does not offer with that signature;
  - `HyperLogLogUtils.sparseToDenseRegister`, which is not part of this model.
- `HyperLogLogUtils.serializeHLL` calls `hll.getRegister()`, which `HyperLogLog` does not define. Codec.SerializeHLL therefore takes the register, the encoding and the count as parameters.
- Codec.Deserialize: stops at the decoded fields. The reconstruction of a `HyperLogLog` object (`HyperLogLogUtils.java:187-190`) is modelled separately, by `Reconstruct` and `DeserializeHLLFully`. As written, it never returns a sketch (see Findings).
- Codec.DenseRoundTrip: requires `p <= 15` and a positive maximum counter.
  - The header keeps `p` in 4 bits; HeaderRoundTrip shows that `p = 16` comes back as 0.
  - An all-zero register is written with selector 0; ZeroDenseUnreadable shows that it then reads as SPARSE. DenseWidthRoundTrip covers it with the corrected width.
- Codec.DenseWidthRoundTrip: requires `p <= 15`, for the same 4-bit header field.
- Codec.SerializedSparse: the register length is a parameter, and no sparse entries follow it, because this version serializes none and its reader skips them (`HyperLogLogUtils.java:180-181`).
- Codec.SerializeHLL: requires non-negative counters for DENSE. Every register built by `set`, `add` and `merge` has them.
- BitPacking.Bitpack: requires counters that fit `w` bits. The serializer guarantees this with `getBitWidth(getMax(register))`.
- BitPacking.Unpack: requires `1 <= w <= 7`. The reader only calls it with widths 1 to 6, or 7 in the corrected reader.
- Codec.GetBitWidth: requires an input in 0..127, the range of `getMax` on a byte array.
- HyperLogLogOriginal.New: requires `p <= 30`. For `p >= 31`, `Math.pow` saturates the `int` cast and the array exceeds what the JVM allocates.
- DenseRegisters.New: requires `0 <= p <= 30` (its `p` is a `nat`), where `1 << p` is `2^p`. The sketch only uses 4 to 16.
  - For a negative `p`, Java takes the shift distance modulo 32. Whenever `p mod 32` is 31 (`p = -1`, say, or `p = 31` above the bound), `1 << p` is negative and `new byte[m]` throws NegativeArraySizeException.
  - For other negative `p`, the array is as large as `2^(p mod 32)`.
- HyperLogLogOriginal.FindLongestRun: requires a non-zero argument, because the Java loop never terminates on 0.
- HyperLogLogOriginal.Add: requires non-zero high bits of the hash, for the same reason.
- HyperLogLogOriginal.Add: on an empty register array the Java code has already incremented `numElems` when the access throws. The model's error carries no sketch.
- SparseRegisters.EncodeHashIdempotent: requires `(qPrime + 1) % 32 != 0`. For a shift distance of 0 the window includes bit 0, which the encoding rewrites.
- HyperLogLog.SetRegister: a `null` array is not modelled.
- HyperLogLog.Merge: a `null` argument is not modelled. `merge(null)` throws NullPointerException reading `hll.p` (`HyperLogLog.java:280`).
- The empty `HLLSparseRegister.merge` is modelled by `Add` leaving the sparse list unchanged. The unused `sparseMap` field is left out.
- `toString`: its text is not modelled. Its call to `count()` is, where it matters, in HyperLogLog.Merge.
- HyperLogLog.Merge: a refused merge's error carries no sketch, so the counts that `toString()` caches in both sketches before the exception are lost.
- `toStringExtended`, `equals`, `hashCode` and plain getters and setters (`getHLLRegister`, `setHLLRegister`, `getNumRegisterIndexBits`, `getNumHashBits`, `getEncoding`, `size`, `getRegister`, `getPPrime`). They compute nothing the model needs.
- The command-line tool, graphs and benchmarks are outside the core.
- Bytes of a stream are integers in 0..255, not `bv8` bit-vectors. The two are equivalent here, and integers keep every bit operation an arithmetic fact.

## Findings

| source | as written | input that shows it | evidently intended | confidence | as-written member | corrected member |
|---|---|---|---|---|---|---|
| src/main/java/hyperloglog/HyperLogLogUtils.java:126 | `serializeHLL` writes selector `bitWidth & 7`, which is 7 when the largest counter is 64 or more; `deserializeHLL` (line 168) accepts only selectors 1 to 6 and throws on 7 | a DENSE sketch that added the hash 0: `HLLDenseRegister.add` stores 65 in slot 0, so the width is 7 and the stream is rejected | the reader accepts every width the writer emits, unpacking 7-bit counters for selector 7 | not executed | Codec.SelectorSevenRejected | Codec.DenseRoundTrip |
| src/main/java/hyperloglog/HyperLogLogUtils.java:136-139 | `serializeHLL` writes nothing after the estimated count of a SPARSE sketch; `deserializeHLL` (line 180) reads a register length there | any SPARSE sketch: its stream ends after the count's varint, so the reader hits end of file | the writer emits the register length that the format's Javadoc (lines 98-100) requires for SPARSE | not executed | Codec.SparseUnreadable | Codec.SparseRoundTrip |
| src/main/java/hyperloglog/HyperLogLogUtils.java:124-126 | a DENSE register of zeros has bit width 0, so `serializeHLL` writes selector 0; `deserializeHLL` (line 166) reads selector 0 as SPARSE | a freshly built DENSE sketch: selector 0, no register bytes, and the register-length read hits end of file | a DENSE register is packed with at least 1 bit per counter, so its selector is never 0 | not executed | Codec.ZeroDenseUnreadable | Codec.DenseWidthRoundTrip |
| src/main/java/hyperloglog/HyperLogLogUtils.java:187-190 | the reconstruction builds `new HyperLogLog(p, hb)`, which is SPARSE without a dense register, then calls `setRegister` with the decoded array | any stream the reader decodes: a SPARSE one passes `null` to `setRegister`, which throws NullPointerException at `HyperLogLog.java:273`; a DENSE one throws at line 274 on `denseRegister.set`; a header `p` below 4 throws IllegalArgumentException at line 74 | the sketch is built with the decoded encoding and only a DENSE register is set, so a decoded sketch comes back | not executed | Codec.DeserializeHLLFully | Codec.DeserializeHLLFullyCorrected |
