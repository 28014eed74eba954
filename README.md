# BloomFilter in Dafny

A model of a small Java Bloom filter and the MurmurHash2 port that drives
it. The filter is `BloomFilter<T>`: an odd number of one-byte buckets. To add
an item, `khash` computes k hashes of its bytes, each MurmurHash2 run seeded
with the previous hash. For each hash, `getIndex` picks a bucket (`hash %
size`) and a bit within it (`hash % 8`), and `add` ORs `(byte)(1 << bit)` into
that bucket. `contains` tests the same bits with `Math.abs(b >> bit) % 2` and
answers false at the first one that is unset.

The project has three modules:

- `JavaInt` (`java_int.dfy`): Java's 32-bit `int` and 8-bit `byte` as the
  bit-vectors `bv32` and `bv8`, and the Java operators whose meaning differs
  from Dafny's. These are the truncating `%` (`Rem`), the arithmetic `>>`
  (`Sar`), the shift distance masked to five bits (`ShiftDistance`),
  `Math.abs` (`Abs`), and the widening and narrowing casts (`SignExtend`,
  `Narrow`). Java's `int` multiplication and XOR are `Mul` and `Xor`; the
  product wraps modulo 2^32 because it is `bv32` arithmetic.
- `MurmurHash` (`murmur_hash.dfy`): the hash exactly as the Java port
  computes it.
  - Words are read from the end of the key backward, each built big-endian
    from sign-extended bytes.
  - The 0-3 leftover bytes are the first bytes of the key, handled by a
    fall-through switch.
  - Every `>>` is arithmetic.
  - `Hash` is the functional specification, built from `FoldWords`,
    `Tail` and `Finalize`. Each phase of the Java method is a method proved
    equal to one of these parts: `MixWords` (the loop) to `FoldWords` over
    `ChunkWords`, `MixTail` (the switch) to `Tail`, and `Avalanche` (the
    finaliser) to `Finalize`. `MurmurHash2` runs the three in sequence and
    is proved equal to `Hash`.
  - The two byte/int helpers are `ConstructIntFromBytes` and
    `ConstructBytesFromInt`.
- `BloomFilter` (`bloom_filter.dfy`):
  - `BucketCount` is the constructor's size normalisation.
  - `KHashes` is khash's chain, stated through `Chain` for any hash function.
  - `Index` is getIndex; `Mask` and `BitTest` are add's mask and contains's
    test.
  - `Insert` and `Probe` are the filter's contents after add and contains's
    answer.
  - The class `Filter` holds `k`, `size` and the `byte[]` as an
    `array<bv8>`. Its constructor, `KHash`, `Add` and `Contains` are proved
    against those functions.

MurmurHash2's final `h ^= h >> 15` copies the sign bit into bit 31, and the
XOR then clears it, so every hash is a non-negative `int` (`Finalize`,
`Hash`). So the negative-bucket and negative-bit paths of getIndex never
happen inside the filter. They are still described: `Index` states its
ranges for negative hashes, and `NegativeHashLosesItsBit` shows what a
negative hash would do.

## Model

| member | source | states |
|---|---|---|
| JavaInt.Rem | src/BloomFilter/BloomFilter.java:112-113 | Java's `%` for a positive divisor: equals the Euclidean remainder for a non-negative dividend. For a negative one it is 0 or that remainder minus the divisor, so it takes the dividend's sign and lies strictly between -b and b |
| JavaInt.Abs | src/BloomFilter/BloomFilter.java:81 | `Math.abs`: non-negative and equal to a or -a, except that Integer.MIN_VALUE is returned unchanged |
| JavaInt.Sar | src/BloomFilter/MurmurHash.java:27 | the arithmetic `>>`: on a non-negative operand it is the logical shift; on a negative one it is the logical shift with the vacated top n bits set to the sign; either way the sign is kept |
| JavaInt.SignExtend | src/BloomFilter/MurmurHash.java:35-37 | widening a `byte` to an `int` (in the switch here and in constructIntFromBytes at MurmurHash.java:58-61): the low byte is the byte itself, and the upper bits are all clear for a byte below 0x80 and all set for one at 0x80 or above |
| JavaInt.Narrow | src/BloomFilter/MurmurHash.java:75-78 | the cast `(byte)`: the result is the low eight bits of the `int` |
| JavaInt.SignExtendKeepsValue | src/BloomFilter/MurmurHash.java:58-61 | widening a byte to an `int` keeps its signed value |
| JavaInt.NarrowedShift | src/BloomFilter/MurmurHash.java:75-77 | `(byte)(x >> n)` for n = 8, 16, 24 is bits n..n+7 of x, as with a logical shift |
| JavaInt.ShiftDistance | src/BloomFilter/BloomFilter.java:64 | the distance `1 << n` shifts by is below 32 |
| MurmurHash.ConstructIntFromBytes | src/BloomFilter/MurmurHash.java:55-64 | the four shift-and-OR statements return `WordAt`: the four sign-extended bytes placed big-endian and OR-ed |
| MurmurHash.WordAtBigEndian | src/BloomFilter/MurmurHash.java:55-63 | with all four bytes in 0..127 the word is b0·2^24 + b1·2^16 + b2·2^8 + b3 |
| MurmurHash.WordAtNegativeLastByte | src/BloomFilter/MurmurHash.java:61 | a negative last byte makes the word that byte's sign-extended value, whatever the first three bytes |
| MurmurHash.ConstructBytesFromInt | src/BloomFilter/MurmurHash.java:72-81 | returns a fresh four-byte array holding `(byte)(data >> 8i)` at index i |
| MurmurHash.LittleEndianLane | src/BloomFilter/MurmurHash.java:75-78 | byte i of constructBytesFromInt's result is bits 8i..8i+7 of the argument, for every sign |
| MurmurHash.LittleEndianRoundTrip | src/BloomFilter/MurmurHash.java:72-80 | reading the four bytes back little-endian as unsigned bytes gives the argument |
| MurmurHash.HelpersReverseByteOrder | src/BloomFilter/MurmurHash.java:55-81 | constructIntFromBytes applied to constructBytesFromInt(x) reverses x's bytes whenever no byte is negative (e.g. 1 becomes 0x01000000), so the helpers are not inverses |
| MurmurHash.ChunkWordsOffsets | src/BloomFilter/MurmurHash.java:23-24 | the loop reads floor(len/4) words: word i at offset len - 4(i+1), the first at len-4 and the last at len mod 4 |
| MurmurHash.MixWords | src/BloomFilter/MurmurHash.java:23-32 | the loop leaves len mod 4 bytes and h equal to the words folded in, from the end of the key backward |
| MurmurHash.MixTail | src/BloomFilter/MurmurHash.java:34-39 | the fall-through switch computes `Tail`: case 3 runs into case 2 and case 2 into case 1 |
| MurmurHash.TailClosedForm | src/BloomFilter/MurmurHash.java:34-39 | the switch XORs in key[j] << 8j for the leftover bytes and multiplies by M exactly once when any byte is left, not at all when none is |
| MurmurHash.TailReadsPrefix | src/BloomFilter/MurmurHash.java:34-37 | the switch reads only the first len mod 4 bytes of the key |
| MurmurHash.Avalanche | src/BloomFilter/MurmurHash.java:41-43 | the three finaliser statements compute `Finalize` |
| MurmurHash.Finalize | src/BloomFilter/MurmurHash.java:41-43 | the finaliser's result is never a negative `int` |
| MurmurHash.Hash | src/BloomFilter/MurmurHash.java:19-46 | MurmurHash2 never returns a negative `int` |
| MurmurHash.MurmurHash2 | src/BloomFilter/MurmurHash.java:19-46 | the method returns `Hash(key, seed)`: h starts as seed ^ length, then the backward word loop, the switch and the finaliser |
| MurmurHash.HashOfEmpty | src/BloomFilter/MurmurHash.java:19-45 | for the empty key only the finaliser runs on the seed, and MurmurHash2([], 0) == 0 |
| MurmurHash.HashOfOneByte | src/BloomFilter/MurmurHash.java:19-45 | for a one-byte key the hash is the finaliser of (seed ^ 1 ^ sext(b)) * M |
| BloomFilter.BucketCount | src/BloomFilter/BloomFilter.java:40-49 | with q = max(size, 8) / 8, the bucket count is q or q + 1, odd and at least 1 |
| BloomFilter.BucketCountExamples | src/BloomFilter/BloomFilter.java:40-49 | requested sizes 8, 16, 1, -5, 24, 100 give 1, 3, 1, 1, 3, 13 buckets |
| BloomFilter.Filter.constructor | src/BloomFilter/BloomFilter.java:36-52 | k is kept unchanged, size is `BucketCount` of the request, and the new array has size bytes, all zero |
| BloomFilter.ChainPrefix | src/BloomFilter/BloomFilter.java:99-103 | a seed-chained sequence of hashes of length m is the prefix of the one of length n |
| BloomFilter.KHashesPrefix | src/BloomFilter/BloomFilter.java:99-103 | the first m hashes khash computes do not depend on k |
| BloomFilter.KHashesChain | src/BloomFilter/BloomFilter.java:96-107 | hashes[0] = MurmurHash2(item, 0) and hashes[i] = MurmurHash2(item, hashes[i-1]) |
| BloomFilter.ChainNonNegative | src/BloomFilter/BloomFilter.java:99-103 | chaining a hash that is never negative gives only non-negative values |
| BloomFilter.KHashesNonNegative | src/BloomFilter/BloomFilter.java:101 | every hash khash returns is a non-negative `int` |
| BloomFilter.Filter.KHash | src/BloomFilter/BloomFilter.java:96-107 | khash returns a fresh array of exactly k hashes equal to `KHashes(item, k)` |
| BloomFilter.Index | src/BloomFilter/BloomFilter.java:110-116 | a non-negative hash gives a bucket in [0, size) and a bit in [0, 8); a negative one gives a bucket in (-size, 0] and a bit in (-8, 0] |
| BloomFilter.IndexRemainders | src/BloomFilter/BloomFilter.java:110-116 | for a non-negative hash the bucket and bit are hash mod size and hash mod 8; for a negative one the bucket is negative exactly when size does not divide the hash, likewise the bit and 8 |
| BloomFilter.BitDistance | src/BloomFilter/BloomFilter.java:64 | a bit 0..7 is shifted by exactly that distance |
| BloomFilter.NegativeBitDistance | src/BloomFilter/BloomFilter.java:64 | a bit -7..-1 wraps around to the distance 32 + bit |
| BloomFilter.Mask | src/BloomFilter/BloomFilter.java:64 | add's mask `(byte)(1 << bit)`: for a bit 0..7 the byte with only that bit set; for a bit -7..-1 the shift wraps past the byte and the mask is 0 |
| BloomFilter.BitTest | src/BloomFilter/BloomFilter.java:81 | contains's test `Math.abs(b >> bit) % 2 == 1` on the widened byte: for a bit 0..7 it holds exactly when bit `bit` of the unsigned byte is 1 |
| BloomFilter.BitTestExact | src/BloomFilter/BloomFilter.java:81 | for bits 0..7 the test `Math.abs(b >> bit) % 2 == 1` on a signed byte holds exactly when unsigned bit `bit` of b is set, the bit add's mask sets |
| BloomFilter.MaskIsOneBit | src/BloomFilter/BloomFilter.java:64-65 | the mask of a bit 0..7 is non-zero, and OR-ing it into a byte leaves the byte unchanged exactly when that bit is already set |
| BloomFilter.NegativeBit | src/BloomFilter/BloomFilter.java:62-83 | a negative bit makes the mask 0, and contains's test then reads the byte's sign instead |
| BloomFilter.NegativeHashLosesItsBit | src/BloomFilter/BloomFilter.java:62-83 | a negative hash that size divides and 8 does not selects bucket 0 and adds nothing there; contains then reports it only if that byte is negative |
| BloomFilter.SetBitSets | src/BloomFilter/BloomFilter.java:64-65 | one turn of add's loop sets the hash's bit |
| BloomFilter.SetBitGrows | src/BloomFilter/BloomFilter.java:64-65 | one turn of add's loop clears no bit |
| BloomFilter.SetBitWhenSet | src/BloomFilter/BloomFilter.java:64-65 | one turn of add's loop changes nothing when the bit is already set |
| BloomFilter.InsertGrows | src/BloomFilter/BloomFilter.java:59-66 | add never clears a bit: every old byte is a bitwise subset of the new byte, and the length is unchanged |
| BloomFilter.InsertFrame | src/BloomFilter/BloomFilter.java:62-66 | add changes no byte outside the buckets its hashes select |
| BloomFilter.InsertSetsAll | src/BloomFilter/BloomFilter.java:62-66 | after add every bit its hashes select is set |
| BloomFilter.InsertWhenAllSet | src/BloomFilter/BloomFilter.java:62-66 | add changes nothing when all its bits are set already |
| BloomFilter.InsertIdempotent | src/BloomFilter/BloomFilter.java:59-66 | adding the same hashes a second time leaves the contents unchanged |
| BloomFilter.ProbeIffAllSet | src/BloomFilter/BloomFilter.java:75-86 | contains's answer is true exactly when all the selected bits are set |
| BloomFilter.ProbeStep | src/BloomFilter/BloomFilter.java:78-84 | the test passes on j + 1 hashes exactly when it passes on j and on hashes[j]; one failing hash fails the whole test |
| BloomFilter.ProbeAfterInsert | src/BloomFilter/BloomFilter.java:59-86 | right after add, contains answers true for the same hashes |
| BloomFilter.ProbeStable | src/BloomFilter/BloomFilter.java:59-86 | a true answer from contains stays true after any further add |
| BloomFilter.StaysFound | src/BloomFilter/BloomFilter.java:59-86 | a true answer stays true while any sequence of items is added |
| BloomFilter.NoFalseNegatives | src/BloomFilter/BloomFilter.java:59-86 | once an item is added, contains answers true for it however many items are added afterwards, since all of its hashes are non-negative |
| BloomFilter.Filter.Add | src/BloomFilter/BloomFilter.java:59-67 | the array becomes `Insert` of its old contents and the item's k hashes, updated in place; k, size and the array reference are untouched |
| BloomFilter.Filter.Contains | src/BloomFilter/BloomFilter.java:75-86 | answers `Probe` of the array and the item's k hashes, returning early at the first unset bit, and modifies nothing |

## Left out

- `estimateFalsePositiveProbability` (src/BloomFilter/BloomFilter.java:127-133) is floating-point arithmetic with `Math.pow` and `Math.E`, so it is not modelled.
- The `Filter<T>` interface (src/BloomFilter/Filter.java) declares only the two method signatures and has no logic. `Filter` in the model is the class itself.
- `item.toString().getBytes()` depends on `toString` and the platform charset. The item is given as the byte sequence that call would yield, and the type parameter `T` is dropped.
- `INDEX_SIZE` is a mutable `public static` field. It is the constant `IndexSize = 8`; reassigning it is not modelled.
- MurmurHash2 only reads its `byte[]` key, so the key is a `seq<bv8>`, not an array.
- BloomFilter.Filter.KHash: negative k makes `new int[k]` throw. `KHash`, `Add` and `Contains` require k >= 0 instead of modelling the exception. The constructor, like the source, accepts any k.
- BloomFilter.SetBit: the hash must be non-negative, and so must the hashes of `Insert`, `IsSet`, `Tested` and `Probe`. A negative bucket would throw `ArrayIndexOutOfBoundsException`, and that exception is not modelled. It cannot happen, because `KHashesNonNegative` proves that every hash khash returns is non-negative. `Index` and `NegativeHashLosesItsBit` describe what a negative hash would do.
- JavaInt.Rem: only positive divisors are modelled. The source divides only by 8 and by the bucket count, which is at least 1.
- JavaInt.ShiftDistance: its contract states only that the distance is below 32. The exact value is proved for the bits -7..7 that getIndex can produce (`BitDistance`, `NegativeBitDistance`), not for every `int`.
- MurmurHash.MurmurHash2: the method is split into its loop (`MixWords`), its switch (`MixTail`) and its finaliser (`Avalanche`). These run in sequence, as in the source, and the result is proved equal to `Hash`.
- MurmurHash.Hash: `key.length` enters as the length reduced modulo 2^32 (`LengthBits`). Java array lengths stay below 2^31, so this loses nothing.
- BloomFilter.Filter.constructor: the requested size is an unbounded integer. For a Java `int` argument, size / 8 + 1 cannot overflow, so the results agree.
- Exceptions in general (a `null` item, out-of-memory) and concurrency are not modelled; the source has no synchronisation.
