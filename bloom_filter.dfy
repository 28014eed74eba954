/**
 * The Bloom filter: an odd number of one-byte buckets, each item setting
 * one bit in k of them. The k hashes are MurmurHash2 chained through its
 * seed, and a hash picks bucket `hash % size` and bit `hash % 8` with Java's
 * truncating remainder.
 */
module BloomFilter {
  import opened JavaInt
  import MurmurHash

  /** INDEX_SIZE: the bits in one bucket. */
  const IndexSize: int := 8

  // ---------------------------------------------------------------------------
  // Construction

  /** The bucket count the constructor settles on for a requested size:
      with q the requested size (raised to at least 8) divided by 8, the odd
      one of q and q + 1. */
  function BucketCount(requested: int): (n: int)
    ensures n >= 1 && n % 2 == 1
    ensures var q := (if requested < IndexSize then IndexSize else requested) / IndexSize;
            n == q || n == q + 1
  {
    var s := if requested < IndexSize then IndexSize else requested;
    if (s / IndexSize) % 2 == 0 then s / IndexSize + 1 else s / IndexSize
  }

  /** A few requested sizes and the bucket counts they yield. */
  lemma BucketCountExamples()
    ensures BucketCount(8) == 1 && BucketCount(16) == 3 && BucketCount(1) == 1
    ensures BucketCount(-5) == 1 && BucketCount(24) == 3 && BucketCount(100) == 13
  {
  }

  // ---------------------------------------------------------------------------
  // khash

  /** The first n hashes of a chain in which the first is seeded with 0 and
      every later one with the hash before it. The chain is stated for any
      hash function, so that what is proved about its shape never needs to
      look inside MurmurHash2. */
  function Chain(hash: (seq<bv8>, bv32) -> bv32, item: seq<bv8>, n: nat): (hs: seq<bv32>)
    ensures |hs| == n
    decreases n
  {
    if n == 0 then []
    else
      var prev := Chain(hash, item, n - 1);
      prev + [hash(item, if n == 1 then 0 else prev[n - 2])]
  }

  /** Each new hash extends the chain: a shorter chain is a prefix of a
      longer one. */
  lemma {:induction false} ChainPrefix(hash: (seq<bv8>, bv32) -> bv32, item: seq<bv8>, m: nat, n: nat)
    requires m <= n
    ensures Chain(hash, item, m) == Chain(hash, item, n)[..m]
    decreases n
  {
    if m < n {
      ChainPrefix(hash, item, m, n - 1);
      var hs := Chain(hash, item, n);
      assert hs[..n - 1] == Chain(hash, item, n - 1);
      assert hs[..m] == hs[..n - 1][..m];
    }
  }

  /** khash's hashes: the chain of MurmurHash2. */
  function KHashes(item: seq<bv8>, n: nat): (hs: seq<bv32>)
    ensures |hs| == n
  {
    Chain(MurmurHash.Hash, item, n)
  }

  /** The first m of khash's hashes do not depend on how many more follow. */
  lemma KHashesPrefix(item: seq<bv8>, m: nat, n: nat)
    requires m <= n
    ensures KHashes(item, m) == KHashes(item, n)[..m]
  {
    ChainPrefix(MurmurHash.Hash, item, m, n);
  }

  /** khash's chain: hashes[0] is the hash with seed 0 and hashes[i] the
      hash seeded with hashes[i-1]. */
  lemma KHashesChain(item: seq<bv8>, n: nat, i: nat)
    requires i < n
    ensures i == 0 ==> KHashes(item, n)[0] == MurmurHash.Hash(item, 0)
    ensures i > 0 ==> KHashes(item, n)[i] == MurmurHash.Hash(item, KHashes(item, n)[i - 1])
  {
    KHashesPrefix(item, i + 1, n);
    var hs := KHashes(item, i + 1);
    assert hs[i] == MurmurHash.Hash(item, if i == 0 then 0 else KHashes(item, i)[i - 1]);
    if i > 0 {
      KHashesPrefix(item, i, i + 1);
      assert KHashes(item, i)[i - 1] == hs[i - 1];
    }
  }

  /** Every hash khash returns is a non-negative `int`. */
  predicate AllNonNegative(hashes: seq<bv32>)
  {
    forall i :: 0 <= i < |hashes| ==> hashes[i] < 0x8000_0000
  }

  /** A chain of a hash that is never negative is never negative. */
  lemma {:induction false} ChainNonNegative(hash: (seq<bv8>, bv32) -> bv32, item: seq<bv8>, n: nat)
    requires forall seed :: hash(item, seed) < 0x8000_0000
    ensures AllNonNegative(Chain(hash, item, n))
    decreases n
  {
    if n > 0 {
      ChainNonNegative(hash, item, n - 1);
    }
  }

  /** MurmurHash2 never returns a negative `int`, so neither does khash. */
  lemma KHashesNonNegative(item: seq<bv8>, n: nat)
    ensures AllNonNegative(KHashes(item, n))
  {
    ChainNonNegative(MurmurHash.Hash, item, n);
  }

  // ---------------------------------------------------------------------------
  // getIndex

  /** The bucket a hash selects and the bit within it. */
  datatype Slot = Slot(bucket: int, bit: int)

  /** getIndex: `hash % size` and `hash % INDEX_SIZE` with Java's remainder.
      A non-negative hash lands inside the filter; a negative one would give
      a bucket and a bit of zero or below. */
  function Index(hash: bv32, size: int): (s: Slot)
    requires size > 0
    ensures ToInt(hash) >= 0 ==> 0 <= s.bucket < size && 0 <= s.bit < IndexSize
    ensures ToInt(hash) < 0 ==> -size < s.bucket <= 0 && -IndexSize < s.bit <= 0
  {
    Slot(Rem(ToInt(hash), size), Rem(ToInt(hash), IndexSize))
  }

  /** For a non-negative hash the bucket and the bit are the remainders of
      the hash; a negative hash gives a negative bucket, which is out of
      bounds, unless size divides it, and a negative bit unless 8 does. */
  lemma IndexRemainders(hash: bv32, size: int)
    requires size > 0
    ensures ToInt(hash) >= 0 ==> Index(hash, size) == Slot(ToInt(hash) % size, ToInt(hash) % IndexSize)
    ensures ToInt(hash) < 0 ==> (Index(hash, size).bucket < 0 <==> ToInt(hash) % size != 0)
    ensures ToInt(hash) < 0 ==> (Index(hash, size).bit < 0 <==> ToInt(hash) % IndexSize != 0)
  {
  }

  // ---------------------------------------------------------------------------
  // Masks and the bit test

  /** add's mask `(byte)(1 << bit)`: the shift distance is masked to five
      bits, the cast keeps the low byte. */
  function Mask(bit: int): (r: bv8)
    ensures 0 <= bit < IndexSize ==> r == 1 << (bit as bv8)
    ensures -IndexSize < bit < 0 ==> r == 0
  {
    if 0 <= bit < IndexSize then
      BitDistance(bit);
      Narrow(1 << ShiftDistance(bit))
    else if -IndexSize < bit < 0 then
      WrappedDistance(bit);
      Narrow(1 << ShiftDistance(bit))
    else
      Narrow(1 << ShiftDistance(bit))
  }

  /** `Math.abs(b >> d) % 2 == 1` for a shift distance d already masked. */
  function ShiftedIsOdd(b: bv8, d: bv32): bool
    requires d < 32
  {
    Rem(Abs(ToInt(Sar(SignExtend(b), d))), 2) == 1
  }

  /** contains's test on a byte: `Math.abs(b >> bit) % 2 == 1`, with the
      byte widened to an `int` and the shift distance masked. */
  function BitTest(b: bv8, bit: int): (r: bool)
    ensures 0 <= bit < IndexSize ==> (r <==> (b >> (bit as bv8)) & 1 == 1)
  {
    if 0 <= bit < IndexSize then
      BitDistance(bit);
      ShiftedIsOddExact(b, ShiftDistance(bit));
      ShiftedIsOdd(b, ShiftDistance(bit))
    else
      ShiftedIsOdd(b, ShiftDistance(bit))
  }

  /** A bit 0..7 is shifted by less than 8. */
  lemma SmallDistance(bit: int)
    requires 0 <= bit < IndexSize
    ensures ShiftDistance(bit) < 8
  {
  }

  /** A bit -7..-1 is shifted by 25 or more. */
  lemma WrappedDistance(bit: int)
    requires -IndexSize < bit < 0
    ensures 25 <= ShiftDistance(bit)
  {
  }

  /** A bit 0..7 is shifted by exactly that distance. */
  lemma BitDistance(bit: int)
    requires 0 <= bit < IndexSize
    ensures ShiftDistance(bit) == bit as bv32
  {
  }

  /** A negative bit -7..-1 wraps around to the distance 32 + bit. */
  lemma NegativeBitDistance(bit: int)
    requires -IndexSize < bit < 0
    ensures ShiftDistance(bit) == (32 + bit) as bv32
  {
  }

  /** Shifting a widened byte right by less than 8 still gives a widened
      byte. */
  lemma ShiftStaysByte(b: bv8, d: bv32)
    requires d < 8
    ensures Sar(SignExtend(b), d) == SignExtend(Narrow(Sar(SignExtend(b), d)))
  {
  }

  /** The parity of a byte's value, sign or no sign, is its lowest bit. */
  lemma ParityByte(c: bv8)
    ensures Rem(Abs(ByteValue(c)), 2) == 1 <==> c & 1 == 1
  {
  }

  /** Bit d of a byte is the lowest bit of the byte shifted right by d. */
  lemma LowBit(b: bv8, d: bv32)
    requires d < 8
    ensures Narrow(Sar(SignExtend(b), d)) & 1 == 1 <==> b & Narrow(1 << d) != 0
  {
  }

  /** For a distance below 8 the signed parity test reads bit d. */
  lemma ShiftedIsOddExact(b: bv8, d: bv32)
    requires d < 8
    ensures ShiftedIsOdd(b, d) <==> b & Narrow(1 << d) != 0
  {
    var c := Narrow(Sar(SignExtend(b), d));
    ShiftStaysByte(b, d);
    SignExtendKeepsValue(c);
    ParityByte(c);
    LowBit(b, d);
  }

  /** For bits 0..7 contains's signed test reads exactly the bit add's mask
      sets, whatever the byte's sign. */
  lemma BitTestExact(b: bv8, bit: int)
    requires 0 <= bit < IndexSize
    ensures BitTest(b, bit) <==> b & Mask(bit) != 0
  {
    SmallDistance(bit);
    ShiftedIsOddExact(b, ShiftDistance(bit));
  }

  /** `(byte)(1 << d)` for d below 8 is one set bit. */
  lemma OneBitMask(b: bv8, d: bv32)
    requires d < 8
    ensures Narrow(1 << d) != 0
    ensures b & Narrow(1 << d) != 0 <==> b | Narrow(1 << d) == b
  {
  }

  /** The mask of a bit 0..7 is a single set bit: it is non-zero, and OR-ing
      it into a byte changes nothing exactly when the byte already has it. */
  lemma MaskIsOneBit(b: bv8, bit: int)
    requires 0 <= bit < IndexSize
    ensures Mask(bit) != 0
    ensures b & Mask(bit) != 0 <==> b | Mask(bit) == b
  {
    SmallDistance(bit);
    OneBitMask(b, ShiftDistance(bit));
  }

  /** Shifted by 25 or more, the one bit leaves the byte, and a widened
      byte is only copies of its sign. */
  lemma SignFill(b: bv8, d: bv32)
    requires 25 <= d < 32
    ensures Narrow(1 << d) == 0
    ensures Sar(SignExtend(b), d) == if b < 0x80 then 0 else 0xFFFF_FFFF
  {
  }

  /** A negative bit index (from a negative hash) wraps the shift distance
      to 25..31: its mask is zero, and contains's test then reads the sign of
      the byte instead of a bit add could have set. */
  lemma NegativeBit(b: bv8, bit: int)
    requires -IndexSize < bit < 0
    ensures Mask(bit) == 0
    ensures BitTest(b, bit) <==> b >= 0x80
  {
    WrappedDistance(bit);
    SignFill(b, ShiftDistance(bit));
  }

  /** A negative hash that size divides but 8 does not would pick bucket 0
      and a negative bit: add would OR in nothing, and contains would then
      report the item only if that byte's sign bit happened to be set. Such
      a hash never occurs, as MurmurHash2 returns no negative value. */
  lemma NegativeHashLosesItsBit(hash: bv32, size: int, b: bv8)
    requires size > 0 && ToInt(hash) < 0
    requires ToInt(hash) % size == 0 && ToInt(hash) % IndexSize != 0
    ensures Index(hash, size).bucket == 0
    ensures Mask(Index(hash, size).bit) == 0
    ensures b | Mask(Index(hash, size).bit) == b
    ensures BitTest(b | Mask(Index(hash, size).bit), Index(hash, size).bit) <==> b >= 0x80
  {
    NegativeBit(b, Index(hash, size).bit);
  }

  // ---------------------------------------------------------------------------
  // The filter's contents under add and contains

  /** One turn of add's loop: OR the hash's mask into its bucket. */
  function SetBit(f: seq<bv8>, hash: bv32): (r: seq<bv8>)
    requires |f| > 0 && hash < 0x8000_0000
    ensures |r| == |f|
  {
    var s := Index(hash, |f|);
    f[s.bucket := f[s.bucket] | Mask(s.bit)]
  }

  /** The contents after add's loop has run over the given hashes. */
  function Insert(f: seq<bv8>, hashes: seq<bv32>): (r: seq<bv8>)
    requires |f| > 0 && AllNonNegative(hashes)
    ensures |r| == |f|
    decreases |hashes|
  {
    if hashes == [] then f
    else SetBit(Insert(f, hashes[..|hashes| - 1]), hashes[|hashes| - 1])
  }

  /** A prefix of non-negative hashes is non-negative. */
  lemma PrefixNonNegative(hashes: seq<bv32>, j: nat)
    requires AllNonNegative(hashes) && j <= |hashes|
    ensures AllNonNegative(hashes[..j])
  {
  }

  /** The turn of add's loop for hashes[j]. */
  lemma InsertStep(f: seq<bv8>, hashes: seq<bv32>, j: nat)
    requires |f| > 0 && AllNonNegative(hashes) && j < |hashes|
    ensures hashes[j] < 0x8000_0000
    ensures AllNonNegative(hashes[..j]) && AllNonNegative(hashes[..j + 1])
    ensures Insert(f, hashes[..j + 1]) == SetBit(Insert(f, hashes[..j]), hashes[j])
  {
    PrefixNonNegative(hashes, j);
    PrefixNonNegative(hashes, j + 1);
    assert hashes[..j + 1][..j] == hashes[..j];
  }

  /** The bit a hash selects is set (read as an unsigned bit). */
  predicate IsSet(f: seq<bv8>, hash: bv32)
    requires |f| > 0 && hash < 0x8000_0000
  {
    var s := Index(hash, |f|);
    f[s.bucket] & Mask(s.bit) != 0
  }

  /** contains's test for one hash passes. */
  predicate Tested(f: seq<bv8>, hash: bv32)
    requires |f| > 0 && hash < 0x8000_0000
  {
    var s := Index(hash, |f|);
    BitTest(f[s.bucket], s.bit)
  }

  /** What contains answers: every hash passes the test. */
  predicate Probe(f: seq<bv8>, hashes: seq<bv32>)
    requires |f| > 0 && AllNonNegative(hashes)
  {
    forall i :: 0 <= i < |hashes| ==> Tested(f, hashes[i])
  }

  /** The turn of contains's loop for hashes[j]: the test passes for the
      first j + 1 hashes exactly when it passes for the first j and for
      hashes[j], and one failure means the whole test fails. */
  lemma ProbeStep(f: seq<bv8>, hashes: seq<bv32>, j: nat)
    requires |f| > 0 && AllNonNegative(hashes) && j < |hashes|
    ensures hashes[j] < 0x8000_0000
    ensures AllNonNegative(hashes[..j]) && AllNonNegative(hashes[..j + 1])
    ensures Probe(f, hashes[..j + 1]) <==> Probe(f, hashes[..j]) && Tested(f, hashes[j])
    ensures !Tested(f, hashes[j]) ==> !Probe(f, hashes)
  {
    assert hashes[..j + 1] == hashes[..j] + [hashes[j]];
  }

  /** Every bit set in f is set in g. */
  predicate Grows(f: seq<bv8>, g: seq<bv8>)
  {
    |f| == |g| && forall j :: 0 <= j < |f| ==> f[j] | g[j] == g[j]
  }

  /** contains answers true exactly when all the bits the hashes select are
      set. */
  lemma ProbeIffAllSet(f: seq<bv8>, hashes: seq<bv32>)
    requires |f| > 0 && AllNonNegative(hashes)
    ensures Probe(f, hashes) <==> forall i :: 0 <= i < |hashes| ==> IsSet(f, hashes[i])
  {
    forall i | 0 <= i < |hashes|
      ensures Tested(f, hashes[i]) <==> IsSet(f, hashes[i])
    {
      var s := Index(hashes[i], |f|);
      BitTestExact(f[s.bucket], s.bit);
    }
  }

  /** A set bit stays set when the contents grow. */
  lemma IsSetGrows(f: seq<bv8>, g: seq<bv8>, hash: bv32)
    requires |f| > 0 && hash < 0x8000_0000 && Grows(f, g)
    requires IsSet(f, hash)
    ensures IsSet(g, hash)
  {
    var s := Index(hash, |f|);
    assert f[s.bucket] | g[s.bucket] == g[s.bucket];
  }

  /** One turn of add's loop sets the hash's bit. */
  lemma SetBitSets(f: seq<bv8>, hash: bv32)
    requires |f| > 0 && hash < 0x8000_0000
    ensures IsSet(SetBit(f, hash), hash)
  {
    var s := Index(hash, |f|);
    MaskIsOneBit(f[s.bucket], s.bit);
  }

  /** One turn of add's loop clears no bit. */
  lemma SetBitGrows(f: seq<bv8>, hash: bv32)
    requires |f| > 0 && hash < 0x8000_0000
    ensures Grows(f, SetBit(f, hash))
  {
  }

  /** One turn of add's loop changes nothing when the hash's bit is already
      set. */
  lemma SetBitWhenSet(f: seq<bv8>, hash: bv32)
    requires |f| > 0 && hash < 0x8000_0000 && IsSet(f, hash)
    ensures SetBit(f, hash) == f
  {
    var s := Index(hash, |f|);
    assert 0 <= s.bit < IndexSize;
    MaskIsOneBit(f[s.bucket], s.bit);
  }

  /** add never clears a bit: every old byte is a bitwise subset of the new
      one. */
  lemma {:induction false} InsertGrows(f: seq<bv8>, hashes: seq<bv32>)
    requires |f| > 0 && AllNonNegative(hashes)
    ensures Grows(f, Insert(f, hashes))
    decreases |hashes|
  {
    if hashes != [] {
      var init := hashes[..|hashes| - 1];
      InsertGrows(f, init);
      SetBitGrows(Insert(f, init), hashes[|hashes| - 1]);
    }
  }

  /** add changes only the buckets its hashes select. */
  lemma {:induction false} InsertFrame(f: seq<bv8>, hashes: seq<bv32>, j: int)
    requires |f| > 0 && AllNonNegative(hashes) && 0 <= j < |f|
    requires forall i :: 0 <= i < |hashes| ==> Index(hashes[i], |f|).bucket != j
    ensures Insert(f, hashes)[j] == f[j]
    decreases |hashes|
  {
    if hashes != [] {
      var init := hashes[..|hashes| - 1];
      InsertFrame(f, init, j);
    }
  }

  /** After add every bit its hashes select is set. */
  lemma {:induction false} InsertSetsAll(f: seq<bv8>, hashes: seq<bv32>)
    requires |f| > 0 && AllNonNegative(hashes)
    ensures forall i :: 0 <= i < |hashes| ==> IsSet(Insert(f, hashes), hashes[i])
    decreases |hashes|
  {
    if hashes != [] {
      var init := hashes[..|hashes| - 1];
      var last := hashes[|hashes| - 1];
      InsertSetsAll(f, init);
      SetBitSets(Insert(f, init), last);
      SetBitGrows(Insert(f, init), last);
      forall i | 0 <= i < |hashes| - 1
        ensures IsSet(Insert(f, hashes), hashes[i])
      {
        assert hashes[i] == init[i];
        IsSetGrows(Insert(f, init), Insert(f, hashes), hashes[i]);
      }
    }
  }

  /** OR-ing in bits that are all set already changes nothing. */
  lemma {:induction false} InsertWhenAllSet(f: seq<bv8>, hashes: seq<bv32>)
    requires |f| > 0 && AllNonNegative(hashes)
    requires forall i :: 0 <= i < |hashes| ==> IsSet(f, hashes[i])
    ensures Insert(f, hashes) == f
    decreases |hashes|
  {
    if hashes != [] {
      var init := hashes[..|hashes| - 1];
      var last := hashes[|hashes| - 1];
      InsertWhenAllSet(f, init);
      SetBitWhenSet(f, last);
    }
  }

  /** add is idempotent: adding the same hashes again leaves the contents
      unchanged. */
  lemma InsertIdempotent(f: seq<bv8>, hashes: seq<bv32>)
    requires |f| > 0 && AllNonNegative(hashes)
    ensures Insert(Insert(f, hashes), hashes) == Insert(f, hashes)
  {
    InsertSetsAll(f, hashes);
    InsertWhenAllSet(Insert(f, hashes), hashes);
  }

  /** No false negatives: right after add, contains answers true. */
  lemma ProbeAfterInsert(f: seq<bv8>, hashes: seq<bv32>)
    requires |f| > 0 && AllNonNegative(hashes)
    ensures Probe(Insert(f, hashes), hashes)
  {
    InsertSetsAll(f, hashes);
    ProbeIffAllSet(Insert(f, hashes), hashes);
  }

  /** A true answer from contains stays true after any further add. */
  lemma ProbeStable(f: seq<bv8>, hashes: seq<bv32>, more: seq<bv32>)
    requires |f| > 0 && AllNonNegative(hashes) && AllNonNegative(more)
    requires Probe(f, hashes)
    ensures Probe(Insert(f, more), hashes)
  {
    var g := Insert(f, more);
    ProbeIffAllSet(f, hashes);
    InsertGrows(f, more);
    forall i | 0 <= i < |hashes|
      ensures IsSet(g, hashes[i])
    {
      IsSetGrows(f, g, hashes[i]);
    }
    ProbeIffAllSet(g, hashes);
  }

  /** The contents after adding each of the items in turn. */
  function AddAll(f: seq<bv8>, k: nat, items: seq<seq<bv8>>): (r: seq<bv8>)
    requires |f| > 0
    ensures |r| == |f|
    decreases |items|
  {
    if items == [] then f
    else
      KHashesNonNegative(items[0], k);
      AddAll(Insert(f, KHashes(items[0], k)), k, items[1..])
  }

  /** No false negatives, for whole items: once an item is added, contains
      answers true for it, however many items are added afterwards. */
  lemma {:induction false} NoFalseNegatives(f: seq<bv8>, k: nat, item: seq<bv8>, later: seq<seq<bv8>>)
    requires |f| > 0
    ensures AllNonNegative(KHashes(item, k))
    ensures Probe(AddAll(f, k, [item] + later), KHashes(item, k))
  {
    KHashesNonNegative(item, k);
    var hs := KHashes(item, k);
    assert ([item] + later)[1..] == later;
    ProbeAfterInsert(f, hs);
    StaysFound(Insert(f, hs), k, hs, later);
  }

  /** Hashes whose test passes keep passing while more items are added. */
  lemma {:induction false} StaysFound(f: seq<bv8>, k: nat, hashes: seq<bv32>, items: seq<seq<bv8>>)
    requires |f| > 0 && AllNonNegative(hashes) && Probe(f, hashes)
    ensures Probe(AddAll(f, k, items), hashes)
    decreases |items|
  {
    if items != [] {
      KHashesNonNegative(items[0], k);
      ProbeStable(f, hashes, KHashes(items[0], k));
      StaysFound(Insert(f, KHashes(items[0], k)), k, hashes, items[1..]);
    }
  }

  // ---------------------------------------------------------------------------
  // The class

  /** BloomFilter<T>: k hashes per item over `size` one-byte buckets. The
      item is given as the bytes its `toString().getBytes()` yields. */
  class Filter {
    const k: int
    const size: int
    const filter: array<bv8>

    /** The array has one byte per bucket, and the bucket count is odd. */
    predicate Valid()
    {
      filter.Length == size && size >= 1 && size % 2 == 1
    }

    /** The constructor raises the requested size to at least 8 and takes the
        odd one of size / 8 and size / 8 + 1 buckets, all zero. */
    constructor (requestedSize: int, k: int)
      ensures Valid()
      ensures this.k == k && size == BucketCount(requestedSize)
      ensures fresh(filter) && forall j :: 0 <= j < size ==> filter[j] == 0
    {
      this.k := k;
      var s := requestedSize;
      if s < IndexSize {
        s := IndexSize;
      }
      var n;
      if (s / IndexSize) % 2 == 0 {
        n := s / IndexSize + 1;
      } else {
        n := s / IndexSize;
      }
      size := n;
      filter := new bv8[n](_ => 0);
    }

    /** khash: k hashes of the item, each seeded with the one before. A
        negative k would make the array allocation throw. */
    method KHash(item: seq<bv8>) returns (hashes: array<bv32>)
      requires k >= 0
      ensures fresh(hashes)
      ensures hashes[..] == KHashes(item, k)
    {
      hashes := new bv32[k];
      var seed: bv32 := 0;
      for i := 0 to k
        invariant hashes[..i] == KHashes(item, i)
        invariant seed == if i == 0 then 0 else hashes[i - 1]
      {
        var h := MurmurHash.MurmurHash2(item, seed);
        hashes[i] := h;
        seed := h;
        assert hashes[..i + 1] == hashes[..i] + [h];
      }
      assert hashes[..] == hashes[..k];
    }

    /** add: ORs each hash's mask into its bucket, in place. */
    method Add(item: seq<bv8>)
      requires Valid() && k >= 0
      modifies filter
      ensures AllNonNegative(KHashes(item, k))
      ensures filter[..] == Insert(old(filter[..]), KHashes(item, k))
    {
      var hashes := KHash(item);
      KHashesNonNegative(item, k);
      ghost var hs := hashes[..];
      for j := 0 to hashes.Length
        invariant hashes[..] == hs
        invariant AllNonNegative(hs[..j])
        invariant filter[..] == Insert(old(filter[..]), hs[..j])
      {
        InsertStep(old(filter[..]), hs, j);
        var s := Index(hashes[j], size);
        ghost var before := filter[..];
        filter[s.bucket] := filter[s.bucket] | Mask(s.bit);
        assert filter[..] == before[s.bucket := before[s.bucket] | Mask(s.bit)];
      }
      assert hs[..hashes.Length] == hs;
    }

    /** contains: tests each hash's bit with `Math.abs(b >> bit) % 2` and
        answers false at the first one unset. It changes nothing. */
    method Contains(item: seq<bv8>) returns (found: bool)
      requires Valid() && k >= 0
      ensures AllNonNegative(KHashes(item, k))
      ensures found == Probe(filter[..], KHashes(item, k))
    {
      var hashes := KHash(item);
      KHashesNonNegative(item, k);
      ghost var hs := hashes[..];
      for j := 0 to hashes.Length
        invariant hashes[..] == hs
        invariant AllNonNegative(hs[..j])
        invariant Probe(filter[..], hs[..j])
      {
        ProbeStep(filter[..], hs, j);
        var s := Index(hashes[j], size);
        if !BitTest(filter[s.bucket], s.bit) {
          return false;
        }
      }
      assert hs[..hashes.Length] == hs;
      return true;
    }
  }
}
