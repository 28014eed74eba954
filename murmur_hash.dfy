/**
 * MurmurHash2 (32-bit) exactly as the Java port computes it: 4-byte words
 * are read from the END of the key backward, each word is assembled
 * big-endian from sign-extended bytes, the 0-3 leftover bytes are the FIRST
 * bytes of the key, and every `>>` is an arithmetic shift. All `*` wrap
 * modulo 2^32 (bv32 arithmetic).
 */
module MurmurHash {
  import opened JavaInt

  const M: bv32 := 0x5bd1e995
  const R: bv32 := 24

  /** `key.length` as the `int` the seed is XOR-ed with. */
  function LengthBits(n: nat): bv32
  {
    (n % 0x1_0000_0000) as bv32
  }

  // ---------------------------------------------------------------------------
  // constructIntFromBytes / constructBytesFromInt

  /** The word constructIntFromBytes builds from data[start..start+4]: the
      four bytes, each widened with its sign, placed big-endian and OR-ed. */
  function WordAt(data: seq<bv8>, start: int): bv32
    requires 0 <= start && start + 3 < |data|
  {
    (SignExtend(data[start]) << 24) | (SignExtend(data[start + 1]) << 16)
    | (SignExtend(data[start + 2]) << 8) | SignExtend(data[start + 3])
  }

  /** constructIntFromBytes: OR in a byte, shift left by 8, three times, then
      OR in the fourth byte. */
  method ConstructIntFromBytes(data: seq<bv8>, start: int) returns (value: bv32)
    requires 0 <= start && start + 3 < |data|
    ensures value == WordAt(data, start)
  {
    value := 0;
    value := (value | SignExtend(data[start])) << 8;
    value := (value | SignExtend(data[start + 1])) << 8;
    value := (value | SignExtend(data[start + 2])) << 8;
    value := value | SignExtend(data[start + 3]);
  }

  /** When no byte has its sign bit set the word is the big-endian number
      b0·2^24 + b1·2^16 + b2·2^8 + b3. */
  lemma WordAtBigEndian(data: seq<bv8>, start: int)
    requires 0 <= start && start + 3 < |data|
    requires forall i :: start <= i < start + 4 ==> data[i] < 0x80
    ensures WordAt(data, start)
         == (data[start] as bv32) * 0x100_0000 + (data[start + 1] as bv32) * 0x1_0000
          + (data[start + 2] as bv32) * 0x100 + data[start + 3] as bv32
  {
    assert data[start] < 0x80 && data[start + 1] < 0x80;
    assert data[start + 2] < 0x80 && data[start + 3] < 0x80;
  }

  /** A last byte with its sign bit set, once widened, has all its upper 24
      bits set, so the OR erases the first three bytes: the word is that
      byte's value as an `int`. */
  lemma WordAtNegativeLastByte(data: seq<bv8>, start: int)
    requires 0 <= start && start + 3 < |data|
    requires data[start + 3] >= 0x80
    ensures WordAt(data, start) == SignExtend(data[start + 3])
    ensures ToInt(WordAt(data, start)) == ByteValue(data[start + 3])
  {
    SignExtendKeepsValue(data[start + 3]);
  }

  /** What constructBytesFromInt returns: bytes[i] is the cast `(byte)`
      of the argument shifted right (arithmetically) by 8i. */
  function LittleEndianBytes(x: bv32): seq<bv8>
  {
    [Narrow(x), Narrow(Sar(x, 8)), Narrow(Sar(x, 16)), Narrow(Sar(x, 24))]
  }

  /** constructBytesFromInt fills a new four-byte array from the last byte
      to the first. */
  method ConstructBytesFromInt(data: bv32) returns (bytes: array<bv8>)
    ensures fresh(bytes)
    ensures bytes[..] == LittleEndianBytes(data)
  {
    bytes := new bv8[4];
    bytes[3] := Narrow(Sar(data, 24));
    bytes[2] := Narrow(Sar(data, 16));
    bytes[1] := Narrow(Sar(data, 8));
    bytes[0] := Narrow(data);
    assert bytes[..] == [bytes[0], bytes[1], bytes[2], bytes[3]];
  }

  /** Byte i of the result holds bits 8i..8i+7 of the argument, whatever its
      sign: the bytes are little-endian. Byte 0 is stated on its own and
      byte n / 8 for the shift n = 8, 16, 24 of bytes 1 to 3. */
  lemma LittleEndianLane(x: bv32, n: bv32)
    requires n == 8 || n == 16 || n == 24
    ensures |LittleEndianBytes(x)| == 4
    ensures LittleEndianBytes(x)[0] as bv32 == x & 0xFF
    ensures LittleEndianBytes(x)[n / 8] as bv32 == (x >> n) & 0xFF
  {
    NarrowedShift(x, n);
  }

  /** Reads four bytes back as an unsigned little-endian word. */
  function FromLittleEndian(bytes: seq<bv8>): bv32
    requires |bytes| == 4
  {
    (bytes[0] as bv32) | ((bytes[1] as bv32) << 8)
    | ((bytes[2] as bv32) << 16) | ((bytes[3] as bv32) << 24)
  }

  /** Reassembling the bytes little-endian, as unsigned bytes, gives the
      integer back. */
  lemma LittleEndianRoundTrip(x: bv32)
    ensures |LittleEndianBytes(x)| == 4
    ensures FromLittleEndian(LittleEndianBytes(x)) == x
  {
    NarrowedShift(x, 8);
    NarrowedShift(x, 16);
    NarrowedShift(x, 24);
  }

  /** The two helpers use opposite byte orders, so they are not inverses:
      whenever no byte of x has its sign bit set, reading x's bytes back with
      constructIntFromBytes reverses their order. */
  lemma HelpersReverseByteOrder(x: bv32)
    requires x & 0x8080_8080 == 0
    ensures WordAt(LittleEndianBytes(x), 0)
         == ((x & 0xFF) << 24) | (((x >> 8) & 0xFF) << 16)
          | (((x >> 16) & 0xFF) << 8) | (x >> 24)
    ensures x == 1 ==> WordAt(LittleEndianBytes(x), 0) == 0x0100_0000
  {
  }

  // ---------------------------------------------------------------------------
  // MurmurHash2

  /** The mixing of one word in the main loop: multiply by M, XOR in its
      own arithmetic shift by R, multiply by M again. */
  function MixWord(k: bv32): bv32
  {
    var k1 := Mul(k, M);
    var k2 := Xor(k1, Sar(k1, R));
    Mul(k2, M)
  }

  /** One iteration of the main loop: h is multiplied by M and the mixed
      word XOR-ed in. */
  function Step(h: bv32, word: bv32): bv32
  {
    Xor(Mul(h, M), MixWord(word))
  }

  /** The words the main loop reads while `len` counts down from a given
      value, in the order it reads them. */
  function ChunkWords(key: seq<bv8>, len: nat): seq<bv32>
    requires len <= |key|
    decreases len
  {
    if len < 4 then [] else [WordAt(key, len - 4)] + ChunkWords(key, len - 4)
  }

  /** Folds the words into h front to back, one Step per word. */
  function FoldWords(h: bv32, words: seq<bv32>): bv32
    decreases |words|
  {
    if words == [] then h else FoldWords(Step(h, words[0]), words[1..])
  }

  /** `case 1` of the switch: fold in key[0], then multiply by M. */
  function Case1(key: seq<bv8>, h: bv32): bv32
    requires 1 <= |key|
  {
    Mul(Xor(h, SignExtend(key[0])), M)
  }

  /** `case 2`: fold in key[1] << 8 and fall through into case 1. */
  function Case2(key: seq<bv8>, h: bv32): bv32
    requires 2 <= |key|
  {
    Case1(key, Xor(h, SignExtend(key[1]) << 8))
  }

  /** `case 3`: fold in key[2] << 16 and fall through into case 2. */
  function Case3(key: seq<bv8>, h: bv32): bv32
    requires 3 <= |key|
  {
    Case2(key, Xor(h, SignExtend(key[2]) << 16))
  }

  /** The switch on the 0-3 bytes the loop left over; with none left, h is
      unchanged. */
  function Tail(key: seq<bv8>, rest: nat, h: bv32): bv32
    requires rest < 4 && rest <= |key|
  {
    if rest == 0 then h
    else if rest == 1 then Case1(key, h)
    else if rest == 2 then Case2(key, h)
    else Case3(key, h)
  }

  /** The final avalanche. Because `h >> 15` copies the sign bit
      into bit 31 and the XOR then cancels it, the result is never a
      negative `int`. */
  function Finalize(h: bv32): (r: bv32)
    ensures r < 0x8000_0000
  {
    var h1 := Xor(h, Sar(h, 13));
    var h2 := Mul(h1, M);
    Xor(h2, Sar(h2, 15))
  }

  /** MurmurHash2(key, seed) as the Java code computes it: the seed XOR the
      length, the words folded in from the end of the key backward, the
      leading 0-3 bytes, the finaliser. */
  function Hash(key: seq<bv8>, seed: bv32): (h: bv32)
    ensures h < 0x8000_0000
  {
    Finalize(Tail(key, |key| % 4, FoldWords(Xor(seed, LengthBits(|key|)), ChunkWords(key, |key|))))
  }

  /** One more turn of the main loop, unfolded. */
  lemma WordsUnfold(key: seq<bv8>, len: nat, h: bv32)
    requires 4 <= len <= |key|
    ensures FoldWords(h, ChunkWords(key, len))
         == FoldWords(Step(h, WordAt(key, len - 4)), ChunkWords(key, len - 4))
  {
    var words := ChunkWords(key, len);
    assert words[1..] == ChunkWords(key, len - 4);
  }

  /** With fewer than four bytes left the main loop is done. */
  lemma WordsDone(key: seq<bv8>, len: nat, h: bv32)
    requires len < 4 && len <= |key|
    ensures FoldWords(h, ChunkWords(key, len)) == h
  {
  }

  /** The `switch` on the 0-3 bytes left after the main loop:
      case 3 falls through into case 2 and case 2 into case 1. */
  method MixTail(key: seq<bv8>, len: int, h0: bv32) returns (h: bv32)
    requires 0 <= len < 4 && len <= |key|
    ensures h == Tail(key, len, h0)
  {
    h := h0;
    if len == 3 {
      h := Xor(h, SignExtend(key[2]) << 16);
    }
    ghost var after3 := h;
    if len >= 2 {
      h := Xor(h, SignExtend(key[1]) << 8);
    }
    ghost var after2 := h;
    if len >= 1 {
      h := Xor(h, SignExtend(key[0]));
      h := Mul(h, M);
    }
    assert len == 3 ==> h == Case3(key, h0) by {
      if len == 3 {
        assert after2 == Xor(Xor(h0, SignExtend(key[2]) << 16), SignExtend(key[1]) << 8);
      }
    }
    assert len == 2 ==> h == Case2(key, h0);
    assert len == 1 ==> h == Case1(key, h0);
    assert len == 0 ==> h == h0;
  }

  /** The final avalanche, step by step. */
  method Avalanche(h0: bv32) returns (h: bv32)
    ensures h == Finalize(h0)
  {
    h := h0;
    h := Xor(h, Sar(h, 13));
    h := Mul(h, M);
    h := Xor(h, Sar(h, 15));
  }

  /** The main loop of MurmurHash2: mix the words from the
      end of the key backward into h, leaving the 0-3 leading bytes. */
  method MixWords(key: seq<bv8>, h0: bv32) returns (h: bv32, len: int)
    ensures len == |key| % 4
    ensures h == FoldWords(h0, ChunkWords(key, |key|))
  {
    len := |key|;
    h := h0;
    while len >= 4
      invariant 0 <= len <= |key| && len % 4 == |key| % 4
      invariant FoldWords(h, ChunkWords(key, len)) == FoldWords(h0, ChunkWords(key, |key|))
    {
      var k := ConstructIntFromBytes(key, len - 4);
      WordsUnfold(key, len, h);
      k := Mul(k, M);
      k := Xor(k, Sar(k, R));
      k := Mul(k, M);
      h := Mul(h, M);
      h := Xor(h, k);
      len := len - 4;
    }
    WordsDone(key, len, h);
  }

  /** MurmurHash2 in its three phases: the main loop over the
      4-byte words from the end of the key, the fall-through switch on the
      leading bytes, the final avalanche. */
  method MurmurHash2(key: seq<bv8>, seed: bv32) returns (h: bv32)
    ensures h == Hash(key, seed)
  {
    var len;
    h, len := MixWords(key, Xor(seed, LengthBits(|key|)));
    h := MixTail(key, len, h);
    h := Avalanche(h);
  }

  // ---------------------------------------------------------------------------
  // Properties of the hash

  /** The loop reads floor(len/4) words, the i-th at offset len - 4(i+1):
      the first at len-4, the last at len mod 4, so backward from the end of
      the key. */
  lemma {:induction false} ChunkWordsOffsets(key: seq<bv8>, len: nat)
    requires len <= |key|
    ensures |ChunkWords(key, len)| == len / 4
    ensures forall i :: 0 <= i < |ChunkWords(key, len)| ==>
              4 * (i + 1) <= len && ChunkWords(key, len)[i] == WordAt(key, len - 4 * (i + 1))
    ensures len >= 4 ==> ChunkWords(key, len)[len / 4 - 1] == WordAt(key, len % 4)
    decreases len
  {
    if len >= 4 {
      ChunkWordsOffsets(key, len - 4);
      var words := ChunkWords(key, len);
      assert words == [WordAt(key, len - 4)] + ChunkWords(key, len - 4);
    }
  }

  /** The tail XORs the first `rest` bytes in, key[j] shifted left by 8j. */
  function TailBits(key: seq<bv8>, rest: nat): bv32
    requires rest < 4 && rest <= |key|
  {
    Xor(Xor(if rest >= 1 then SignExtend(key[0]) else 0,
            if rest >= 2 then SignExtend(key[1]) << 8 else 0),
        if rest >= 3 then SignExtend(key[2]) << 16 else 0)
  }

  /** XOR-ing in 0 changes nothing. */
  lemma XorZero(h: bv32)
    ensures Xor(h, 0) == h
  {
  }

  /** XOR-ing in two values one after another is XOR-ing in their XOR. */
  lemma XorRegroup(h: bv32, a: bv32, b: bv32)
    ensures Xor(Xor(h, b), a) == Xor(h, Xor(a, b))
  {
  }

  /** XOR-ing in three values one after another is XOR-ing in their XOR. */
  lemma XorRegroup3(h: bv32, a: bv32, b: bv32, c: bv32)
    ensures Xor(Xor(Xor(h, c), b), a) == Xor(h, Xor(Xor(a, b), c))
  {
    XorRegroup(Xor(h, c), a, b);
    XorRegroup(h, Xor(a, b), c);
  }

  /** The fall-through switch multiplies h by M exactly once when some bytes
      remain and leaves it alone when none do. */
  lemma TailClosedForm(key: seq<bv8>, rest: nat, h: bv32)
    requires rest < 4 && rest <= |key|
    ensures Tail(key, rest, h) == if rest == 0 then h else Mul(Xor(h, TailBits(key, rest)), M)
  {
    if rest == 1 {
      var a := SignExtend(key[0]);
      XorZero(a);
      assert TailBits(key, 1) == a;
      assert Tail(key, 1, h) == Mul(Xor(h, a), M);
    } else if rest == 2 {
      var a, b := SignExtend(key[0]), SignExtend(key[1]) << 8;
      XorRegroup(h, a, b);
      XorZero(Xor(a, b));
      assert TailBits(key, 2) == Xor(a, b);
      assert Tail(key, 2, h) == Mul(Xor(Xor(h, b), a), M);
    } else if rest == 3 {
      var a, b, c := SignExtend(key[0]), SignExtend(key[1]) << 8, SignExtend(key[2]) << 16;
      XorRegroup3(h, a, b, c);
      assert TailBits(key, 3) == Xor(Xor(a, b), c);
      assert Tail(key, 3, h) == Mul(Xor(Xor(Xor(h, c), b), a), M);
    }
  }

  /** The switch reads only the first `rest` bytes of the key. */
  lemma TailReadsPrefix(key: seq<bv8>, rest: nat, h: bv32)
    requires rest < 4 && rest <= |key|
    ensures Tail(key, rest, h) == Tail(key[..rest], rest, h)
  {
    var prefix := key[..rest];
    if rest == 1 {
      assert prefix[0] == key[0];
      assert Tail(prefix, 1, h) == Case1(prefix, h);
    } else if rest == 2 {
      assert prefix[0] == key[0] && prefix[1] == key[1];
      assert Tail(prefix, 2, h) == Case2(prefix, h);
    } else if rest == 3 {
      assert prefix[0] == key[0] && prefix[1] == key[1] && prefix[2] == key[2];
      assert Tail(prefix, 3, h) == Case3(prefix, h);
    }
  }

  /** The empty key only runs the finaliser on the seed; the empty key with
      seed 0 hashes to 0. */
  lemma HashOfEmpty(seed: bv32)
    ensures Hash([], seed) == Finalize(seed)
    ensures Hash([], 0) == 0
  {
    assert LengthBits(0) == 0;
    assert Finalize(0) == 0;
  }

  /** A one-byte key is XOR-ed (sign-extended) into seed ^ 1, multiplied by M
      once and finalised. */
  lemma HashOfOneByte(key: seq<bv8>, seed: bv32)
    requires |key| == 1
    ensures Hash(key, seed) == Finalize(Mul(Xor(Xor(seed, 1), SignExtend(key[0])), M))
  {
    assert LengthBits(|key|) == LengthBits(1) == 1;
    assert |key| % 4 == 1;
    WordsDone(key, 1, Xor(seed, 1));
  }
}
