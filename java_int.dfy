/**
 * Java's 32-bit `int` and 8-bit `byte`, held as Dafny bit-vectors in two's
 * complement, and the Java operators whose meaning differs from Dafny's:
 * the truncating remainder `%`, the arithmetic shift `>>`, the shift distance
 * masked to five bits, `Math.abs`, and the widening and narrowing casts.
 */
module JavaInt {

  /** The value of a Java `int` held as its 32 bits. */
  function ToInt(x: bv32): (v: int)
    ensures v >= 0 <==> x < 0x8000_0000
  {
    if x < 0x8000_0000 then x as int else x as int - 0x1_0000_0000
  }

  /** The value of a Java `byte` held as its 8 bits. */
  function ByteValue(b: bv8): (v: int)
    ensures -0x80 <= v < 0x80
    ensures v >= 0 <==> b < 0x80
  {
    if b < 0x80 then b as int else b as int - 0x100
  }

  /** Widening a `byte` to an `int`, as Java does before any arithmetic on it. */
  function SignExtend(b: bv8): (r: bv32)
    ensures r & 0xFF == b as bv32
    ensures b < 0x80 ==> r < 0x80
    ensures b >= 0x80 ==> 0xFFFF_FF80 <= r
  {
    if b < 0x80 then b as bv32 else (b as bv32) | 0xFFFF_FF00
  }

  /** Widening keeps the byte's value. */
  lemma SignExtendKeepsValue(b: bv8)
    ensures ToInt(SignExtend(b)) == ByteValue(b)
  {
  }

  /** The cast `(byte) x`: keeps the low eight bits. */
  function Narrow(x: bv32): (b: bv8)
    ensures b as bv32 == x & 0xFF
  {
    (x & 0xFF) as bv8
  }

  /** `x >> n` on an `int` whose shift distance is already below 32: the
      vacated high bits are filled with copies of the sign bit. */
  function Sar(x: bv32, n: bv32): (r: bv32)
    requires n < 32
    ensures r < 0x8000_0000 <==> x < 0x8000_0000
    ensures x < 0x8000_0000 ==> r == x >> n
    ensures x >= 0x8000_0000 ==> r == (x >> n) | !(0xFFFF_FFFF >> n)
  {
    if x < 0x8000_0000 then x >> n else !((!x) >> n)
  }

  /** The distance Java shifts an `int` by when asked to shift by `n`: only the
      low five bits of `n` are used: the distance is n modulo 32, so -1
      becomes 31. */
  function ShiftDistance(n: int): (d: bv32)
    ensures d < 32
  {
    FiveBits(n % 32)
  }

  /** The bit-vector holding m, for 0 <= m < 32, assembled from its five
      bits so that no conversion from an unbounded integer is needed. */
  function FiveBits(m: int): bv32
    requires 0 <= m < 32
  {
    var b4 := if m >= 16 then 16 else 0;
    var b3 := if m % 16 >= 8 then 8 else 0;
    var b2 := if m % 8 >= 4 then 4 else 0;
    var b1 := if m % 4 >= 2 then 2 else 0;
    var b0 := if m % 2 == 1 then 1 else 0;
    b4 | b3 | b2 | b1 | b0
  }

  /** Shifted by 8, 16 or 24, the byte that `(byte)(x >> n)` keeps lies below the
      bits the arithmetic shift copies from the sign, so it is the same byte
      a logical shift gives. */
  lemma NarrowedShift(x: bv32, n: bv32)
    requires n == 8 || n == 16 || n == 24
    ensures Narrow(Sar(x, n)) as bv32 == (x >> n) & 0xFF
  {
  }

  /** Java's `a % b` for a positive divisor: the remainder of the division
      that truncates toward zero, so it takes the sign of the dividend. It
      agrees with Dafny's (Euclidean) `%` on a non-negative dividend; on a
      negative one that b does not divide it is b smaller. */
  function Rem(a: int, b: int): (r: int)
    requires b > 0
    ensures a >= 0 ==> r == a % b
    ensures a < 0 ==> r == if a % b == 0 then 0 else a % b - b
    ensures -b < r < b
  {
    if a < 0 then
      NegatedRemainder(a, b);
      -((-a) % b)
    else
      a % b
  }

  /** Java's `Math.abs(int)`: the one value without a positive counterpart,
      Integer.MIN_VALUE, is returned unchanged. */
  function Abs(a: int): (r: int)
    ensures a != -0x8000_0000 ==> r >= 0 && (r == a || r == -a)
    ensures a == -0x8000_0000 ==> r == a
  {
    if a == -0x8000_0000 then a else if a < 0 then -a else a
  }

  lemma SmallMultiple(b: int, c: int)
    requires b > 0 && -b < b * c < b
    ensures c == 0
  {
  }

  /** A remainder is determined by any quotient that leaves it in [0, b). */
  lemma RemainderUnique(x: int, b: int, q: int, m: int)
    requires b > 0 && 0 <= m < b && x == b * q + m
    ensures x % b == m
  {
    SmallMultiple(b, q - x / b);
  }

  lemma NegatedRemainder(a: int, b: int)
    requires b > 0
    ensures (-a) % b == if a % b == 0 then 0 else b - a % b
  {
    var q, m := a / b, a % b;
    if m == 0 {
      RemainderUnique(-a, b, -q, 0);
    } else {
      RemainderUnique(-a, b, -q - 1, b - m);
    }
  }

  /** Java's `int` multiplication: the product wraps modulo 2^32. */
  function Mul(a: bv32, b: bv32): bv32
  {
    a * b
  }

  /** Java's `^` on `int`. */
  function Xor(a: bv32, b: bv32): bv32
  {
    a ^ b
  }
}
