/**
  Java's `int`: a 32-bit two's-complement integer, and the operators on it
  that the shift functions are built from. Each operator is written the way
  the Java Language Specification defines its value (sections 5.1.3, 15.15.5,
  15.18.2, 15.19 and 15.22.1), and its meaning on the 32-bit pattern is
  proved beside it.
 */
module JavaInt {
  import opened Arith

  /** 2^32: two ints are the same bit pattern exactly when they agree modulo this. */
  const MODULUS: int := 0x1_0000_0000

  newtype int32 = x: int | -0x8000_0000 <= x < 0x8000_0000

  /** The bit pattern of x read as an unsigned number in [0, 2^32). */
  function Unsigned(x: int32): (u: nat)
    ensures u < MODULUS
    ensures (u - x as int) % MODULUS == 0
  {
    if x < 0 then x as int + MODULUS else x as int
  }

  /** The int whose bit pattern is the low 32 bits of v: Java's narrowing
      of a wider integer, and the result of every overflowing int operation. */
  function Wrap(v: int): (r: int32)
    ensures (r as int - v) % MODULUS == 0
  {
    var m := v % MODULUS;
    if m < 0x8000_0000 then m as int32 else (m - MODULUS) as int32
  }

  /** Reading a pattern as unsigned and narrowing it back gives the same int. */
  lemma WrapUnsigned(x: int32)
    ensures Wrap(Unsigned(x)) == x
  {
  }

  /** The unsigned reading of a narrowed value is that value modulo 2^32. */
  lemma UnsignedWrap(v: int)
    ensures Unsigned(Wrap(v)) == v % MODULUS
  {
  }

  /** Narrowing leaves a value that already fits in an int unchanged. */
  lemma WrapInRange(v: int)
    requires -0x8000_0000 <= v < 0x8000_0000
    ensures Wrap(v) as int == v
  {
  }

  /** Ints with the same unsigned reading are equal. */
  lemma UnsignedInjective(a: int32, b: int32)
    requires Unsigned(a) == Unsigned(b)
    ensures a == b
  {
    WrapUnsigned(a);
    WrapUnsigned(b);
  }

  /** Bit i of x (0 is the least significant); every bit from 32 up is 0. */
  function Bit(x: int32, i: nat): (b: nat)
    ensures b <= 1
  {
    (Unsigned(x) / Pow2(i)) % 2
  }

  /** Bits at positions 32 and above are zero. */
  lemma BitAbove(x: int32, i: nat)
    requires 32 <= i
    ensures Bit(x, i) == 0
  {
    Pow2Of32();
    Pow2Monotone(32, i);
    DivSmall(Unsigned(x), Pow2(i));
  }

  /** Bit 31 is the sign: it is set exactly for negative ints. */
  lemma SignBit(x: int32)
    ensures Bit(x, 31) == if x < 0 then 1 else 0
  {
    Pow2Of32();
    assert Pow2(32) == 2 * Pow2(31);
    DivBound(Unsigned(x), Pow2(31), 2);
    if x < 0 {
      DivUnique(Unsigned(x), Pow2(31), 1, Unsigned(x) - Pow2(31));
    } else {
      DivSmall(Unsigned(x), Pow2(31));
    }
  }

  /** `a + b` on ints (JLS 15.18.2): the low 32 bits of the true sum. */
  function Add(a: int32, b: int32): (r: int32)
    ensures (r as int - (a as int + b as int)) % MODULUS == 0
  {
    Wrap(a as int + b as int)
  }

  /** Only the pattern of the second operand matters to the pattern of a sum. */
  lemma AddUnsigned(a: int32, b: int32)
    ensures Unsigned(Add(a, b)) == (a as int + Unsigned(b)) % MODULUS
  {
    UnsignedWrap(a as int + b as int);
    if b < 0 {
      DivAddMultiple(a as int + b as int, MODULUS, 1);
    }
  }

  /** `~a` (JLS 15.15.5), whose value is (-a) - 1: every bit of the pattern inverted. */
  function Not(a: int32): (r: int32)
    ensures Unsigned(r) == MODULUS - 1 - Unsigned(a)
  {
    (-(a as int) - 1) as int32
  }

  /** The AND of the low k bits of a and of b, least significant bit first. */
  function AndBits(a: nat, b: nat, k: nat): (r: nat)
    ensures r < Pow2(k)
  {
    if k == 0 then 0 else 2 * AndBits(a / 2, b / 2, k - 1) + (a % 2) * (b % 2)
  }

  /** `a & b` on ints (JLS 15.22.1): the conjunction of the two patterns,
      bit by bit (AndBit). Its sign bit is the conjunction of the sign bits,
      so it is negative exactly when both operands are. */
  function And(a: int32, b: int32): (r: int32)
    ensures r < 0 <==> a < 0 && b < 0
  {
    var ab := AndBits(Unsigned(a), Unsigned(b), 32);
    Pow2Of32();
    UnsignedWrap(ab);
    DivSmall(ab, MODULUS);
    AndBitsBit(Unsigned(a), Unsigned(b), 32, 31);
    SignBit(Wrap(ab));
    SignBit(a);
    SignBit(b);
    Wrap(ab)
  }

  /** Bit i of AndBits(a, b, k) is the product of bit i of a and bit i of b, for i below k. */
  lemma {:induction false} AndBitsBit(a: nat, b: nat, k: nat, i: nat)
    requires i < k
    ensures (AndBits(a, b, k) / Pow2(i)) % 2 == ((a / Pow2(i)) % 2) * ((b / Pow2(i)) % 2)
  {
    var rest := AndBits(a / 2, b / 2, k - 1);
    var low := (a % 2) * (b % 2);
    assert AndBits(a, b, k) == 2 * rest + low;
    if i == 0 {
      assert Pow2(0) == 1;
      HalveStep(rest, low);
    } else {
      AndBitsBit(a / 2, b / 2, k - 1, i - 1);
      ShiftStep(2 * rest + low, i);
      ShiftStep(a, i);
      ShiftStep(b, i);
      HalveStep(rest, low);
    }
  }

  /** AND with j one-bits keeps the low j bits and clears the rest. */
  lemma {:induction false} AndBitsLowOnes(a: nat, j: nat, k: nat)
    requires j <= k
    ensures AndBits(a, Pow2(j) - 1, k) == a % Pow2(j)
  {
    if j == 0 {
      AndBitsZero(a, k);
    } else {
      var half := Pow2(j - 1);
      assert Pow2(j) == 2 * half;
      AndBitsOnesStep(a, half, k);
      AndBitsLowOnes(a / 2, j - 1, k - 1);
      ModHalf(a, half);
      assert AndBits(a, 2 * half - 1, k) == a % (2 * half);
    }
  }

  /** AND with zero is zero. */
  lemma {:induction false} AndBitsZero(a: nat, k: nat)
    ensures AndBits(a, 0, k) == 0
  {
    if k > 0 {
      AndBitsZero(a / 2, k - 1);
      assert (a % 2) * (0 % 2) == 0;
    }
  }

  /** One step of AND with a mask whose lowest bit is set: that bit of a is kept. */
  lemma AndBitsOnesStep(a: nat, h: nat, k: nat)
    requires h >= 1 && k >= 1
    ensures AndBits(a, 2 * h - 1, k) == 2 * AndBits(a / 2, h - 1, k - 1) + a % 2
  {
    HalveStep(h - 1, 1);
    assert (a % 2) * ((2 * h - 1) % 2) == a % 2;
  }

  /** `a & b` works bit by bit: each result bit is set exactly when both operand bits are. */
  lemma AndBit(a: int32, b: int32, i: nat)
    requires i < 32
    ensures Bit(And(a, b), i) == Bit(a, i) * Bit(b, i)
  {
    var ab := AndBits(Unsigned(a), Unsigned(b), 32);
    Pow2Of32();
    UnsignedWrap(ab);
    DivSmall(ab, MODULUS);
    AndBitsBit(Unsigned(a), Unsigned(b), 32, i);
  }

  /** `x & m`, where m has exactly its low j bits set, keeps the low j bits of x. */
  lemma AndLowMask(x: int32, j: nat)
    requires j <= 32
    ensures And(x, Wrap(Pow2(j) - 1)) == Wrap(Unsigned(x) % Pow2(j))
  {
    Pow2Of32();
    Pow2Monotone(j, 32);
    UnsignedWrap(Pow2(j) - 1);
    DivSmall(Pow2(j) - 1, MODULUS);
    AndBitsLowOnes(Unsigned(x), j, 32);
  }

  /** `n & 0x1f` is n modulo 32 for every int n, negative ones included. */
  lemma LowFiveBits(n: int32)
    ensures And(n, 0x1f) as int == ShiftDistance(n) == n as int % 32
  {
    assert Pow2(5) == 32;
    WrapInRange(31);
    AndLowMask(n, 5);
    WrapInRange(Unsigned(n) % 32);
    if n < 0 {
      DivAddMultiple(n as int, 32, 0x800_0000);
    }
  }

  /** The distance an int shift actually moves by (JLS 15.19): the low
      five bits of the count, `n & 0x1f`, which LowFiveBits shows to be n
      modulo 32. */
  function ShiftDistance(n: int32): (s: nat)
    ensures s < 32
  {
    n as int % 32
  }

  /** `x >> n` on ints (JLS 15.19): x divided by 2^s, rounded down. */
  function ShiftRight(x: int32, n: int32): (r: int32)
    ensures r as int * Pow2(ShiftDistance(n)) <= x as int < (r as int + 1) * Pow2(ShiftDistance(n))
    ensures r < 0 <==> x < 0
  {
    var p := Pow2(ShiftDistance(n));
    DivToward(x as int, p);
    (x as int / p) as int32
  }
}
