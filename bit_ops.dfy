/**
  The two static helpers of class BitOps: `unsignedShiftRightInt(x, n)`,
  which is `x >>> n`, and `bitShiftLeftInt(x, n)`, which is `x << n`, both on
  Java ints. Each function is written the way section 15.19 of the Java
  Language Specification defines the value of its operator; the lemmas prove
  what that means for the 32-bit pattern: which bits move where, which are
  filled with zero, and how the shift count is reduced to five bits.
 */
module BitOps {
  import opened Arith
  import opened JavaInt

  /** `x << n`: x multiplied by 2^s, where s is the low five bits of n, with
      every bit that passes bit 31 discarded. */
  function BitShiftLeftInt(x: int32, n: int32): (r: int32)
    ensures Unsigned(r) == (Unsigned(x) * Pow2(ShiftDistance(n))) % MODULUS
  {
    var p := Pow2(ShiftDistance(n));
    UnsignedWrap(x as int * p);
    ScaleCongruent(x, p);
    Wrap(x as int * p)
  }

  /** `x >>> n`: for non-negative x the same as `x >> n`, and for negative x
      `(x >> n) + (2 << ~n)`, the two cases JLS 15.19 gives. Its unsigned
      value is the unsigned value of x divided by 2^s, rounded down. */
  function UnsignedShiftRightInt(x: int32, n: int32): (r: int32)
    ensures Unsigned(r) == Unsigned(x) / Pow2(ShiftDistance(n))
  {
    if x >= 0 then
      ShiftRightOfNonNegative(x, n);
      ShiftRight(x, n)
    else
      ShiftRightOfNegative(x, n);
      Add(ShiftRight(x, n), BitShiftLeftInt(2, Not(n)))
  }

  /** Multiplying congruent values by the same factor keeps them congruent. */
  lemma ScaleCongruent(x: int32, p: nat)
    ensures (x as int * p) % MODULUS == (Unsigned(x) * p) % MODULUS
  {
    if x < 0 {
      assert Unsigned(x) * p == x as int * p + MODULUS * p;
      DivAddMultiple(x as int * p, MODULUS, p);
    }
  }

  /** The first case of `>>>`: for non-negative x, `x >> n` already has the
      unsigned quotient as its value. */
  lemma ShiftRightOfNonNegative(x: int32, n: int32)
    requires x >= 0
    ensures Unsigned(ShiftRight(x, n)) == Unsigned(x) / Pow2(ShiftDistance(n))
  {
    var p, q := Pow2(ShiftDistance(n)), ShiftRight(x, n) as int;
    DivUnique(x as int, p, q, x as int - q * p);
  }

  /** `2 << ~n` is 2^(32-s), which wraps to 0 when s is 0. */
  lemma TwoShiftedByComplement(n: int32)
    ensures Unsigned(BitShiftLeftInt(2, Not(n)))
         == if ShiftDistance(n) == 0 then 0 else Pow2(32 - ShiftDistance(n))
  {
    var s := ShiftDistance(n);
    var top := Pow2(32 - s);
    assert ShiftDistance(Not(n)) == 31 - s;
    assert top == 2 * Pow2(31 - s);
    assert Unsigned(BitShiftLeftInt(2, Not(n))) == top % MODULUS;
    Pow2Of32();
    if s == 0 {
      DivAddMultiple(0, MODULUS, 1);
    } else {
      Pow2Monotone(32 - s, 31);
      DivSmall(top, MODULUS);
    }
  }

  /** The second case of `>>>`: for negative x, adding `2 << ~n` to `x >> n`
      turns the floor of the signed quotient into the unsigned quotient. */
  lemma ShiftRightOfNegative(x: int32, n: int32)
    requires x < 0
    ensures Unsigned(Add(ShiftRight(x, n), BitShiftLeftInt(2, Not(n))))
         == Unsigned(x) / Pow2(ShiftDistance(n))
  {
    var s := ShiftDistance(n);
    var p := Pow2(s);
    var q := ShiftRight(x, n);
    var k := BitShiftLeftInt(2, Not(n));
    TwoShiftedByComplement(n);
    AddUnsigned(q, k);
    DivUnique(x as int, p, q as int, x as int - q as int * p);
    if s == 0 {
      DivAddMultiple(x as int, MODULUS, 1);
    } else {
      var top := Pow2(32 - s);
      Pow2Of32();
      Pow2Add(s, 32 - s);
      assert Unsigned(x) == x as int + p * top;
      DivAddMultiple(x as int, p, top);
      DivToward(Unsigned(x), p);
      DivSmall(q as int + top, MODULUS);
    }
  }

  /*** The shift count */

  /** Only the low five bits of the count matter: shifting by n and by
      `n & 0x1f` give the same int, for every n, negative ones included. */
  lemma ShiftCountMasked(x: int32, n: int32)
    ensures UnsignedShiftRightInt(x, n) == UnsignedShiftRightInt(x, And(n, 0x1f))
    ensures BitShiftLeftInt(x, n) == BitShiftLeftInt(x, And(n, 0x1f))
  {
    var m := And(n, 0x1f);
    LowFiveBits(n);
    assert ShiftDistance(m) == ShiftDistance(n);
    SameDistanceSameShift(x, n, m);
  }

  /** Counts with the same distance shift alike. */
  lemma SameDistanceSameShift(x: int32, n: int32, m: int32)
    requires ShiftDistance(n) == ShiftDistance(m)
    ensures UnsignedShiftRightInt(x, n) == UnsignedShiftRightInt(x, m)
    ensures BitShiftLeftInt(x, n) == BitShiftLeftInt(x, m)
  {
    UnsignedInjective(UnsignedShiftRightInt(x, n), UnsignedShiftRightInt(x, m));
    UnsignedInjective(BitShiftLeftInt(x, n), BitShiftLeftInt(x, m));
  }

  /** Shifting by 0 leaves every int unchanged. */
  lemma ShiftByZero(x: int32)
    ensures UnsignedShiftRightInt(x, 0) == x
    ensures BitShiftLeftInt(x, 0) == x
  {
    assert Pow2(0) == 1;
    UnsignedInjective(UnsignedShiftRightInt(x, 0), x);
    DivSmall(Unsigned(x), MODULUS);
    UnsignedInjective(BitShiftLeftInt(x, 0), x);
  }

  /*** Unsigned right shift */

  /** Bit i of `x >>> n` is bit i + s of x, and 0 where i + s passes bit 31:
      the pattern moves down s places and is filled with zeros from the top. */
  lemma UnsignedShiftRightBit(x: int32, n: int32, i: nat)
    requires i < 32
    ensures Bit(UnsignedShiftRightInt(x, n), i)
         == if i + ShiftDistance(n) < 32 then Bit(x, i + ShiftDistance(n)) else 0
  {
    var s := ShiftDistance(n);
    DivDiv(Unsigned(x), Pow2(s), Pow2(i));
    Pow2Add(s, i);
    if 32 <= i + s {
      BitAbove(x, i + s);
    }
  }

  /** The top s bits of `x >>> n` are zero, so its unsigned value is below
      2^(32-s); for s at least 1 the result is never negative. */
  lemma UnsignedShiftRightTopBitsZero(x: int32, n: int32)
    ensures Unsigned(UnsignedShiftRightInt(x, n)) < Pow2(32 - ShiftDistance(n))
    ensures ShiftDistance(n) >= 1 ==> UnsignedShiftRightInt(x, n) >= 0
    ensures forall i :: 32 - ShiftDistance(n) <= i < 32 ==> Bit(UnsignedShiftRightInt(x, n), i) == 0
  {
    var s := ShiftDistance(n);
    Pow2Of32();
    Pow2Add(s, 32 - s);
    DivBound(Unsigned(x), Pow2(s), Pow2(32 - s));
    if s >= 1 {
      Pow2Monotone(32 - s, 31);
      assert Pow2(32) == 2 * Pow2(31);
    }
    forall i | 32 - s <= i < 32
      ensures Bit(UnsignedShiftRightInt(x, n), i) == 0
    {
      UnsignedShiftRightBit(x, n, i);
    }
  }

  /** `x >>> n` and `x >> n` agree exactly when x is non-negative or the
      distance is 0; otherwise the logical shift is non-negative while the
      arithmetic one keeps the sign. */
  lemma UnsignedShiftRightVersusShiftRight(x: int32, n: int32)
    ensures UnsignedShiftRightInt(x, n) == ShiftRight(x, n) <==> x >= 0 || ShiftDistance(n) == 0
  {
    if x < 0 {
      if ShiftDistance(n) == 0 {
        ShiftByZero(x);
        assert Pow2(0) == 1;
      } else {
        UnsignedShiftRightTopBitsZero(x, n);
      }
    }
  }

  /** Shifting all ones right by n in [1, 31] leaves the low 32 - n bits set. */
  lemma UnsignedShiftRightAllOnes(n: int32)
    requires 1 <= n <= 31
    ensures UnsignedShiftRightInt(-1, n) as int == Pow2(32 - n as int) - 1
  {
    var p, top := Pow2(n as int), Pow2(32 - n as int);
    Pow2Of32();
    Pow2Add(n as int, 32 - n as int);
    assert ShiftDistance(n) == n as int;
    assert Unsigned(-1) == p * top - 1;
    AllOnesQuotient(p, top);
    assert Unsigned(UnsignedShiftRightInt(-1, n)) == top - 1;
    Pow2Monotone(32 - n as int, 31);
    assert Pow2(32) == 2 * Pow2(31);
  }

  /** `-1 >>> 1` is 0x7FFFFFFF and `8 >>> 2` is 2. */
  lemma UnsignedShiftRightExamples()
    ensures UnsignedShiftRightInt(-1, 1) == 0x7FFF_FFFF
    ensures UnsignedShiftRightInt(8, 2) == 2
  {
    UnsignedShiftRightAllOnes(1);
    Pow2Of32();
    assert Pow2(31) == 0x8000_0000;
    assert Pow2(2) == 4;
  }

  /*** Left shift */

  /** Bit i of `x << n` is bit i - s of x, and 0 below s: the pattern moves
      up s places, zeros come in at the bottom, and bits past 31 are lost. */
  lemma BitShiftLeftBit(x: int32, n: int32, i: nat)
    requires i < 32
    ensures Bit(BitShiftLeftInt(x, n), i)
         == if ShiftDistance(n) <= i then Bit(x, i - ShiftDistance(n)) else 0
  {
    var s := ShiftDistance(n);
    var p := Pow2(s);
    var whole := Unsigned(x) * p;
    Pow2Of32();
    Pow2Add(i, 32 - i);
    ModDiv(whole, Pow2(i), Pow2(32 - i));
    assert Pow2(32 - i) == 2 * Pow2(31 - i);
    ModMod(whole / Pow2(i), 2, Pow2(31 - i));
    if s <= i {
      Pow2Add(s, i - s);
      DivDiv(whole, p, Pow2(i - s));
      MulDiv(Unsigned(x), p);
    } else {
      var gap := Pow2(s - i - 1);
      Pow2Add(i, s - i);
      assert Pow2(s - i) == 2 * gap;
      MulAssoc(Unsigned(x), Pow2(s - i), Pow2(i));
      MulComm(Pow2(i), Pow2(s - i));
      MulDiv(Unsigned(x) * Pow2(s - i), Pow2(i));
      MulAssoc(Unsigned(x), gap, 2);
      MulComm(2, gap);
      MulDiv(Unsigned(x) * gap, 2);
    }
  }

  /** The low s bits of `x << n` are zero: its unsigned value is a multiple of 2^s. */
  lemma BitShiftLeftLowBitsZero(x: int32, n: int32)
    ensures Unsigned(BitShiftLeftInt(x, n)) % Pow2(ShiftDistance(n)) == 0
    ensures forall i :: 0 <= i < ShiftDistance(n) ==> Bit(BitShiftLeftInt(x, n), i) == 0
  {
    var s := ShiftDistance(n);
    Pow2Of32();
    Pow2Add(s, 32 - s);
    ModMod(Unsigned(x) * Pow2(s), Pow2(s), Pow2(32 - s));
    MulDiv(Unsigned(x), Pow2(s));
    forall i | 0 <= i < s
      ensures Bit(BitShiftLeftInt(x, n), i) == 0
    {
      BitShiftLeftBit(x, n, i);
    }
  }

  /** `1 << 31` wraps into the sign bit and is the least int; `3 << 2` is 12. */
  lemma BitShiftLeftExamples()
    ensures BitShiftLeftInt(1, 31) == -0x8000_0000
    ensures BitShiftLeftInt(3, 2) == 12
  {
    Pow2Of32();
    assert Pow2(32) == 2 * Pow2(31);
    DivSmall(Pow2(31), MODULUS);
    assert Pow2(2) == 4;
    UnsignedInjective(BitShiftLeftInt(1, 31), -0x8000_0000);
    UnsignedInjective(BitShiftLeftInt(3, 2), 12);
  }

  /*** The two shifts together */

  /** Shifting left and then logically right by the same count clears the top
      s bits: the result is x masked with its low 32 - s bits. */
  lemma RightAfterLeft(x: int32, n: int32)
    ensures UnsignedShiftRightInt(BitShiftLeftInt(x, n), n)
         == And(x, Wrap(Pow2(32 - ShiftDistance(n)) - 1))
  {
    var s := ShiftDistance(n);
    var p, top := Pow2(s), Pow2(32 - s);
    Pow2Of32();
    Pow2Add(s, 32 - s);
    ModDiv(Unsigned(x) * p, p, top);
    MulDiv(Unsigned(x), p);
    AndLowMask(x, 32 - s);
    Pow2Monotone(32 - s, 32);
    UnsignedWrap(Unsigned(x) % top);
    DivSmall(Unsigned(x) % top, MODULUS);
    UnsignedInjective(UnsignedShiftRightInt(BitShiftLeftInt(x, n), n), Wrap(Unsigned(x) % top));
  }

  /** Shifting logically right and then left by the same count clears the low
      s bits and keeps the others. */
  lemma LeftAfterRight(x: int32, n: int32)
    ensures Unsigned(BitShiftLeftInt(UnsignedShiftRightInt(x, n), n))
         == Unsigned(x) - Unsigned(x) % Pow2(ShiftDistance(n))
  {
    var p := Pow2(ShiftDistance(n));
    var q := Unsigned(x) / p;
    assert Unsigned(BitShiftLeftInt(UnsignedShiftRightInt(x, n), n)) == (q * p) % MODULUS;
    RoundDown(Unsigned(x), p);
    DivToward(Unsigned(x), p);
    MulMonotone(p, 0, q);
    MulComm(p, q);
    DivSmall(q * p, MODULUS);
  }
}
