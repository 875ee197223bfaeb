/**
  Facts about powers of two and about division and remainder by them.
  Dafny's `/` and `%` on `int` are Euclidean; for a positive divisor, as
  everywhere here, `/` is floor division and `%` is never negative.
  Each step that multiplies two unknowns is its own small lemma, so that the
  larger proofs stay linear.
 */
module Arith {

  /** 2 to the power k. */
  function Pow2(k: nat): (p: nat)
    ensures 1 <= p
  {
    if k == 0 then 1 else 2 * Pow2(k - 1)
  }

  lemma {:induction false} Pow2Add(a: nat, b: nat)
    ensures Pow2(a + b) == Pow2(a) * Pow2(b)
  {
    if a > 0 {
      Pow2Add(a - 1, b);
      MulAssoc(2, Pow2(a - 1), Pow2(b));
    }
  }

  lemma {:induction false} Pow2Monotone(a: nat, b: nat)
    requires a <= b
    ensures Pow2(a) <= Pow2(b)
  {
    if a < b {
      Pow2Monotone(a, b - 1);
    }
  }

  /** 2^32, the number of distinct values of a 32-bit word. */
  lemma Pow2Of32()
    ensures Pow2(32) == 0x1_0000_0000
  {
    assert Pow2(2) == 4;
    assert Pow2(4) == 16 by { Pow2Add(2, 2); }
    assert Pow2(8) == 256 by { Pow2Add(4, 4); }
    assert Pow2(16) == 0x1_0000 by { Pow2Add(8, 8); }
    Pow2Add(16, 16);
  }

  /*** Products */

  lemma MulAssoc(a: int, b: int, c: int)
    ensures (a * b) * c == a * (b * c)
  {
  }

  lemma MulComm(a: int, b: int)
    ensures a * b == b * a
  {
  }

  lemma MulDistrib(a: int, b: int, c: int)
    ensures a * (b + c) == a * b + a * c
  {
  }

  lemma MulMonotone(p: int, x: int, y: int)
    requires p >= 0 && x <= y
    ensures p * x <= p * y
  {
  }

  lemma MulAtLeast(d: int, k: int)
    requires d > 0 && k >= 1
    ensures d * k >= d
  {
  }

  /*** Quotients and remainders */

  /** The quotient and remainder rebuild the dividend. */
  lemma Euclid(a: int, d: int)
    requires d > 0
    ensures a == d * (a / d) + a % d && 0 <= a % d < d
  {
  }

  /** Quotient and remainder are the only pair that rebuilds the dividend. */
  lemma DivUnique(a: int, d: int, q: int, r: int)
    requires d > 0 && a == d * q + r && 0 <= r < d
    ensures a / d == q && a % d == r
  {
    var q', r' := a / d, a % d;
    Euclid(a, d);
    assert d * q - d * q' == r' - r;
    MulDistrib(d, q, -q');
    if q > q' {
      MulAtLeast(d, q - q');
    } else if q < q' {
      MulAtLeast(d, q' - q);
    }
  }

  /** Dividing by p and then by q splits a into a quotient by p * q and a
      remainder built from both remainders. */
  lemma DivNested(a: int, p: int, q: int)
    requires p > 0 && q > 0
    ensures p * q > 0
    ensures a == (p * q) * ((a / p) / q) + (p * ((a / p) % q) + a % p)
    ensures 0 <= p * ((a / p) % q) + a % p < p * q
  {
    var q1, r1 := a / p, a % p;
    var q2, r2 := q1 / q, q1 % q;
    Euclid(a, p);
    Euclid(q1, q);
    MulAtLeast(p, q);
    MulDistrib(p, q * q2, r2);
    MulAssoc(p, q, q2);
    MulMonotone(p, 0, r2);
    MulMonotone(p, r2, q - 1);
    MulDistrib(p, q, -1);
  }

  /** Dividing twice is dividing by the product. */
  lemma DivDiv(a: int, p: int, q: int)
    requires p > 0 && q > 0
    ensures p * q > 0 && a / p / q == a / (p * q)
  {
    DivNested(a, p, q);
    DivUnique(a, p * q, (a / p) / q, p * ((a / p) % q) + a % p);
  }

  /** The remainder modulo p * q, divided by p, is the quotient by p taken modulo q. */
  lemma ModDiv(a: int, p: int, q: int)
    requires p > 0 && q > 0
    ensures p * q > 0 && (a % (p * q)) / p == (a / p) % q
  {
    DivNested(a, p, q);
    DivUnique(a, p * q, (a / p) / q, p * ((a / p) % q) + a % p);
    Euclid(a, p);
    DivUnique(p * ((a / p) % q) + a % p, p, (a / p) % q, a % p);
  }

  /** Taking the remainder modulo a multiple of p first does not change the remainder modulo p. */
  lemma ModMod(a: int, p: int, q: int)
    requires p > 0 && q > 0
    ensures p * q > 0 && (a % (p * q)) % p == a % p
  {
    DivNested(a, p, q);
    DivUnique(a, p * q, (a / p) / q, p * ((a / p) % q) + a % p);
    Euclid(a, p);
    DivUnique(p * ((a / p) % q) + a % p, p, (a / p) % q, a % p);
  }

  /** A multiple of p divided by p gives back the factor. */
  lemma MulDiv(a: int, p: int)
    requires p > 0
    ensures (a * p) / p == a && (a * p) % p == 0
  {
    MulComm(a, p);
    DivUnique(a * p, p, a, 0);
  }

  /** A non-negative value below d has quotient 0 and is its own remainder. */
  lemma DivSmall(a: int, d: int)
    requires 0 <= a < d
    ensures a / d == 0 && a % d == a
  {
    DivUnique(a, d, 0, a);
  }

  /** The quotient of a non-negative value below p * q by p is below q. */
  lemma DivBound(a: int, p: int, q: int)
    requires p > 0 && q > 0 && 0 <= a < p * q
    ensures 0 <= a / p < q
  {
    var q1 := a / p;
    Euclid(a, p);
    if q1 >= q {
      MulMonotone(p, q, q1);
    }
    if q1 < 0 {
      MulAtLeast(p, -q1);
    }
  }

  /** Floor division by a positive number moves toward zero or stays, and keeps the sign. */
  lemma DivToward(a: int, p: int)
    requires p > 0
    ensures p * (a / p) <= a < p * (a / p + 1)
    ensures a >= 0 ==> 0 <= a / p <= a
    ensures a < 0 ==> a <= a / p < 0
  {
    var q := a / p;
    Euclid(a, p);
    MulDistrib(p, q, 1);
    if a >= 0 {
      if q < 0 {
        MulAtLeast(p, -q);
      } else if q > 0 {
        MulAtLeast(q, p);
        MulComm(p, q);
      }
    } else {
      if q >= 0 {
        MulMonotone(p, 0, q);
      } else if p > 1 {
        MulAtLeast(p - 1, -q);
        MulDistrib(-q, p, -1);
        MulComm(p - 1, -q);
      }
    }
  }

  /** The remainder modulo 2 * p, rebuilt from the halved value's remainder modulo p and the dropped bit. */
  lemma ModHalf(a: int, p: int)
    requires p > 0
    ensures a % (2 * p) == 2 * ((a / 2) % p) + a % 2
  {
    DivNested(a, 2, p);
    DivUnique(a, 2 * p, (a / 2) / p, 2 * ((a / 2) % p) + a % 2);
  }

  /** Adding t multiples of p to the dividend adds t to the quotient and
      leaves the remainder alone. */
  lemma DivAddMultiple(a: int, p: int, t: int)
    requires p > 0
    ensures (a + p * t) / p == a / p + t
    ensures (a + p * t) % p == a % p
  {
    Euclid(a, p);
    MulDistrib(p, a / p, t);
    DivUnique(a + p * t, p, a / p + t, a % p);
  }

  /** Rounding down to a multiple of p drops the remainder. */
  lemma RoundDown(a: int, p: int)
    requires p > 0
    ensures (a / p) * p == a - a % p
  {
    Euclid(a, p);
    MulComm(a / p, p);
  }

  /** Appending bit c below v, then halving, gives v back; the appended bit is the remainder. */
  lemma HalveStep(v: int, c: int)
    requires 0 <= c <= 1
    ensures (2 * v + c) / 2 == v && (2 * v + c) % 2 == c
  {
    DivUnique(2 * v + c, 2, v, c);
  }

  /** Dividing by 2^i is halving and then dividing by 2^(i-1). */
  lemma ShiftStep(a: int, i: nat)
    requires 0 < i
    ensures a / Pow2(i) == (a / 2) / Pow2(i - 1)
  {
    DivDiv(a, 2, Pow2(i - 1));
  }

  /** One less than a multiple p * t, divided by p, is t - 1. */
  lemma AllOnesQuotient(p: int, t: int)
    requires p > 0 && t > 0
    ensures (p * t - 1) / p == t - 1
  {
    MulDistrib(p, t, -1);
    DivUnique(p * t - 1, p, t - 1, p - 1);
  }
}
