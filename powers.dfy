/**
 * Exponentiation on exact reals, standing for Python's `float ** int` as the
 * calculator uses it: every exponent there is an integer, and a negative
 * exponent means the reciprocal of the positive power.
 */
module Powers {

  /** b raised to a natural power. */
  function Pow(b: real, n: nat): real
  {
    if n == 0 then 1.0 else b * Pow(b, n - 1)
  }

  /** A power of a non-zero base is non-zero. */
  lemma {:induction false} PowNonZero(b: real, n: nat)
    requires b != 0.0
    ensures Pow(b, n) != 0.0
  {
    if n > 0 {
      PowNonZero(b, n - 1);
    }
  }

  /** A power of a positive base is positive. */
  lemma {:induction false} PowPositive(b: real, n: nat)
    requires b > 0.0
    ensures Pow(b, n) > 0.0
  {
    if n > 0 {
      PowPositive(b, n - 1);
    }
  }

  /**
   * b raised to an integer power; a negative exponent is the reciprocal of the
   * positive power, so it needs a non-zero base (Python raises
   * ZeroDivisionError for `0.0 ** -n`).
   */
  function IntPow(b: real, e: int): (p: real)
    requires e < 0 ==> b != 0.0
    ensures e >= 0 ==> p == Pow(b, e)
    ensures e < 0 ==> p * Pow(b, -e) == 1.0
  {
    if e >= 0 then Pow(b, e) else PowNonZero(b, -e); 1.0 / Pow(b, -e)
  }

  /** An integer power of a positive base is positive. */
  lemma IntPowPositive(b: real, e: int)
    requires b > 0.0
    ensures IntPow(b, e) > 0.0
  {
    if e >= 0 {
      PowPositive(b, e);
    } else {
      PowPositive(b, -e);
    }
  }

  /** Every power of one is one. */
  lemma {:induction false} PowOfOne(n: nat)
    ensures Pow(1.0, n) == 1.0
  {
    if n > 0 {
      PowOfOne(n - 1);
    }
  }

  /** Exponents add when powers of the same base are multiplied. */
  lemma {:induction false} PowAdd(b: real, m: nat, n: nat)
    ensures Pow(b, m + n) == Pow(b, m) * Pow(b, n)
  {
    if m > 0 {
      PowAdd(b, m - 1, n);
      assert Pow(b, m + n) == b * Pow(b, (m - 1) + n);
    }
  }

  /** A base above one has every positive power above one. */
  lemma {:induction false} PowAboveOne(b: real, n: nat)
    requires b > 1.0 && n > 0
    ensures Pow(b, n) > 1.0
  {
    if n > 1 {
      PowAboveOne(b, n - 1);
      assert b * Pow(b, n - 1) > 1.0 * Pow(b, n - 1);
    }
  }

  /** Every integer power of one is one. */
  lemma IntPowOfOne(e: int)
    ensures IntPow(1.0, e) == 1.0
  {
    if e >= 0 {
      PowOfOne(e);
    } else {
      PowOfOne(-e);
    }
  }

  /** Raising to e and then to -e gives back one: the two powers are inverse. */
  lemma IntPowInverse(b: real, e: int)
    requires b != 0.0
    ensures IntPow(b, e) * IntPow(b, -e) == 1.0
  {
  }
}
