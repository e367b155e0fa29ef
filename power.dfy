/** Natural-number powers of reals and the monotonicity facts the rate reasoning needs. */
module Power {

  function Pow(x: real, n: nat): real
  {
    if n == 0 then 1.0 else x * Pow(x, n - 1)
  }

  lemma {:induction false} PowNonNegative(x: real, n: nat)
    requires x >= 0.0
    ensures Pow(x, n) >= 0.0
  {
    if n > 0 {
      PowNonNegative(x, n - 1);
    }
  }

  lemma {:induction false} PowPositive(x: real, n: nat)
    requires x > 0.0
    ensures Pow(x, n) > 0.0
  {
    if n > 0 {
      PowPositive(x, n - 1);
    }
  }

  lemma {:induction false} PowOfOne(n: nat)
    ensures Pow(1.0, n) == 1.0
  {
    if n > 0 {
      PowOfOne(n - 1);
    }
  }

  /** A positive power is zero exactly when its base is. */
  lemma {:induction false} PowZeroIff(x: real, n: nat)
    ensures Pow(x, n) == 0.0 <==> x == 0.0 && n > 0
  {
    if n > 0 {
      PowZeroIff(x, n - 1);
    }
  }

  /** Exponents add: `x ** (m + n) == x ** m * x ** n`. */
  lemma {:induction false} PowAdd(x: real, m: nat, n: nat)
    ensures Pow(x, m + n) == Pow(x, m) * Pow(x, n)
  {
    if m > 0 {
      PowAdd(x, m - 1, n);
      assert Pow(x, m + n) == x * Pow(x, (m - 1) + n);
    }
  }

  /** On the non-negative reals, raising to a positive power is strictly increasing. */
  lemma {:induction false} PowStrictlyIncreasing(x: real, y: real, n: nat)
    requires 0.0 <= x < y
    requires n >= 1
    ensures Pow(x, n) < Pow(y, n)
  {
    if n == 1 {
      assert Pow(x, 0) == 1.0 && Pow(y, 0) == 1.0;
    } else {
      PowStrictlyIncreasing(x, y, n - 1);
      PowNonNegative(x, n - 1);
      MultiplyStrictly(x, y, Pow(x, n - 1), Pow(y, n - 1));
    }
  }

  lemma MultiplyStrictly(x: real, y: real, px: real, py: real)
    requires 0.0 <= x < y && 0.0 <= px < py
    ensures x * px < y * py
  {
    assert x * px <= x * py;
    assert x * py < y * py;
  }

  /** Hence two non-negative bases with the same positive power are equal. */
  lemma PowInjective(x: real, y: real, n: nat)
    requires x >= 0.0 && y >= 0.0 && n >= 1
    requires Pow(x, n) == Pow(y, n)
    ensures x == y
  {
    if x < y {
      PowStrictlyIncreasing(x, y, n);
    } else if y < x {
      PowStrictlyIncreasing(y, x, n);
    }
  }

  /** And a larger power means a larger base. */
  lemma PowReflectsOrder(x: real, y: real, n: nat)
    requires x >= 0.0 && y >= 0.0 && n >= 1
    requires Pow(x, n) <= Pow(y, n)
    ensures x <= y
  {
    if y < x {
      PowStrictlyIncreasing(y, x, n);
    }
  }
}
