/**
 * `calc_interest`: the annualised geometric rate `(1 + (sell - buy) / buy) ** (1 / (sellYear - buyYear)) - 1`.
 *
 * Dafny has no fractional powers, so a successful call is represented exactly by the pair
 * (growth, years): the rate is the principal `years`-th root of `growth`, minus one. `Denotes`
 * says which real number such a pair stands for.
 */
module Interest {
  import opened Outcomes
  import opened Power

  /** The rate `growth ** (1 / years) - 1`, kept symbolic. */
  datatype Rate = AnnualRate(growth: real, years: int)

  function CalcInterest(buyPrice: real, sellPrice: real, buyYear: int, sellYear: int): (r: Result<Rate>)
    ensures r.Success? <==>
      buyPrice != 0.0 && sellYear != buyYear &&
      (sellYear < buyYear ==> sellPrice != 0.0) &&
      (sellPrice / buyPrice < 0.0 ==> sellYear - buyYear == 1 || sellYear - buyYear == -1)
    ensures r.Success? ==> r.value.growth * buyPrice == sellPrice && r.value.years == sellYear - buyYear
    ensures r.Failure? ==> r.error == (if buyPrice != 0.0 && sellYear != buyYear && (sellYear > buyYear || sellPrice != 0.0) then NotReal else ZeroDivision)
  {
    if buyPrice == 0.0 then Failure(ZeroDivision)
    else
      var growth := 1.0 + (sellPrice - buyPrice) / buyPrice;
      if sellYear == buyYear then Failure(ZeroDivision)
      else if growth == 0.0 && sellYear < buyYear then Failure(ZeroDivision)
      else if growth < 0.0 && sellYear - buyYear != 1 && sellYear - buyYear != -1 then Failure(NotReal)
      else Success(AnnualRate(growth, sellYear - buyYear))
  }

  /**
   * What `calc_interest` gives when the sell price is a numpy `float64`, as the local end value in
   * `get_return_value_in_local` is: numpy's power does not raise, so zero raised to a negative power
   * is infinity and a negative base raised to a non-integral power is NaN.
   */
  datatype Float64Rate = Finite(rate: Rate) | Infinite | NotANumber

  /**
   * `calc_interest` on a `float64` sell price: only the Python division `1 / (sellYear - buyYear)`
   * still raises. Wherever plain floats would not raise, the rate is the same.
   */
  function CalcInterestFloat64(buyPrice: real, sellPrice: real, buyYear: int, sellYear: int): (r: Result<Float64Rate>)
    requires buyPrice != 0.0
    ensures r.Failure? <==> sellYear == buyYear
    ensures r.Failure? ==> r.error == ZeroDivision
    ensures r == Success(Infinite) <==> sellPrice == 0.0 && sellYear < buyYear
    ensures r == Success(NotANumber) <==> sellPrice / buyPrice < 0.0 && (sellYear - buyYear > 1 || sellYear - buyYear < -1)
    ensures (r.Success? && r.value.Finite?) <==> CalcInterest(buyPrice, sellPrice, buyYear, sellYear).Success?
    ensures r.Success? && r.value.Finite? ==> r.value.rate == CalcInterest(buyPrice, sellPrice, buyYear, sellYear).value
  {
    var growth := 1.0 + (sellPrice - buyPrice) / buyPrice;
    if sellYear == buyYear then Failure(ZeroDivision)
    else if growth == 0.0 && sellYear < buyYear then Success(Infinite)
    else if growth < 0.0 && sellYear - buyYear != 1 && sellYear - buyYear != -1 then Success(NotANumber)
    else Success(Finite(AnnualRate(growth, sellYear - buyYear)))
  }

  /**
   * `r` is the real number that `rate` stands for: compounding `1 + r` over the period gives back
   * the growth (over a negative period, its inverse), and, where the exponent is not an integer,
   * `1 + r` is the principal, non-negative root.
   */
  predicate Denotes(rate: Rate, r: real)
  {
    if rate.years > 0 then
      Pow(1.0 + r, rate.years) == rate.growth && (rate.years == 1 || 1.0 + r >= 0.0)
    else if rate.years < 0 then
      Pow(1.0 + r, -rate.years) * rate.growth == 1.0 && (rate.years == -1 || 1.0 + r >= 0.0)
    else
      false
  }

  /** A rate stands for at most one real number. */
  lemma DenotesUnique(rate: Rate, r1: real, r2: real)
    requires Denotes(rate, r1) && Denotes(rate, r2)
    ensures r1 == r2
  {
    var n := if rate.years > 0 then rate.years else -rate.years;
    if n == 1 {
      assert Pow(1.0 + r1, 1) == 1.0 + r1 && Pow(1.0 + r2, 1) == 1.0 + r2;
    } else {
      assert Pow(1.0 + r1, n) == Pow(1.0 + r2, n);
      PowInjective(1.0 + r1, 1.0 + r2, n);
    }
  }

  /** Over a one-year period the rate is the plain relative gain. */
  lemma OneYearRate(buyPrice: real, sellPrice: real, year: int)
    requires buyPrice != 0.0
    ensures CalcInterest(buyPrice, sellPrice, year, year + 1).Success?
    ensures Denotes(CalcInterest(buyPrice, sellPrice, year, year + 1).value, (sellPrice - buyPrice) / buyPrice)
  {
    var rate := CalcInterest(buyPrice, sellPrice, year, year + 1).value;
    assert Pow(1.0 + (sellPrice - buyPrice) / buyPrice, 1) == 1.0 + (sellPrice - buyPrice) / buyPrice;
  }

  /** The rate is zero exactly when the price did not change. */
  lemma {:induction false} ZeroRateIffUnchanged(buyPrice: real, sellPrice: real, buyYear: int, sellYear: int)
    requires CalcInterest(buyPrice, sellPrice, buyYear, sellYear).Success?
    ensures Denotes(CalcInterest(buyPrice, sellPrice, buyYear, sellYear).value, 0.0) <==> sellPrice == buyPrice
  {
    var rate := CalcInterest(buyPrice, sellPrice, buyYear, sellYear).value;
    var n := if rate.years > 0 then rate.years else -rate.years;
    PowOfOne(n);
  }

  /** Hence an unchanged price yields the rate 0 and no other. */
  lemma UnchangedPriceZeroRate(price: real, buyYear: int, sellYear: int, r: real)
    requires CalcInterest(price, price, buyYear, sellYear).Success?
    requires Denotes(CalcInterest(price, price, buyYear, sellYear).value, r)
    ensures r == 0.0
  {
    ZeroRateIffUnchanged(price, price, buyYear, sellYear);
    DenotesUnique(CalcInterest(price, price, buyYear, sellYear).value, r, 0.0);
  }

  /** Over a positive period with a non-negative outcome, a larger growth never means a smaller rate. */
  lemma RateMonotone(rate1: Rate, rate2: Rate, r1: real, r2: real)
    requires rate1.years == rate2.years > 0
    requires 0.0 <= rate1.growth <= rate2.growth
    requires Denotes(rate1, r1) && Denotes(rate2, r2)
    ensures r1 <= r2
  {
    var n := rate1.years;
    if n == 1 {
      assert Pow(1.0 + r1, 1) == 1.0 + r1 && Pow(1.0 + r2, 1) == 1.0 + r2;
    } else {
      PowReflectsOrder(1.0 + r1, 1.0 + r2, n);
    }
  }

  /** Over a positive period, the rate is positive exactly when the investment gained. */
  lemma PositiveRateIffGain(buyPrice: real, sellPrice: real, buyYear: int, sellYear: int, r: real)
    requires buyPrice > 0.0 && sellPrice >= 0.0 && sellYear > buyYear
    requires CalcInterest(buyPrice, sellPrice, buyYear, sellYear).Success?
    requires Denotes(CalcInterest(buyPrice, sellPrice, buyYear, sellYear).value, r)
    ensures r > 0.0 <==> sellPrice > buyPrice
  {
    var n := sellYear - buyYear;
    var rate := CalcInterest(buyPrice, sellPrice, buyYear, sellYear).value;
    assert rate.growth * buyPrice == sellPrice;
    PowOfOne(n);
    if n == 1 {
      assert Pow(1.0 + r, 1) == 1.0 + r;
    } else {
      assert 1.0 + r >= 0.0;
      if r > 0.0 {
        PowStrictlyIncreasing(1.0, 1.0 + r, n);
        assert rate.growth > 1.0;
      } else {
        if 1.0 + r < 1.0 {
          PowStrictlyIncreasing(1.0 + r, 1.0, n);
        }
        assert rate.growth <= 1.0;
      }
    }
  }

  /**
   * 1000 grown to 2000 over 2001..2011 gives the rate `2 ** (1/10) - 1`, which is about 7.177% a
   * year; `r` is that principal root.
   */
  lemma GrossReturnExample(r: real)
    requires Denotes(AnnualRate(2.0, 10), r)
    ensures CalcInterest(1000.0, 2000.0, 2001, 2011) == Success(AnnualRate(2.0, 10))
    ensures 0.07177 < r < 0.07178
  {
    var rate := AnnualRate(2.0, 10);
    PowBounds();
    var lo, hi := AnnualRate(Pow(1.07177, 10), 10), AnnualRate(Pow(1.07178, 10), 10);
    assert Denotes(lo, 0.07177) && Denotes(hi, 0.07178);
    PowNonNegative(1.07177, 10);
    RateMonotone(rate, hi, r, 0.07178);
    RateMonotone(lo, rate, 0.07177, r);
  }

  lemma PowBounds()
    ensures Pow(1.07177, 10) < 2.0 < Pow(1.07178, 10)
  {
    assert Pow(1.07177, 10) == 1.07177 * 1.07177 * 1.07177 * 1.07177 * 1.07177 * 1.07177 * 1.07177 * 1.07177 * 1.07177 * 1.07177;
  }

  /**
   * 1000 in local money ending at 8008.911933150266 over 2001..2021 (the local-currency scenario)
   * gives a finite rate, about 10.963% a year; `r` is the principal root it stands for.
   */
  lemma LocalRateExample(r: real)
    requires Denotes(AnnualRate(8.008911933150266, 20), r)
    ensures CalcInterestFloat64(1000.0, 8008.911933150266, 2001, 2021) == Success(Finite(AnnualRate(8.008911933150266, 20)))
    ensures 0.10963 < r < 0.10964
  {
    var rate := AnnualRate(8.008911933150266, 20);
    LocalPowBounds();
    var lo, hi := AnnualRate(Pow(1.10963, 20), 20), AnnualRate(Pow(1.10964, 20), 20);
    assert Denotes(lo, 0.10963) && Denotes(hi, 0.10964);
    PowNonNegative(1.10963, 20);
    RateMonotone(rate, hi, r, 0.10964);
    RateMonotone(lo, rate, 0.10963, r);
  }

  lemma LocalPowBounds()
    ensures Pow(1.10963, 20) < 8.008911933150266 < Pow(1.10964, 20)
  {
    PowTwenty(1.10963);
    PowTwenty(1.10964);
    assert Pow(1.10963, 5) == 1.10963 * 1.10963 * 1.10963 * 1.10963 * 1.10963;
    assert Pow(1.10964, 5) == 1.10964 * 1.10964 * 1.10964 * 1.10964 * 1.10964;
  }

  /** `x ** 20` as four factors of `x ** 5`. */
  lemma PowTwenty(x: real)
    ensures Pow(x, 20) == (Pow(x, 5) * Pow(x, 5)) * (Pow(x, 5) * Pow(x, 5))
  {
    PowAdd(x, 5, 5);
    PowAdd(x, 10, 10);
  }
}
