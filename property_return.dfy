/**
 * `get_property_return`: the property's appreciation rate, the rent accrued and reinvested at that
 * rate over the holding period, and the total rate including that rent.
 */
module PropertyReturn {
  import opened Outcomes
  import opened Power
  import opened Interest

  /** The triple `(returnonappreciation, totalreturn, exvalue)` `get_property_return` returns. */
  datatype PropertyReturn = PropertyReturn(appreciation: real, totalReturn: Rate, rentalValue: real)

  /** How often the reinvestment loop runs: once for every year strictly between purchase and sale. */
  function Reinvestments(buyYear: int, sellYear: int): nat
  {
    if sellYear - buyYear > 1 then sellYear - buyYear - 1 else 0
  }

  /**
   * The accrued rent after `k` reinvestment years, in closed form: the first year's rent (no cost
   * deducted) grown `k` times, plus `k` later years' net rent, each on a property value grown
   * `k + 1` times.
   */
  function AccruedRent(buyPrice: real, rentalIncomeFrac: real, costFraction: real, growth: real, k: nat): real
  {
    buyPrice * rentalIncomeFrac * Pow(growth, k)
    + (k as real) * buyPrice * rentalIncomeFrac * (1.0 - costFraction) * Pow(growth, k + 1)
  }

  /** `appreciation` is what `calc_interest(buyPrice, sellPrice, buyYear, sellYear)` evaluates to, if it succeeds. */
  predicate IsAppreciationRate(buyPrice: real, sellPrice: real, buyYear: int, sellYear: int, appreciation: real)
  {
    CalcInterest(buyPrice, sellPrice, buyYear, sellYear).Success? ==>
      Denotes(CalcInterest(buyPrice, sellPrice, buyYear, sellYear).value, appreciation)
  }

  lemma AccruedRentStep(buyPrice: real, rentalIncomeFrac: real, costFraction: real, growth: real, k: nat)
    ensures (AccruedRent(buyPrice, rentalIncomeFrac, costFraction, growth, k)
             + buyPrice * Pow(growth, k + 1) * rentalIncomeFrac * (1.0 - costFraction)) * growth
         == AccruedRent(buyPrice, rentalIncomeFrac, costFraction, growth, k + 1)
  {
    var p := Pow(growth, k);
    assert Pow(growth, k + 1) == growth * p;
    assert Pow(growth, k + 2) == growth * (growth * p);
    var a := buyPrice * rentalIncomeFrac;
    var b := a * (1.0 - costFraction);
    assert AccruedRent(buyPrice, rentalIncomeFrac, costFraction, growth, k) == a * p + (k as real) * b * (growth * p);
    assert AccruedRent(buyPrice, rentalIncomeFrac, costFraction, growth, k + 1)
        == a * (growth * p) + ((k + 1) as real) * b * (growth * (growth * p));
  }

  /**
   * The rent-reinvestment loop: the first year's rent on the purchase price, then for every later
   * year up to the sale the net rent on the current value, all rolled forward at `growth` together
   * with the property value.
   */
  method Reinvest(buyPrice: real, buyYear: int, sellYear: int, rentalIncomeFrac: real, costFraction: real, growth: real)
    returns (exvalue: real, cv: real)
    ensures exvalue == AccruedRent(buyPrice, rentalIncomeFrac, costFraction, growth, Reinvestments(buyYear, sellYear))
    ensures cv == buyPrice * Pow(growth, Reinvestments(buyYear, sellYear) + 1)
  {
    cv := buyPrice;
    exvalue := cv * rentalIncomeFrac;
    cv := cv * growth;
    var yy := buyYear + 1;
    while yy < sellYear
      invariant buyYear + 1 <= yy <= buyYear + 1 + Reinvestments(buyYear, sellYear)
      invariant cv == buyPrice * Pow(growth, (yy - buyYear - 1) + 1)
      invariant exvalue == AccruedRent(buyPrice, rentalIncomeFrac, costFraction, growth, yy - buyYear - 1)
    {
      ghost var k := yy - buyYear - 1;
      AccruedRentStep(buyPrice, rentalIncomeFrac, costFraction, growth, k);
      assert cv * rentalIncomeFrac * (1.0 - costFraction) == buyPrice * Pow(growth, k + 1) * rentalIncomeFrac * (1.0 - costFraction);
      exvalue := exvalue + cv * rentalIncomeFrac * (1.0 - costFraction);
      exvalue := exvalue * growth;
      cv := cv * growth;
      yy := yy + 1;
    }
    assert yy - buyYear - 1 == Reinvestments(buyYear, sellYear);
  }

  /**
   * `get_property_return`, with the appreciation rate supplied by the caller (it is the fractional
   * power that `calc_interest` computes). Besides the triple SandPCalc.py returns, it returns the
   * rolled-forward property value `cv`, which SandPCalc.py only prints.
   */
  method GetPropertyReturn(buyPrice: real, sellPrice: real, buyYear: int, sellYear: int,
                           rentalIncomeFrac: real, costFraction: real, appreciation: real)
    returns (r: Result<PropertyReturn>, cv: real)
    requires IsAppreciationRate(buyPrice, sellPrice, buyYear, sellYear, appreciation)
    ensures CalcInterest(buyPrice, sellPrice, buyYear, sellYear).Failure? ==>
      r == Failure(CalcInterest(buyPrice, sellPrice, buyYear, sellYear).error)
    ensures CalcInterest(buyPrice, sellPrice, buyYear, sellYear).Success? ==>
      var rent := AccruedRent(buyPrice, rentalIncomeFrac, costFraction, 1.0 + appreciation, Reinvestments(buyYear, sellYear));
      r == (match CalcInterest(buyPrice, sellPrice + rent, buyYear, sellYear)
            case Success(total) => Success(PropertyReturn(appreciation, total, rent))
            case Failure(e) => Failure(e))
    ensures CalcInterest(buyPrice, sellPrice, buyYear, sellYear).Success? ==>
      cv == buyPrice * Pow(1.0 + appreciation, Reinvestments(buyYear, sellYear) + 1)
    ensures sellYear > buyYear && CalcInterest(buyPrice, sellPrice, buyYear, sellYear).Success? ==> cv == sellPrice
  {
    var interest := CalcInterest(buyPrice, sellPrice, buyYear, sellYear);
    if interest.Failure? {
      return Failure(interest.error), buyPrice;
    }
    var exvalue;
    exvalue, cv := Reinvest(buyPrice, buyYear, sellYear, rentalIncomeFrac, costFraction, 1.0 + appreciation);
    if sellYear > buyYear {
      FinalValueIsSellPrice(buyPrice, sellPrice, buyYear, sellYear, appreciation);
    }
    var totalReturn := CalcInterest(buyPrice, sellPrice + exvalue, buyYear, sellYear);
    if totalReturn.Failure? {
      return Failure(totalReturn.error), cv;
    }
    r := Success(PropertyReturn(appreciation, totalReturn.value, exvalue));
  }

  /** Rolled forward at the appreciation rate for the whole period, the purchase price reaches the sale price. */
  lemma FinalValueIsSellPrice(buyPrice: real, sellPrice: real, buyYear: int, sellYear: int, appreciation: real)
    requires sellYear > buyYear && CalcInterest(buyPrice, sellPrice, buyYear, sellYear).Success?
    requires IsAppreciationRate(buyPrice, sellPrice, buyYear, sellYear, appreciation)
    ensures buyPrice * Pow(1.0 + appreciation, Reinvestments(buyYear, sellYear) + 1) == sellPrice
  {
    var rate := CalcInterest(buyPrice, sellPrice, buyYear, sellYear).value;
    assert Reinvestments(buyYear, sellYear) + 1 == sellYear - buyYear;
    assert Pow(1.0 + appreciation, sellYear - buyYear) == rate.growth;
  }

  lemma AccruedRentNonNegative(buyPrice: real, rentalIncomeFrac: real, costFraction: real, growth: real, k: nat)
    requires buyPrice >= 0.0 && rentalIncomeFrac >= 0.0 && costFraction <= 1.0 && growth >= 0.0
    ensures AccruedRent(buyPrice, rentalIncomeFrac, costFraction, growth, k) >= 0.0
  {
    PowNonNegative(growth, k);
    PowNonNegative(growth, k + 1);
    var a := buyPrice * rentalIncomeFrac;
    assert a >= 0.0;
    var b := (k as real) * a * (1.0 - costFraction);
    assert b >= 0.0;
    assert a * Pow(growth, k) >= 0.0;
    assert b * Pow(growth, k + 1) >= 0.0;
  }

  /**
   * Reinvested rent only adds: with non-negative prices, rent fraction and a cost fraction of at
   * most one, the total rate is at least the appreciation rate.
   */
  lemma TotalReturnAtLeastAppreciation(buyPrice: real, sellPrice: real, buyYear: int, sellYear: int,
                                       rentalIncomeFrac: real, costFraction: real, appreciation: real, total: real)
    requires buyPrice > 0.0 && sellPrice >= 0.0 && sellYear > buyYear
    requires rentalIncomeFrac >= 0.0 && costFraction <= 1.0
    requires IsAppreciationRate(buyPrice, sellPrice, buyYear, sellYear, appreciation)
    requires
      var rent := AccruedRent(buyPrice, rentalIncomeFrac, costFraction, 1.0 + appreciation, Reinvestments(buyYear, sellYear));
      CalcInterest(buyPrice, sellPrice + rent, buyYear, sellYear).Success? &&
      Denotes(CalcInterest(buyPrice, sellPrice + rent, buyYear, sellYear).value, total)
    ensures appreciation <= total
  {
    var g := 1.0 + appreciation;
    var rate := CalcInterest(buyPrice, sellPrice, buyYear, sellYear).value;
    if sellYear - buyYear == 1 {
      assert Pow(g, 1) == g;
    }
    assert g >= 0.0;
    var rent := AccruedRent(buyPrice, rentalIncomeFrac, costFraction, g, Reinvestments(buyYear, sellYear));
    AccruedRentNonNegative(buyPrice, rentalIncomeFrac, costFraction, g, Reinvestments(buyYear, sellYear));
    var totalRate := CalcInterest(buyPrice, sellPrice + rent, buyYear, sellYear).value;
    assert (totalRate.growth - rate.growth) * buyPrice == rent;
    NonNegativeQuotient(totalRate.growth - rate.growth, buyPrice, rent);
    RateMonotone(rate, totalRate, appreciation, total);
  }

  lemma NonNegativeQuotient(x: real, b: real, y: real)
    requires b > 0.0 && x * b == y && y >= 0.0
    ensures x >= 0.0
  {
  }

  /**
   * 1000 bought in 2001 and sold for 2000 in 2011, with 3% rent and a 25% rental cost: the
   * reinvested rent is about 460.98.
   */
  lemma RentalExample(appreciation: real)
    requires IsAppreciationRate(1000.0, 2000.0, 2001, 2011, appreciation)
    ensures 460.98 < AccruedRent(1000.0, 0.03, 0.25, 1.0 + appreciation, Reinvestments(2001, 2011)) < 460.99
  {
    assert CalcInterest(1000.0, 2000.0, 2001, 2011).value == AnnualRate(2.0, 10);
    GrossReturnExample(appreciation);
    var g := 1.0 + appreciation;
    var p := Pow(g, 9);
    assert g * p == 2.0;
    PowPositive(g, 9);
    assert p * 1.07178 > 2.0 && p * 1.07177 < 2.0;
    assert Reinvestments(2001, 2011) == 9;
    assert AccruedRent(1000.0, 0.03, 0.25, g, 9) == 30.0 * p + 202.5 * 2.0;
  }

  /** In the same scenario the total rate, rent included, is about 9.4236% a year. */
  lemma TotalReturnExample(appreciation: real, total: real)
    requires IsAppreciationRate(1000.0, 2000.0, 2001, 2011, appreciation)
    requires
      var rent := AccruedRent(1000.0, 0.03, 0.25, 1.0 + appreciation, Reinvestments(2001, 2011));
      CalcInterest(1000.0, 2000.0 + rent, 2001, 2011).Success? &&
      Denotes(CalcInterest(1000.0, 2000.0 + rent, 2001, 2011).value, total)
    ensures 0.09423 < total < 0.09424
  {
    RentalExample(appreciation);
    var rent := AccruedRent(1000.0, 0.03, 0.25, 1.0 + appreciation, Reinvestments(2001, 2011));
    var rate := CalcInterest(1000.0, 2000.0 + rent, 2001, 2011).value;
    assert rate.years == 10 && 2.46098 < rate.growth < 2.46099;
    TotalPowBounds();
    var lo, hi := AnnualRate(Pow(1.09423, 10), 10), AnnualRate(Pow(1.09424, 10), 10);
    assert Denotes(lo, 0.09423) && Denotes(hi, 0.09424);
    PowNonNegative(1.09423, 10);
    RateMonotone(rate, hi, total, 0.09424);
    RateMonotone(lo, rate, 0.09423, total);
  }

  lemma TotalPowBounds()
    ensures Pow(1.09423, 10) < 2.46098 && 2.46099 < Pow(1.09424, 10)
  {
    assert Pow(1.09423, 10) == 1.09423 * 1.09423 * 1.09423 * 1.09423 * 1.09423 * 1.09423 * 1.09423 * 1.09423 * 1.09423 * 1.09423;
  }
}
