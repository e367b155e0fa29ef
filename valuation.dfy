/**
 * What `inflation_calc`, `sap500_end_value` and `get_return_value_in_local` compute, as functions of
 * the index table's contents (the class `SandP.IndexTable` holds the table itself and runs the
 * same computations in place).
 */
module Valuation {
  import opened Outcomes
  import opened Power
  import opened Interest
  import opened TotalReturn

  /**
   * The yearly index table: the columns `Value`, `DividendYield_percent` and `CPI`, one entry per
   * year, row `i` holding year `firstYear + i`.
   */
  datatype Table = Table(firstYear: int, value: seq<real>, dividendYield: seq<real>, cpi: seq<real>) {

    /** A loaded table: at least one row, parallel columns, positive index levels and CPI. */
    predicate Valid()
    {
      |value| > 0 && |dividendYield| == |value| && |cpi| == |value| &&
      (forall i :: 0 <= i < |value| ==> value[i] > 0.0) &&
      (forall i :: 0 <= i < |cpi| ==> cpi[i] > 0.0)
    }

    /** `year` is a row label of the table (otherwise pandas' `.loc[year]` raises KeyError). */
    predicate HasYear(year: int)
    {
      firstYear <= year < firstYear + |value|
    }

    function Row(year: int): nat
      requires HasYear(year)
    {
      year - firstYear
    }

    /** The growth of the total-return index over the rows after `startYear` up to `endYear`. */
    function Growth(startYear: int, endYear: int, dividendTax: real, annualCostFrac: real): real
      requires Valid() && HasYear(startYear) && HasYear(endYear) && startYear <= endYear
    {
      GrowthBetween(dividendYield, Row(startYear), Row(endYear), dividendTax, annualCostFrac)
    }

    /**
     * The factor of the start year's row is not zero: no row factor from the second row up to that
     * row is zero (otherwise numpy divides by zero and yields infinity or NaN).
     */
    predicate Priceable(startYear: int, dividendTax: real, annualCostFrac: real)
    {
      HasYear(startYear) ==> NoZeroStepUpTo(dividendYield, dividendTax, annualCostFrac, Row(startYear))
    }
  }

  /** `inflation_calc`: the relative CPI change from the start year to the end year. */
  function InflationCalc(t: Table, startYear: int, endYear: int): (r: Result<real>)
    requires t.Valid()
    ensures r.Failure? <==> !t.HasYear(startYear) || !t.HasYear(endYear)
    ensures r.Failure? ==> r.error == MissingYear(if t.HasYear(startYear) then endYear else startYear)
    ensures r.Success? ==> (r.value + 1.0) * t.cpi[t.Row(startYear)] == t.cpi[t.Row(endYear)]
    ensures r.Success? ==> r.value + 1.0 > 0.0
  {
    if !t.HasYear(startYear) then Failure(MissingYear(startYear))
    else if !t.HasYear(endYear) then Failure(MissingYear(endYear))
    else
      var initialInf := t.cpi[t.Row(startYear)];
      var finalInf := t.cpi[t.Row(endYear)];
      Success((finalInf - initialInf) / initialInf)
  }

  /** The pair `(fiv, ret)` that `sap500_end_value` returns. */
  datatype EquityValue = EquityValue(endValue: real, ret: real)

  /**
   * `fiv`: the investment scaled by the change of the factor times the index level between the two
   * rows. An unmoved row keeps the investment, and the value is zero exactly when the investment,
   * the end factor or the end level is.
   */
  function FinalValue(investment: real, initialN: real, initialV: real, finalN: real, finalV: real): (fiv: real)
    requires initialN != 0.0 && initialV != 0.0
    ensures finalN == initialN && finalV == initialV ==> fiv == investment
    ensures fiv == 0.0 <==> investment == 0.0 || finalN == 0.0 || finalV == 0.0
  {
    (finalN * finalV) / (initialN * initialV) * investment
  }

  /** `ret`: the nominal return, so that one plus it is the growth of the investment. */
  function NominalValue(investment: real, fiv: real): (ev: EquityValue)
    requires investment != 0.0
    ensures ev.endValue == fiv && (ev.ret + 1.0) * investment == fiv
  {
    EquityValue(fiv, (fiv - investment) / investment)
  }

  /** Deflates the return by the inflation over the period; the end value is kept as it is. */
  function AdjustForInflation(ev: EquityValue, inf: real): (adjusted: EquityValue)
    requires inf + 1.0 != 0.0
    ensures adjusted.endValue == ev.endValue
    ensures (adjusted.ret + 1.0) * (inf + 1.0) == ev.ret + 1.0
  {
    EquityValue(ev.endValue, (ev.ret + 1.0) / (inf + 1.0) - 1.0)
  }

  /**
   * The end value `fiv` of `sap500_end_value`: the end year's row is looked up first, then the
   * start year's, in the factor column computed for the given cost and tax.
   */
  function EndValue(t: Table, investment: real, startYear: int, endYear: int,
                    annualCostFrac: real, dividendTax: real): (r: Result<real>)
    requires t.Valid() && t.Priceable(startYear, dividendTax, annualCostFrac)
    ensures r.Failure? <==> !t.HasYear(startYear) || !t.HasYear(endYear)
    ensures r.Failure? ==> r.error == MissingYear(if t.HasYear(endYear) then startYear else endYear)
  {
    if !t.HasYear(endYear) then Failure(MissingYear(endYear))
    else if !t.HasYear(startYear) then Failure(MissingYear(startYear))
    else
      var f := Factors(t.value[0], t.dividendYield, dividendTax, annualCostFrac);
      var s, e := t.Row(startYear), t.Row(endYear);
      assert f[s] == Factor(t.value[0], t.dividendYield, dividendTax, annualCostFrac, s);
      Success(FinalValue(investment, f[s], t.value[s], f[e], t.value[e]))
  }

  /**
   * `sap500_end_value`: what `investment` held in the index from `startYear` to `endYear` is worth,
   * and its return, optionally deflated by the CPI change over the period.
   */
  function Sap500EndValue(t: Table, investment: real, startYear: int, endYear: int,
                          annualCostFrac: real, adjustInflation: bool, dividendTax: real): (r: Result<EquityValue>)
    requires t.Valid() && investment != 0.0 && t.Priceable(startYear, dividendTax, annualCostFrac)
    ensures r.Failure? <==> !t.HasYear(startYear) || !t.HasYear(endYear)
    ensures r.Failure? ==> r.error == MissingYear(if t.HasYear(endYear) then startYear else endYear)
    ensures r.Success? ==> EndValue(t, investment, startYear, endYear, annualCostFrac, dividendTax) == Success(r.value.endValue)
  {
    var fiv :- EndValue(t, investment, startYear, endYear, annualCostFrac, dividendTax);
    var nominal := NominalValue(investment, fiv);
    if adjustInflation then
      var inf := InflationCalc(t, startYear, endYear).value;
      Success(AdjustForInflation(nominal, inf))
    else
      Success(nominal)
  }

  /** Deflating the return divides the growth by the CPI ratio. */
  lemma AdjustedReturn(nominal: EquityValue, investment: real, inf: real, initialCpi: real, finalCpi: real)
    requires (nominal.ret + 1.0) * investment == nominal.endValue
    requires initialCpi > 0.0 && (inf + 1.0) * initialCpi == finalCpi && inf + 1.0 > 0.0
    ensures (AdjustForInflation(nominal, inf).ret + 1.0) * investment * finalCpi == nominal.endValue * initialCpi
  {
    var g := nominal.ret + 1.0;
    var adjusted := AdjustForInflation(nominal, inf).ret + 1.0;
    calc {
      adjusted * investment * finalCpi;
      adjusted * investment * (inf + 1.0) * initialCpi;
      g * investment * initialCpi;
    }
  }

  /**
   * The return is the end value over the investment, less one; with the inflation adjustment the
   * growth is further multiplied by `CPI[start] / CPI[end]`.
   */
  lemma ReturnFromEndValue(t: Table, investment: real, startYear: int, endYear: int,
                           annualCostFrac: real, adjustInflation: bool, dividendTax: real)
    requires t.Valid() && investment != 0.0 && t.Priceable(startYear, dividendTax, annualCostFrac)
    requires t.HasYear(startYear) && t.HasYear(endYear)
    ensures Sap500EndValue(t, investment, startYear, endYear, annualCostFrac, adjustInflation, dividendTax).Success?
    ensures
      var r := Sap500EndValue(t, investment, startYear, endYear, annualCostFrac, adjustInflation, dividendTax).value;
      (r.ret + 1.0) * investment * (if adjustInflation then t.cpi[t.Row(endYear)] else 1.0)
      == r.endValue * (if adjustInflation then t.cpi[t.Row(startYear)] else 1.0)
  {
    var fiv := EndValue(t, investment, startYear, endYear, annualCostFrac, dividendTax).value;
    var nominal := NominalValue(investment, fiv);
    var r := Sap500EndValue(t, investment, startYear, endYear, annualCostFrac, adjustInflation, dividendTax).value;
    if adjustInflation {
      var inf := InflationCalc(t, startYear, endYear).value;
      assert r == AdjustForInflation(nominal, inf);
      AdjustedReturn(nominal, investment, inf, t.cpi[t.Row(startYear)], t.cpi[t.Row(endYear)]);
    } else {
      assert r == nominal;
    }
  }

  /**
   * What an investment is worth when the index level moves from `startLevel` to `endLevel` and the
   * reinvested dividends net of tax and cost grow it by `growth`.
   */
  function HeldValue(investment: real, startLevel: real, endLevel: real, growth: real): real
    requires startLevel != 0.0
  {
    investment * (endLevel / startLevel) * growth
  }

  /**
   * The end value is the investment times the rise of the index level times the growth of the
   * reinvested dividends net of tax and cost; neither the seed row nor the rows outside the holding
   * period enter it.
   */
  lemma EndValueClosedForm(t: Table, investment: real, startYear: int, endYear: int,
                           annualCostFrac: real, dividendTax: real)
    requires t.Valid() && t.Priceable(startYear, dividendTax, annualCostFrac)
    requires t.HasYear(startYear) && t.HasYear(endYear) && startYear <= endYear
    ensures EndValue(t, investment, startYear, endYear, annualCostFrac, dividendTax).Success?
    ensures EndValue(t, investment, startYear, endYear, annualCostFrac, dividendTax).value
         == HeldValue(investment, t.value[t.Row(startYear)], t.value[t.Row(endYear)],
                      t.Growth(startYear, endYear, dividendTax, annualCostFrac))
  {
    EndValueFromFactors(t, investment, startYear, endYear, annualCostFrac, dividendTax);
    FactorRatio(t.value[0], t.dividendYield, dividendTax, annualCostFrac, t.Row(startYear), t.Row(endYear));
    CancelCommonFactor(investment,
      Factor(t.value[0], t.dividendYield, dividendTax, annualCostFrac, t.Row(startYear)), t.value[t.Row(startYear)],
      Factor(t.value[0], t.dividendYield, dividendTax, annualCostFrac, t.Row(endYear)), t.value[t.Row(endYear)],
      t.Growth(startYear, endYear, dividendTax, annualCostFrac));
  }

  /** The common seed of the two factors cancels out of the end value. */
  lemma CancelCommonFactor(investment: real, initialN: real, initialV: real, finalN: real, finalV: real, growth: real)
    requires initialN != 0.0 && initialV != 0.0
    requires finalN == initialN * growth
    ensures FinalValue(investment, initialN, initialV, finalN, finalV) == HeldValue(investment, initialV, finalV, growth)
  {
    var ratio := (finalN * finalV) / (initialN * initialV);
    assert finalN * finalV == (initialN * initialV) * (growth * finalV / initialV);
    assert ratio == growth * finalV / initialV;
    assert growth * finalV / initialV == (finalV / initialV) * growth;
  }

  /** The end value is computed from the factor and level of the two years' rows. */
  lemma EndValueFromFactors(t: Table, investment: real, startYear: int, endYear: int,
                            annualCostFrac: real, dividendTax: real)
    requires t.Valid() && t.Priceable(startYear, dividendTax, annualCostFrac)
    requires t.HasYear(startYear) && t.HasYear(endYear)
    ensures EndValue(t, investment, startYear, endYear, annualCostFrac, dividendTax).Success?
    ensures Factor(t.value[0], t.dividendYield, dividendTax, annualCostFrac, t.Row(startYear)) != 0.0
    ensures EndValue(t, investment, startYear, endYear, annualCostFrac, dividendTax).value
         == FinalValue(investment,
                       Factor(t.value[0], t.dividendYield, dividendTax, annualCostFrac, t.Row(startYear)), t.value[t.Row(startYear)],
                       Factor(t.value[0], t.dividendYield, dividendTax, annualCostFrac, t.Row(endYear)), t.value[t.Row(endYear)])
  {
  }

  /** Selling in the year of purchase gives back the investment and a zero return. */
  lemma SameYearHolding(t: Table, investment: real, year: int, annualCostFrac: real, adjustInflation: bool, dividendTax: real)
    requires t.Valid() && investment != 0.0 && t.HasYear(year) && t.Priceable(year, dividendTax, annualCostFrac)
    ensures Sap500EndValue(t, investment, year, year, annualCostFrac, adjustInflation, dividendTax).Success?
    ensures Sap500EndValue(t, investment, year, year, annualCostFrac, adjustInflation, dividendTax).value == EquityValue(investment, 0.0)
  {
    EndValueClosedForm(t, investment, year, year, annualCostFrac, dividendTax);
    assert t.dividendYield[t.Row(year) + 1..t.Row(year) + 1] == [];
    UnmovedLevel(investment, t.value[t.Row(year)]);
    ReturnFromEndValue(t, investment, year, year, annualCostFrac, adjustInflation, dividendTax);
    var r := Sap500EndValue(t, investment, year, year, annualCostFrac, adjustInflation, dividendTax).value;
    assert r.endValue == investment;
    var c := if adjustInflation then t.cpi[t.Row(year)] else 1.0;
    assert (r.ret + 1.0) * investment * c == investment * c;
    assert (r.ret + 1.0) * investment == investment;
  }

  lemma UnmovedLevel(investment: real, level: real)
    requires level != 0.0
    ensures HeldValue(investment, level, level, 1.0) == investment
  {
  }

  /** Holding for one year: the rise of the index level times that year's dividend-and-cost factor. */
  lemma OneYearHolding(t: Table, investment: real, year: int, annualCostFrac: real, dividendTax: real)
    requires t.Valid() && t.HasYear(year) && t.HasYear(year + 1) && t.Priceable(year, dividendTax, annualCostFrac)
    ensures EndValue(t, investment, year, year + 1, annualCostFrac, dividendTax).Success?
    ensures EndValue(t, investment, year, year + 1, annualCostFrac, dividendTax).value
         == HeldValue(investment, t.value[t.Row(year)], t.value[t.Row(year + 1)],
                      Step(t.dividendYield[t.Row(year + 1)], dividendTax, annualCostFrac))
  {
    EndValueClosedForm(t, investment, year, year + 1, annualCostFrac, dividendTax);
    var rows := t.dividendYield[t.Row(year) + 1..t.Row(year + 1) + 1];
    assert rows == [t.dividendYield[t.Row(year + 1)]];
    assert rows[..0] == [];
    assert GrowthProduct(rows, dividendTax, annualCostFrac) == 1.0 * Step(rows[0], dividendTax, annualCostFrac);
  }

  /**
   * Adjusting for inflation leaves the end value alone and deflates the return by the CPI ratio:
   * the real growth is the nominal growth times `CPI[start] / CPI[end]`.
   */
  lemma InflationChangesOnlyReturn(t: Table, investment: real, startYear: int, endYear: int, annualCostFrac: real, dividendTax: real)
    requires t.Valid() && investment != 0.0 && t.Priceable(startYear, dividendTax, annualCostFrac)
    requires t.HasYear(startYear) && t.HasYear(endYear)
    ensures Sap500EndValue(t, investment, startYear, endYear, annualCostFrac, true, dividendTax).Success?
    ensures Sap500EndValue(t, investment, startYear, endYear, annualCostFrac, false, dividendTax).Success?
    ensures Sap500EndValue(t, investment, startYear, endYear, annualCostFrac, true, dividendTax).value.endValue
         == Sap500EndValue(t, investment, startYear, endYear, annualCostFrac, false, dividendTax).value.endValue
    ensures (Sap500EndValue(t, investment, startYear, endYear, annualCostFrac, true, dividendTax).value.ret + 1.0)
              * t.cpi[t.Row(endYear)]
         == (Sap500EndValue(t, investment, startYear, endYear, annualCostFrac, false, dividendTax).value.ret + 1.0)
              * t.cpi[t.Row(startYear)]
  {
    ReturnFromEndValue(t, investment, startYear, endYear, annualCostFrac, true, dividendTax);
    ReturnFromEndValue(t, investment, startYear, endYear, annualCostFrac, false, dividendTax);
    var deflated := Sap500EndValue(t, investment, startYear, endYear, annualCostFrac, true, dividendTax).value;
    var nominal := Sap500EndValue(t, investment, startYear, endYear, annualCostFrac, false, dividendTax).value;
    CancelInvestment(deflated.ret + 1.0, nominal.ret + 1.0, investment, t.cpi[t.Row(endYear)], t.cpi[t.Row(startYear)], nominal.endValue);
  }

  lemma CancelInvestment(deflated: real, nominal: real, investment: real, finalCpi: real, initialCpi: real, endValue: real)
    requires investment != 0.0
    requires deflated * investment * finalCpi == endValue * initialCpi
    requires nominal * investment == endValue
    ensures deflated * finalCpi == nominal * initialCpi
  {
    assert (deflated * finalCpi) * investment == (nominal * initialCpi) * investment;
  }

  /** The quadruple `(local end value, rate, xrate1, xrate2)` of `get_return_value_in_local`. */
  datatype LocalValue = LocalValue(localEndValue: real, rate: Float64Rate, xrate1: real, xrate2: real)

  /**
   * Local money converted into dollars at `xrate1` (local units per dollar), less the conversion
   * cost: nothing is left exactly when there was nothing or the cost takes all of it.
   */
  function ToDollars(investment: real, xrate1: real, conversionCostFrac: real): (usd: real)
    requires xrate1 != 0.0
    ensures usd == 0.0 <==> investment == 0.0 || conversionCostFrac == 1.0
  {
    investment / xrate1 * (1.0 - conversionCostFrac)
  }

  /**
   * Dollars converted back into local money at `xrate2`, less the conversion cost: nothing comes
   * back exactly when there were no dollars, the rate is zero or the cost takes all of it.
   */
  function FromDollars(usdValue: real, xrate2: real, conversionCostFrac: real): (local: real)
    ensures local == 0.0 <==> usdValue == 0.0 || xrate2 == 0.0 || conversionCostFrac == 1.0
  {
    usdValue * xrate2 * (1.0 - conversionCostFrac)
  }

  /**
   * `get_return_value_in_local`: convert the local investment to dollars at `xrate1` less the
   * conversion cost, hold it in the index, convert the dollar end value back at `xrate2` less the
   * conversion cost, and annualise against the local investment. Only the end value of the dollar
   * valuation is used, so its return (NaN for a zero dollar amount) and the inflation flag play no
   * part.
   */
  function ReturnValueInLocal(t: Table, investment: real, xrate1: real, xrate2: real, startYear: int, endYear: int,
                              annualCostFrac: real, adjustInflation: bool, dividendTax: real,
                              conversionCostFrac: real): (r: Result<LocalValue>)
    requires t.Valid() && investment != 0.0 && xrate1 != 0.0 && t.Priceable(startYear, dividendTax, annualCostFrac)
    ensures r.Success? <==> t.HasYear(startYear) && t.HasYear(endYear) && startYear != endYear
    ensures !t.HasYear(startYear) || !t.HasYear(endYear) ==>
      r == Failure(MissingYear(if t.HasYear(endYear) then startYear else endYear))
    ensures t.HasYear(startYear) && startYear == endYear ==> r == Failure(ZeroDivision)
    ensures r.Success? ==> r.value.xrate1 == xrate1 && r.value.xrate2 == xrate2
    ensures r.Success? && r.value.rate.Finite? ==>
      r.value.rate.rate.years == endYear - startYear && r.value.rate.rate.growth * investment == r.value.localEndValue
    ensures r.Success? ==> (r.value.rate == Infinite <==> r.value.localEndValue == 0.0 && endYear < startYear)
    ensures r.Success? ==> r.value.rate == CalcInterestFloat64(investment, r.value.localEndValue, startYear, endYear).value
  {
    var usdEnd :- EndValue(t, ToDollars(investment, xrate1, conversionCostFrac), startYear, endYear,
                           annualCostFrac, dividendTax);
    ConvertBack(investment, usdEnd, xrate1, xrate2, startYear, endYear, conversionCostFrac)
  }

  /**
   * The exit half of the round trip: back to local money at `xrate2`, then annualised against the
   * local investment with numpy's power, since the local end value is a `float64`.
   */
  function ConvertBack(investment: real, usdEndValue: real, xrate1: real, xrate2: real, startYear: int, endYear: int,
                       conversionCostFrac: real): (r: Result<LocalValue>)
    requires investment != 0.0
    ensures r.Failure? <==> startYear == endYear
    ensures r.Failure? ==> r.error == ZeroDivision
    ensures r.Success? ==>
      r.value.localEndValue == FromDollars(usdEndValue, xrate2, conversionCostFrac) &&
      r.value.xrate1 == xrate1 && r.value.xrate2 == xrate2
    ensures r.Success? && r.value.rate.Finite? ==>
      r.value.rate.rate.years == endYear - startYear && r.value.rate.rate.growth * investment == r.value.localEndValue
    ensures r.Success? ==> (r.value.rate == Infinite <==> r.value.localEndValue == 0.0 && endYear < startYear)
    ensures r.Success? ==> r.value.rate == CalcInterestFloat64(investment, r.value.localEndValue, startYear, endYear).value
  {
    var localEnd := FromDollars(usdEndValue, xrate2, conversionCostFrac);
    var rate :- CalcInterestFloat64(investment, localEnd, startYear, endYear);
    Success(LocalValue(localEnd, rate, xrate1, xrate2))
  }

  /** The inflation flag changes nothing in the local computation. */
  lemma LocalIgnoresInflation(t: Table, investment: real, xrate1: real, xrate2: real, startYear: int, endYear: int,
                              annualCostFrac: real, dividendTax: real, conversionCostFrac: real)
    requires t.Valid() && investment != 0.0 && xrate1 != 0.0 && t.Priceable(startYear, dividendTax, annualCostFrac)
    ensures ReturnValueInLocal(t, investment, xrate1, xrate2, startYear, endYear, annualCostFrac, true, dividendTax, conversionCostFrac)
         == ReturnValueInLocal(t, investment, xrate1, xrate2, startYear, endYear, annualCostFrac, false, dividendTax, conversionCostFrac)
  {
  }

  /**
   * Whenever the dollar amount is not zero, the local result is the conversion back of the first
   * component of `sap500_end_value` for the same flag, as the code computes it.
   */
  lemma LocalUnfolds(t: Table, investment: real, xrate1: real, xrate2: real, startYear: int, endYear: int,
                     annualCostFrac: real, adjustInflation: bool, dividendTax: real, conversionCostFrac: real)
    requires t.Valid() && investment != 0.0 && xrate1 != 0.0 && conversionCostFrac != 1.0
    requires t.Priceable(startYear, dividendTax, annualCostFrac)
    requires t.HasYear(startYear) && t.HasYear(endYear)
    ensures Sap500EndValue(t, ToDollars(investment, xrate1, conversionCostFrac), startYear, endYear,
                           annualCostFrac, adjustInflation, dividendTax).Success?
    ensures ReturnValueInLocal(t, investment, xrate1, xrate2, startYear, endYear, annualCostFrac, adjustInflation, dividendTax, conversionCostFrac)
         == ConvertBack(investment,
                        Sap500EndValue(t, ToDollars(investment, xrate1, conversionCostFrac), startYear, endYear,
                                       annualCostFrac, adjustInflation, dividendTax).value.endValue,
                        xrate1, xrate2, startYear, endYear, conversionCostFrac)
  {
  }

  /**
   * A 100% conversion cost leaves no dollars: over a positive period the local computation
   * succeeds with a local end value of zero and the finite rate of growth 0, whose real is -1.
   */
  lemma FullConversionCost(t: Table, investment: real, xrate1: real, xrate2: real, startYear: int, endYear: int,
                           annualCostFrac: real, adjustInflation: bool, dividendTax: real, r: real)
    requires t.Valid() && investment != 0.0 && xrate1 != 0.0 && t.Priceable(startYear, dividendTax, annualCostFrac)
    requires t.HasYear(startYear) && t.HasYear(endYear) && startYear < endYear
    requires Denotes(AnnualRate(0.0, endYear - startYear), r)
    ensures ReturnValueInLocal(t, investment, xrate1, xrate2, startYear, endYear, annualCostFrac, adjustInflation, dividendTax, 1.0).Success?
    ensures ReturnValueInLocal(t, investment, xrate1, xrate2, startYear, endYear, annualCostFrac, adjustInflation, dividendTax, 1.0).value.localEndValue == 0.0
    ensures ReturnValueInLocal(t, investment, xrate1, xrate2, startYear, endYear, annualCostFrac, adjustInflation, dividendTax, 1.0).value.rate
         == Finite(AnnualRate(0.0, endYear - startYear))
    ensures r == -1.0
  {
    PowZeroIff(1.0 + r, endYear - startYear);
  }

  /** What the two conversions alone make of one unit of local money: the rate ratio less both costs. */
  function RoundTripFactor(xrate1: real, xrate2: real, conversionCostFrac: real): real
    requires xrate1 != 0.0
  {
    (xrate2 / xrate1) * (1.0 - conversionCostFrac) * (1.0 - conversionCostFrac)
  }

  /**
   * The local end value is what the local investment would have become held directly in the index,
   * times the round-trip factor of the two conversions.
   */
  lemma LocalClosedForm(t: Table, investment: real, xrate1: real, xrate2: real, startYear: int, endYear: int,
                        annualCostFrac: real, adjustInflation: bool, dividendTax: real, conversionCostFrac: real)
    requires t.Valid() && investment != 0.0 && xrate1 != 0.0 && t.Priceable(startYear, dividendTax, annualCostFrac)
    requires t.HasYear(startYear) && t.HasYear(endYear) && startYear < endYear
    ensures ReturnValueInLocal(t, investment, xrate1, xrate2, startYear, endYear, annualCostFrac, adjustInflation, dividendTax, conversionCostFrac).Success?
    ensures ReturnValueInLocal(t, investment, xrate1, xrate2, startYear, endYear, annualCostFrac, adjustInflation, dividendTax, conversionCostFrac).value.localEndValue
         == HeldValue(investment, t.value[t.Row(startYear)], t.value[t.Row(endYear)], t.Growth(startYear, endYear, dividendTax, annualCostFrac))
            * RoundTripFactor(xrate1, xrate2, conversionCostFrac)
  {
    EndValueClosedForm(t, ToDollars(investment, xrate1, conversionCostFrac), startYear, endYear, annualCostFrac, dividendTax);
    RoundTrip(investment, xrate1, xrate2, conversionCostFrac, t.value[t.Row(startYear)], t.value[t.Row(endYear)],
              t.Growth(startYear, endYear, dividendTax, annualCostFrac));
  }

  lemma RoundTrip(investment: real, xrate1: real, xrate2: real, conversionCostFrac: real,
                  startLevel: real, endLevel: real, growth: real)
    requires xrate1 != 0.0 && startLevel != 0.0
    ensures FromDollars(HeldValue(ToDollars(investment, xrate1, conversionCostFrac), startLevel, endLevel, growth), xrate2, conversionCostFrac)
         == HeldValue(investment, startLevel, endLevel, growth) * RoundTripFactor(xrate1, xrate2, conversionCostFrac)
  {
  }

  /** A finite returned rate, compounded over the holding period, turns the investment into the local end value. */
  lemma LocalRateCompounds(t: Table, investment: real, xrate1: real, xrate2: real, startYear: int, endYear: int,
                           annualCostFrac: real, adjustInflation: bool, dividendTax: real, conversionCostFrac: real, x: real)
    requires t.Valid() && investment != 0.0 && xrate1 != 0.0 && t.Priceable(startYear, dividendTax, annualCostFrac)
    requires startYear < endYear
    requires ReturnValueInLocal(t, investment, xrate1, xrate2, startYear, endYear, annualCostFrac, adjustInflation, dividendTax, conversionCostFrac).Success?
    requires ReturnValueInLocal(t, investment, xrate1, xrate2, startYear, endYear, annualCostFrac, adjustInflation, dividendTax, conversionCostFrac).value.rate.Finite?
    requires Denotes(ReturnValueInLocal(t, investment, xrate1, xrate2, startYear, endYear, annualCostFrac, adjustInflation, dividendTax, conversionCostFrac).value.rate.rate, x)
    ensures investment * Pow(1.0 + x, endYear - startYear)
         == ReturnValueInLocal(t, investment, xrate1, xrate2, startYear, endYear, annualCostFrac, adjustInflation, dividendTax, conversionCostFrac).value.localEndValue
  {
  }
}
