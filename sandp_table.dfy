/**
 * The index table as SandPCalc.py keeps it: one object whose `endvalue` column `calc_ret` overwrites
 * in place on every valuation, while the loaded columns stay as they are.
 */
module SandP {
  import opened Outcomes
  import opened TotalReturn
  import opened Valuation

  class IndexTable {
    const firstYear: int
    const value: array<real>           // the `Value` column: the index level
    const dividendYield: array<real>   // the `DividendYield_percent` column
    const cpi: array<real>             // the `CPI` column
    const endvalue: array<real>        // the derived total-return factor column

    /** The loaded columns as a value. */
    function Contents(): Table
      reads value, dividendYield, cpi
    {
      Table(firstYear, value[..], dividendYield[..], cpi[..])
    }

    ghost predicate Valid()
      reads value, dividendYield, cpi
    {
      Contents().Valid() && endvalue.Length == value.Length &&
      endvalue != value && endvalue != dividendYield && endvalue != cpi
    }

    /** A loaded table; the factor column has one (not yet meaningful) entry per row. */
    constructor (firstYear: int, values: seq<real>, dividendYields: seq<real>, cpis: seq<real>)
      requires Table(firstYear, values, dividendYields, cpis).Valid()
      ensures Valid() && Contents() == Table(firstYear, values, dividendYields, cpis)
      ensures fresh(value) && fresh(dividendYield) && fresh(cpi) && fresh(endvalue)
    {
      this.firstYear := firstYear;
      value := new real[|values|](i requires 0 <= i < |values| => values[i]);
      dividendYield := new real[|dividendYields|](i requires 0 <= i < |dividendYields| => dividendYields[i]);
      cpi := new real[|cpis|](i requires 0 <= i < |cpis| => cpis[i]);
      endvalue := new real[|values|];
    }

    /**
     * `calc_ret`: fills the factor column from the first index level, the dividend yields, the
     * dividend tax and the annual cost; only that column changes.
     */
    method CalcRet(annualCostFrac: real, dividendTax: real)
      requires Valid()
      modifies endvalue
      ensures Valid() && Contents() == old(Contents())
      ensures endvalue[..] == Factors(value[0], dividendYield[..], dividendTax, annualCostFrac)
    {
      ghost var f := Factors(value[0], dividendYield[..], dividendTax, annualCostFrac);
      var iv := value[0];
      endvalue[0] := 1.0 / iv;
      for index := 1 to endvalue.Length
        invariant forall k :: 0 <= k < index ==> endvalue[k] == f[k]
      {
        endvalue[index] := endvalue[index - 1] * (1.0 + dividendYield[index] * (1.0 - dividendTax)) * (1.0 - annualCostFrac);
      }
    }

    /**
     * The first part of `sap500_end_value`: recomputes the factor column for the given cost and tax,
     * then looks up the end year's row, then the start year's, and values the investment between them.
     */
    method EndValue(investment: real, startYear: int, endYear: int, annualCostFrac: real, dividendTax: real)
      returns (r: Result<real>)
      requires Valid() && Contents().Priceable(startYear, dividendTax, annualCostFrac)
      modifies endvalue
      ensures Valid() && Contents() == old(Contents())
      ensures endvalue[..] == Factors(value[0], dividendYield[..], dividendTax, annualCostFrac)
      ensures r == Valuation.EndValue(Contents(), investment, startYear, endYear, annualCostFrac, dividendTax)
    {
      CalcRet(annualCostFrac, dividendTax);
      if !(firstYear <= endYear < firstYear + endvalue.Length) {
        return Failure(MissingYear(endYear));
      }
      if !(firstYear <= startYear < firstYear + endvalue.Length) {
        return Failure(MissingYear(startYear));
      }
      var finalN := endvalue[endYear - firstYear];
      var initialN := endvalue[startYear - firstYear];
      var initialV := value[startYear - firstYear];
      var finalV := value[endYear - firstYear];
      r := Success(FinalValue(investment, initialN, initialV, finalN, finalV));
    }

    /**
     * `sap500_end_value`: the end value as above, and its return against the investment, deflated by
     * the CPI change over the period when asked.
     */
    method Sap500EndValue(investment: real, startYear: int, endYear: int,
                          annualCostFrac: real, adjustInflation: bool, dividendTax: real)
      returns (r: Result<EquityValue>)
      requires Valid() && investment != 0.0 && Contents().Priceable(startYear, dividendTax, annualCostFrac)
      modifies endvalue
      ensures Valid() && Contents() == old(Contents())
      ensures endvalue[..] == Factors(value[0], dividendYield[..], dividendTax, annualCostFrac)
      ensures r == Valuation.Sap500EndValue(Contents(), investment, startYear, endYear, annualCostFrac, adjustInflation, dividendTax)
    {
      var fiv := EndValue(investment, startYear, endYear, annualCostFrac, dividendTax);
      if fiv.Failure? {
        return Failure(fiv.error);
      }
      var nominal := NominalValue(investment, fiv.value);
      if adjustInflation {
        var inf := InflationCalc(Contents(), startYear, endYear).value;
        r := Success(AdjustForInflation(nominal, inf));
      } else {
        r := Success(nominal);
      }
    }

    /**
     * `get_return_value_in_local`, with the two exchange rates given: entry conversion, valuation in
     * the index (which rewrites the factor column), exit conversion and annualisation. Only the end
     * value of the dollar valuation is used, so the method values through `EndValue` directly.
     */
    method GetReturnValueInLocal(investment: real, xrate1: real, xrate2: real, startYear: int, endYear: int,
                                 annualCostFrac: real, adjustInflation: bool, dividendTax: real,
                                 conversionCostFrac: real)
      returns (r: Result<LocalValue>)
      requires Valid() && investment != 0.0 && xrate1 != 0.0
      requires Contents().Priceable(startYear, dividendTax, annualCostFrac)
      modifies endvalue
      ensures Valid() && Contents() == old(Contents())
      ensures endvalue[..] == Factors(value[0], dividendYield[..], dividendTax, annualCostFrac)
      ensures r == ReturnValueInLocal(Contents(), investment, xrate1, xrate2, startYear, endYear,
                                      annualCostFrac, adjustInflation, dividendTax, conversionCostFrac)
    {
      var usdEnd := EndValue(ToDollars(investment, xrate1, conversionCostFrac), startYear, endYear, annualCostFrac, dividendTax);
      if usdEnd.Failure? {
        return Failure(usdEnd.error);
      }
      r := ConvertBack(investment, usdEnd.value, xrate1, xrate2, startYear, endYear, conversionCostFrac);
    }
  }
}
