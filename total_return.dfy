/**
 * The total-return factor column that `calc_ret` writes: a seed of one over the first index level,
 * then one multiplication per later row for the reinvested (tax-reduced) dividend and the annual cost.
 */
module TotalReturn {

  /** One row's growth factor: reinvest the dividend net of tax, then pay the annual cost. */
  function Step(dividendYield: real, dividendTax: real, annualCostFrac: real): real
  {
    (1.0 + dividendYield * (1.0 - dividendTax)) * (1.0 - annualCostFrac)
  }

  /** The product of the row factors of `dy`, one row after another. */
  function GrowthProduct(dy: seq<real>, dividendTax: real, annualCostFrac: real): real
  {
    if |dy| == 0 then 1.0
    else GrowthProduct(dy[..|dy| - 1], dividendTax, annualCostFrac) * Step(dy[|dy| - 1], dividendTax, annualCostFrac)
  }

  /**
   * No row factor of rows 1 to `n` is zero, so the factor of row `n` is not zero either (the first
   * row's yield is never used).
   */
  predicate NoZeroStepUpTo(dy: seq<real>, dividendTax: real, annualCostFrac: real, n: nat)
  {
    forall i :: 1 <= i <= n && i < |dy| ==> Step(dy[i], dividendTax, annualCostFrac) != 0.0
  }

  /** The growth over the rows after `start` up to and including `end`. */
  function GrowthBetween(dy: seq<real>, start: nat, end: nat, dividendTax: real, annualCostFrac: real): real
    requires start <= end < |dy|
  {
    GrowthProduct(dy[start + 1..end + 1], dividendTax, annualCostFrac)
  }

  /** Extending the period by one row multiplies its growth by that row's factor. */
  lemma GrowthBetweenStep(dy: seq<real>, start: nat, end: nat, dividendTax: real, annualCostFrac: real)
    requires start < end < |dy|
    ensures GrowthBetween(dy, start, end, dividendTax, annualCostFrac)
         == GrowthBetween(dy, start, end - 1, dividendTax, annualCostFrac) * Step(dy[end], dividendTax, annualCostFrac)
  {
    var between := dy[start + 1..end + 1];
    assert between[..|between| - 1] == dy[start + 1..end];
    assert between[|between| - 1] == dy[end];
  }

  /**
   * The factor of row `i` for seed level `v0` and the dividend yields `dy` of every row (the first
   * row's yield is not used): `1 / v0` for the first row, the previous row's factor times the row's
   * growth factor for every later row. It is never zero while no row factor up to row `i` is.
   */
  function Factor(v0: real, dy: seq<real>, dividendTax: real, annualCostFrac: real, i: nat): (f: real)
    requires v0 != 0.0 && i < |dy|
    ensures NoZeroStepUpTo(dy, dividendTax, annualCostFrac, i) ==> f != 0.0
  {
    if i == 0 then 1.0 / v0
    else
      var previous := Factor(v0, dy, dividendTax, annualCostFrac, i - 1);
      assert NoZeroStepUpTo(dy, dividendTax, annualCostFrac, i) ==> NoZeroStepUpTo(dy, dividendTax, annualCostFrac, i - 1);
      previous * Step(dy[i], dividendTax, annualCostFrac)
  }

  /**
   * The whole factor column: one factor per row, the first normalised so that it times the first
   * index level is one, and every factor times that level the growth of the rows since the first.
   */
  function Factors(v0: real, dy: seq<real>, dividendTax: real, annualCostFrac: real): (f: seq<real>)
    requires v0 != 0.0
    ensures |f| == |dy|
    ensures |dy| > 0 ==> v0 * f[0] == 1.0
    ensures forall i :: 0 <= i < |dy| ==> v0 * f[i] == GrowthBetween(dy, 0, i, dividendTax, annualCostFrac)
  {
    ColumnClosedForm(v0, dy, dividendTax, annualCostFrac);
    seq(|dy|, i requires 0 <= i < |dy| => Factor(v0, dy, dividendTax, annualCostFrac, i))
  }

  /** Every factor of the column, scaled back by the seed level, is the growth since the first row. */
  lemma ColumnClosedForm(v0: real, dy: seq<real>, dividendTax: real, annualCostFrac: real)
    requires v0 != 0.0
    ensures |dy| > 0 ==> v0 * Factor(v0, dy, dividendTax, annualCostFrac, 0) == 1.0
    ensures forall i :: 0 <= i < |dy| ==> v0 * Factor(v0, dy, dividendTax, annualCostFrac, i) == GrowthBetween(dy, 0, i, dividendTax, annualCostFrac)
  {
    forall i | 0 <= i < |dy|
      ensures v0 * Factor(v0, dy, dividendTax, annualCostFrac, i) == GrowthBetween(dy, 0, i, dividendTax, annualCostFrac)
    {
      FactorsClosedForm(v0, dy, dividendTax, annualCostFrac, i);
    }
    if |dy| > 0 {
      FactorsClosedForm(v0, dy, dividendTax, annualCostFrac, 0);
      assert dy[1..1] == [];
    }
  }

  /** Between two rows the column grows by exactly the product of the row factors in between. */
  lemma {:induction false} FactorRatio(v0: real, dy: seq<real>, dividendTax: real, annualCostFrac: real, start: nat, end: nat)
    requires v0 != 0.0 && start <= end < |dy|
    ensures Factor(v0, dy, dividendTax, annualCostFrac, end)
         == Factor(v0, dy, dividendTax, annualCostFrac, start) * GrowthBetween(dy, start, end, dividendTax, annualCostFrac)
  {
    if end == start {
      assert dy[start + 1..end + 1] == [];
    } else {
      FactorRatio(v0, dy, dividendTax, annualCostFrac, start, end - 1);
      GrowthBetweenStep(dy, start, end, dividendTax, annualCostFrac);
    }
  }

  /** Every factor times the seed level is the growth of the rows since the first. */
  lemma FactorsClosedForm(v0: real, dy: seq<real>, dividendTax: real, annualCostFrac: real, i: nat)
    requires v0 != 0.0 && i < |dy|
    ensures v0 * Factor(v0, dy, dividendTax, annualCostFrac, i) == GrowthBetween(dy, 0, i, dividendTax, annualCostFrac)
  {
    FactorRatio(v0, dy, dividendTax, annualCostFrac, 0, i);
    Rescale(v0, Factor(v0, dy, dividendTax, annualCostFrac, i), GrowthBetween(dy, 0, i, dividendTax, annualCostFrac));
  }

  lemma Rescale(v0: real, f: real, g: real)
    requires v0 != 0.0 && f == (1.0 / v0) * g
    ensures v0 * f == g
  {
  }

  /**
   * The seed `1 / Value[0]` only fixes the scale of the column: scaled back by its seed level, the
   * column is the same whatever the seed.
   */
  lemma SeedOnlyScales(v0: real, w0: real, dy: seq<real>, dividendTax: real, annualCostFrac: real, i: nat)
    requires v0 != 0.0 && w0 != 0.0 && i < |dy|
    ensures v0 * Factor(v0, dy, dividendTax, annualCostFrac, i) == w0 * Factor(w0, dy, dividendTax, annualCostFrac, i)
  {
    FactorsClosedForm(v0, dy, dividendTax, annualCostFrac, i);
    FactorsClosedForm(w0, dy, dividendTax, annualCostFrac, i);
  }
}
