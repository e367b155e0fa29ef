# S&P 500 versus property: a verified model of the valuation arithmetic

This project models the valuation engine of `SandPCalc.py` in Dafny. The engine compares an
investment in the S&P 500 index with an investment in property:

- `calc_ret` builds the total-return factor column of the yearly index table. The column is
  seeded with one over the first index level. Each later row multiplies the previous factor by
  the dividend yield reinvested net of dividend tax, and then by the annual cost.
- `sap500_end_value` values an investment between two years from the factor column and the index
  level. It can also deflate the return by the CPI change that `inflation_calc` computes.
- `get_return_value_in_local` converts a local-currency investment into dollars, holds it in the
  index, converts it back and annualises the result. Here the two exchange rates are inputs.
- `calc_interest` gives the annualised geometric rate `(sell / buy) ** (1 / years) - 1`.
- `get_property_return` compounds the property's appreciation together with rent that is
  reinvested every year.
- `xrate_check` is the sanity check on the month labels of an exchange-rate table.

## How the model is built

- Python floats are Dafny `real`s. The arithmetic is exact, so rounding is not modelled.
- Dafny has no fractional power. A successful `calc_interest` therefore returns the pair
  `AnnualRate(growth, years)`. `Interest.Denotes(rate, r)` says which real `r` the pair stands
  for: compounding `1 + r` over `years` gives back `growth`, and `1 + r` is the principal root.
- Each exception the code raises on the inputs the model admits is an `Outcomes.Error`:
  - `ZeroDivision` (`ZeroDivisionError`): a zero buy price, a zero-length period, or a Python
    float zero raised to a negative power.
  - `NotReal`: a negative Python float raised to a non-integral power. Python returns a complex
    number here; the model stops.
  - `MissingYear(year)` (pandas' `KeyError`): a year that is not a row of the table. The end year
    is looked up first, as in `sap500_end_value`; `inflation_calc` looks up the start year first.
  - `DataNotAvailable` (`DataNotAvailableError`): the month-label check fails.
  An empty table, on which `calc_ret` raises `IndexError` at SandPCalc.py:25, is not admitted
  (see "Left out").
- In `get_return_value_in_local` the local end value is a numpy `float64`, so `calc_interest` is
  evaluated with numpy's power, which does not raise: zero to a negative power is infinity and a
  negative base to a non-integral power is NaN. `Interest.CalcInterestFloat64` models this with
  `Float64Rate = Finite(rate) | Infinite | NotANumber`. Only the zero-length period still raises,
  because `1 / (endYear - startYear)` divides by the Python int `endYear - startYear`.
- `calc_ret` divides by no row factor, and the valuation divides only by the start row's factor.
  So the model requires (`Valuation.Table.Priceable`) only that no row factor from row 1 up to the
  start year's row is zero. A zero row factor after the start year, up to the end year, gives an
  end value of zero; rows after the end year do not enter it.
- The index table is the class `SandP.IndexTable`. Its loaded columns are constant arrays and its
  `endvalue` column is an array that `CalcRet` overwrites in place. SandPCalc.py does the same to
  the shared data frame on every valuation.
  - `Contents()` is the loaded table as a value, `Valuation.Table`.
  - Each method of the class is proved equal to a function on that value in module `Valuation`.
  - The properties are proved about those functions.
- Module layout:
  - `outcomes.dfy`: errors and results.
  - `power.dfy`: natural powers of reals.
  - `interest.dfy`: `calc_interest`.
  - `total_return.dfy`: the factor column.
  - `valuation.dfy`: inflation, end value and the local-currency round trip.
  - `sandp_table.dfy`: the table object and its in-place methods.
  - `property_return.dfy`: property returns.
  - `xrate_check.dfy`: the label check.
- Points where the model keeps to exactly what SandPCalc.py does:
  - there is no selling-cost fraction in `get_property_return`;
  - there is no real-value ratio in the local-currency computation, whose inflation flag has no
    effect on the local result (`Valuation.LocalIgnoresInflation`);
  - the table's factor column is rewritten on every call rather than being read-only;
  - failures are the Python exceptions above, not validation errors.

## Model

| member | source | states |
|---|---|---|
| Interest.CalcInterest | SandPCalc.py:48-50 | On Python floats: it succeeds exactly when the buy price is nonzero, the period is not empty, a negative period does not end at zero, and a negative growth has an integral exponent (a period of one year either way). On success the growth times the buy price is the sell price and the period is `sellYear - buyYear`. Otherwise it names the error: `NotReal` for the complex case, `ZeroDivision` for the rest. |
| Interest.CalcInterestFloat64 | SandPCalc.py:48-50 | With a `float64` sell price: only a zero-length period raises (`ZeroDivision`). The result is infinity exactly when the sell price is zero and the period negative, and NaN exactly when the growth is negative over more than one year either way. In every other case it is the same finite rate as `CalcInterest`. |
| Interest.DenotesUnique | SandPCalc.py:49 | A computed rate stands for at most one real number. |
| Interest.OneYearRate | SandPCalc.py:49 | Over one year the rate is the plain relative gain `(sell - buy) / buy`. |
| Interest.ZeroRateIffUnchanged | SandPCalc.py:49 | The rate is zero if and only if the sell price equals the buy price. |
| Interest.UnchangedPriceZeroRate | SandPCalc.py:49 | An unchanged price gives the rate 0 and no other value. |
| Interest.RateMonotone | SandPCalc.py:49 | Over the same positive period, a larger non-negative growth never gives a smaller rate. |
| Interest.PositiveRateIffGain | SandPCalc.py:49 | Over a positive period with a positive buy price and a non-negative sell price, the rate is positive if and only if the sale gained. |
| Interest.GrossReturnExample | SandPCalc_test.py:44-47 | 1000 grown to 2000 over 2001 to 2011 succeeds with growth 2 over 10 years, and the real that rate stands for is strictly between 0.07177 and 0.07178. |
| Interest.LocalRateExample | SandPCalc_test.py:55-60 | 1000 ending at 8008.911933150266 over 2001 to 2021 gives a finite `float64` rate with growth 8.008911933150266 over 20 years, and the real it stands for is strictly between 0.10963 and 0.10964 (the rate of the local-currency scenario). |
| TotalReturn.Factor | SandPCalc.py:26-28 | The factor of a row is not zero as long as no row factor from row 1 up to that row is zero. |
| TotalReturn.Factors | SandPCalc.py:22-29 | The factor column has one entry per row. The first entry times the first index level is 1, and every entry times the first index level is the growth of the rows after the first up to that one. |
| TotalReturn.ColumnClosedForm | SandPCalc.py:25-28 | Every factor of the column times the first index level is the growth of the rows after the first up to it; for the first row that is 1. |
| TotalReturn.FactorRatio | SandPCalc.py:27-28 | Between any two rows the column grows by exactly the product of the row factors in between. |
| TotalReturn.FactorsClosedForm | SandPCalc.py:25-28 | Any factor times the first index level is the growth of all rows after the first up to it. |
| TotalReturn.SeedOnlyScales | SandPCalc.py:25-26 | The seed only fixes the scale: each factor times its seed level is the same whatever the first index level. |
| SandP.IndexTable.constructor | SandPCalc.py:16-19 | A loaded table holds exactly the given columns and a factor column of the same length. |
| SandP.IndexTable.CalcRet | SandPCalc.py:22-29 | Afterwards the factor column is exactly `Factors` of the first level, the yields, the tax and the cost. The loaded columns are unchanged. |
| SandP.IndexTable.EndValue | SandPCalc.py:63-71 | It rewrites the factor column as `CalcRet` does, and its result is `Valuation.EndValue` of the table's contents. |
| SandP.IndexTable.Sap500EndValue | SandPCalc.py:58-78 | It rewrites the factor column as `CalcRet` does. Its result is `Valuation.Sap500EndValue` of the table's contents. |
| SandP.IndexTable.GetReturnValueInLocal | SandPCalc.py:104-117 | It rewrites the factor column and gives the result of `Valuation.ReturnValueInLocal` on the table's contents. |
| Valuation.InflationCalc | SandPCalc.py:80-84 | It fails exactly when a year is missing, and then names the missing year, start year first. On success, one plus the inflation times the start CPI is the end CPI, and one plus the inflation is positive. |
| Valuation.FinalValue | SandPCalc.py:71 | Unmoved factor and level give back the investment. The value is zero exactly when the investment, the end factor or the end level is zero. |
| Valuation.NominalValue | SandPCalc.py:71-72 | The end value is kept, and the return plus one, times the investment, is the end value. |
| Valuation.AdjustForInflation | SandPCalc.py:74-76 | The end value is kept, and the deflated return plus one, times one plus the inflation, is the nominal return plus one. |
| Valuation.EndValue | SandPCalc.py:63-71 | It fails exactly when a year is missing, and then names the missing year, end year first. |
| Valuation.Sap500EndValue | SandPCalc.py:58-78 | It fails exactly when a year is missing, and then names the missing year, end year first. On success its end value is that of `EndValue`. |
| Valuation.AdjustedReturn | SandPCalc.py:72-76 | The deflated growth times the investment and the end CPI equals the end value times the start CPI. |
| Valuation.ReturnFromEndValue | SandPCalc.py:71-76 | Both years present means success. Without the inflation flag, the return plus one, times the investment, is the end value. With it, that product times `CPI[end]` is the end value times `CPI[start]`. |
| Valuation.EndValueFromFactors | SandPCalc.py:64-71 | The end value is computed from the factor and the level of the two years' rows, and the start factor is not zero. |
| Valuation.CancelCommonFactor | SandPCalc.py:71 | When the end factor is the start factor times a growth, the end value is the investment times the level ratio times that growth. |
| Valuation.EndValueClosedForm | SandPCalc.py:64-71 | The end value is the investment times `Value[end] / Value[start]` times the growth of the rows after the start year up to the end year. Neither the seed nor any other row enters it. |
| Valuation.SameYearHolding | SandPCalc.py:58-78 | Selling in the purchase year gives back the investment with a return of zero. |
| Valuation.OneYearHolding | SandPCalc.py:64-71 | Over one year the end value is the investment times the level ratio times that year's dividend-and-cost factor. |
| Valuation.InflationChangesOnlyReturn | SandPCalc.py:74-78 | The inflation flag leaves the end value unchanged. The deflated growth times `CPI[end]` is the nominal growth times `CPI[start]`. |
| Valuation.ToDollars | SandPCalc.py:109 | The dollar amount is zero exactly when the investment is zero or the conversion cost is 100%. |
| Valuation.FromDollars | SandPCalc.py:115 | The local end value is zero exactly when the dollar end value or `xrate2` is zero or the conversion cost is 100%. |
| Valuation.ConvertBack | SandPCalc.py:115-117 | It fails exactly for a zero-length period, with `ZeroDivision`. On success it returns `FromDollars` of the dollar end value and the two exchange rates, and the rate is `CalcInterestFloat64` of the investment and that local end value over the two years. A finite rate has the growth that takes the investment to the local end value over `endYear - startYear`, and the rate is infinite exactly when the local end value is zero and the period negative. |
| Valuation.ReturnValueInLocal | SandPCalc.py:104-117 | It succeeds exactly when both years are present and differ. A missing year fails with that year, end year first; a zero-length period fails with `ZeroDivision`. On success the two exchange rates are passed through and the rate is `CalcInterestFloat64` of the investment and the local end value over the two years: a finite rate has period `endYear - startYear` and growth times investment equal to the local end value, and the rate is infinite exactly when the local end value is zero and the period negative. |
| Valuation.LocalUnfolds | SandPCalc.py:109-116 | With both years present and a conversion cost below 100%, the dollar valuation succeeds and the result is the conversion back of its end value. |
| Valuation.LocalIgnoresInflation | SandPCalc.py:110-115 | The inflation flag does not change the local-currency result, because only the dollar end value is used. |
| Valuation.FullConversionCost | SandPCalc.py:109-116 | With a 100% conversion cost over a positive period, the local computation succeeds with a local end value of zero and the finite rate of growth 0, whose real is -1. |
| Valuation.LocalClosedForm | SandPCalc.py:109-115 | The local end value is what the investment would become held in the index, times `(xrate2 / xrate1)` times `(1 - conversionCost)` squared. |
| Valuation.RoundTrip | SandPCalc.py:109-115 | Converting in, holding and converting back equals holding, times the round-trip factor of the two conversions. |
| Valuation.LocalRateCompounds | SandPCalc.py:116 | A finite returned rate, compounded over the period, turns the investment into the local end value. |
| PropertyReturn.AccruedRentStep | SandPCalc.py:39-42 | One pass of the loop body takes the closed-form accrued rent for `k` years to the one for `k + 1` years. |
| PropertyReturn.Reinvest | SandPCalc.py:36-42 | The loop ends with the accrued rent equal to its closed form for the number of years strictly between purchase and sale. The property value is the buy price grown that number of times plus one. |
| PropertyReturn.GetPropertyReturn | SandPCalc.py:31-45 | A failing appreciation rate is passed on. Otherwise the result is `calc_interest(buy, sell + accrued rent)` paired with the appreciation and the rent, or its failure. The rolled-forward value reaches the sell price whenever the sale is after the purchase. |
| PropertyReturn.FinalValueIsSellPrice | SandPCalc.py:36-42 | Rolled forward at the appreciation rate over the whole period, the buy price reaches the sell price. |
| PropertyReturn.AccruedRentNonNegative | SandPCalc.py:37-41 | With a non-negative price, rent fraction and growth, and a cost fraction of at most one, the accrued rent is non-negative. |
| PropertyReturn.TotalReturnAtLeastAppreciation | SandPCalc.py:34-44 | Over a positive period, with a positive buy price, a non-negative sell price, a non-negative rent fraction and a cost fraction of at most one, the total rate including rent is at least the appreciation rate. |
| PropertyReturn.RentalExample | SandPCalc_test.py:49-52 | For 1000 to 2000 over 2001 to 2011 with 3% rent and 25% cost, the accrued rent is strictly between 460.98 and 460.99. |
| PropertyReturn.TotalReturnExample | SandPCalc_test.py:49-52 | In that scenario the total rate is strictly between 0.09423 and 0.09424. |
| XrateCheck.MonthOf | SandPCalc.py:99 | The month part is a prefix of the label with no "/", ending where the label ends or at its first "/". |
| XrateCheck.MonthOfLabel | SandPCalc.py:99-100 | The month part of `month + "/" + rest` is `month` when `month` has no "/". |
| XrateCheck.YearText | SandPCalc.py:100 | The year's text is non-empty and made of a minus sign and digits only, so it holds no "/". |
| XrateCheck.NatTextValue | SandPCalc.py:100 | Reading the decimal text of a number back gives the number. |
| XrateCheck.Label | SandPCalc.py:100 | Splitting a label at its first "/" gives back the month, when the month has no "/". |
| XrateCheck.LabelsMatch | SandPCalc.py:99-100 | The set of labels equals the set of rebuilt labels exactly when every label is its own month part followed by "/" and the year. |
| XrateCheck.XrateCheck | SandPCalc.py:96-101 | The check passes if and only if there is a label and every label is its own month part followed by "/" and the requested year. Otherwise it fails with `DataNotAvailable`. |

## Left out

- `get_xrate` (SandPCalc.py:87-94) fetches a web page and averages a column. The two exchange
  rates are parameters instead. Its failures, and the order of the two fetches around the dollar
  valuation, are not modelled.
- Loading the CSV file (SandPCalc.py:16-17) is left out; the table is given to the constructor.
  The NaN initialisation of the `endvalue` column (SandPCalc.py:19) is left out too, since
  `CalcRet` overwrites every entry.
- An empty table: `calc_ret` raises `IndexError` at SandPCalc.py:25. `Valuation.Table.Valid`
  requires at least one row, so this error is not modelled.
- The default arguments are not modelled; every parameter is explicit. They are: cost and tax 0
  for `calc_ret` (SandPCalc.py:22); the years 2001 and 2021 for `sap500_end_value`
  (SandPCalc.py:58-61); rent 0.03 and cost 0.25 for `get_property_return` (SandPCalc.py:31-32);
  currency "LKR" and conversion cost 0.02 for `get_return_value_in_local` (SandPCalc.py:104-107).
  The `__main__` call at SandPCalc.py:127 relies on them.
- The `print(cv)` of `get_property_return` and the `__main__` block are output only.
  `GetPropertyReturn` returns `cv` so that its value can be stated.
- `app.py` (user interface) and `readExchangeRates.py` (database, scraping) are not part of this
  model.
- Floating point: no rounding or overflow. Infinity and NaN are modelled only for the rate on the
  local path (`Interest.Float64Rate`). Other inputs for which numpy would give infinity or NaN
  without raising are excluded by preconditions:
  - a zero investment: the return of `sap500_end_value` and the rate of the local path are NaN;
  - a zero first index level, or a zero row factor from row 1 up to the start year's row
    (`Valuation.Table.Priceable`): the start factor is infinite or zero;
  - `xrate1 == 0`.
  Index levels and CPI values are required to be positive.
- A 100% conversion cost is admitted on the local path. The dollar valuation is then NaN only in
  its return, which the local path discards; the local result is an end value of 0 and a rate of
  -1 over a positive period (`Valuation.FullConversionCost`). `Valuation.LocalUnfolds` states the
  link to `Sap500EndValue` only below 100%, because `Sap500EndValue` needs a nonzero investment.
- The fractional power itself is not computed. Rates stay symbolic (`Rate` and `Denotes`).
  `GetPropertyReturn` takes the appreciation rate as an input that must be the rate `calc_interest`
  denotes.
- `NotReal`: on Python floats (the property path), where Python would go on computing with a
  complex number, the model stops with this error.
- Rows are taken to be consecutive years from `firstYear`, so `.loc[year]` is row
  `year - firstYear`. Tables with gaps are not modelled.
- `DividendYield_percent` is used as a fraction, exactly as the code uses it; the model does not
  rescale it.
- The equity fixtures of SandPCalc_test.py:6-24 need the CSV data, and they call `get_end_value`,
  which SandPCalc.py does not define. They are not modelled. The rate of the local-currency fixture
  is modelled (`Interest.LocalRateExample`), but its end value needs the data and is not.
- Valuation.Sap500EndValue: its contract states the failure cases and that its end value is the
  one of `EndValue`. Its return on success is stated by the lemmas `ReturnFromEndValue`,
  `SameYearHolding` and `InflationChangesOnlyReturn`, and its end value by `EndValueClosedForm`.
