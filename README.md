# Usufruct valuation engine — a Dafny model

This project models the actuarial valuation engine of a small property-pricing
service. Given a market price for a home (the "NIVU" estimate), comparable
transaction prices for the same postal code and area bucket (the "ITBI"
dataset), and the occupant's age and gender, the engine:

1. looks up the average, minimum and maximum comparable price of the bucket
   (`get_itbi_price`);
2. integrates a life table into an actuarial factor — the survival-weighted,
   discounted sum over every age from the occupant's age on
   (`actuarial_factor_usufruct`);
3. turns the factor into a usufruct share, `min(factor / (1/rate), 1)`
   (`get_usufruct_percentage`);
4. splits the price into usufruct and bare-property values and computes the
   desagio (bare value as a percentage of a reference price), switching the
   reference from the market price to the comparable minimum/maximum when the
   market price differs from the comparable average by more than 10%
   (`calculate_desagio`).

All arithmetic is over Dafny's exact `real`. The engine's 12% discount rate
(`DISCOUNT_RATE`, app.py:18) is `Desagio.DiscountRate`. The life tables and the
comparable dataset, loaded from CSV files at start-up in the original, are
parameters here (`Mortality.MortalityTables`, a `seq` of
`ComparableMarket.Transaction`).

Files, one module each:

- `wrappers.dfy` — `Option` (Python's `None`) and `Result` (the lookup failure).
- `comparables.dfy` — module `ComparableMarket`: area buckets, the filter and
  the mean/min/max aggregate.
- `mortality.dfy` — module `Mortality`: life tables, the choice of table by
  gender, the sort by age and the exact-age lookup of l(x).
- `actuarial.dfy` — module `Actuarial`: the specification of the factor
  (`FactorSum`, `Factor`), the accumulation loop as a method proved against
  it, and lemmas about the factor.
- `desagio.dfy` — module `Desagio`: the usufruct share, the variance, the
  reconciliation and the whole pipeline.

Two behaviours of the code that a reader might not expect:

- Gender: an unrecognised gender might be expected to fall back to the
  "other" table. The code never reads that table: its first assignment
  (app.py:271) is overwritten by both arms of the following `if`/`else`
  (app.py:273-276), so `'male'` selects the male table and every other
  string, including `'other'`, selects the female table.
  `Mortality.GenderSelection` states this.
- Age monotonicity: the factor is not monotone in the starting age.
  `Actuarial.FactorCanRiseWithAge` gives a table whose survivor counts never
  rise on which the factor at age 1 exceeds the factor at age 0.

## Model

| member | source | states |
|---|---|---|
| `ComparableMarket.BucketStart` | app.py:54 | the bucket is a multiple of 100 and is the largest one not above the built area (floor division, negative areas included) |
| `ComparableMarket.Matching` | app.py:56-57 | a value is in the filtered list exactly when some row has both the postal code and the bucket and declares that value |
| `ComparableMarket.Minimum` | app.py:61 | the minimum is one of the values and no value is below it |
| `ComparableMarket.Maximum` | app.py:62 | the maximum is one of the values and no value is above it |
| `ComparableMarket.Sum` | app.py:60 | the total behind the mean: for n values in [lo, hi] it lies in [n·lo, n·hi] (`SumBetween`), and the mean times the count equals it (`Mean`) |
| `ComparableMarket.SumBetween` | app.py:60 | n values in [lo, hi] sum to between n·lo and n·hi |
| `ComparableMarket.Mean` | app.py:60 | the mean times the count is the sum, and the mean lies between the minimum and the maximum |
| `ComparableMarket.ItbiPrice` | app.py:50-64 | (0, 0, 0) when nothing matches; otherwise min and max are matching values bounding all of them and min ≤ avg ≤ max with avg the mean; with positive declared values, (0, 0, 0) exactly when nothing matches |
| `ComparableMarket.MatchingAppend` | app.py:56-57 | filtering a concatenation is the concatenation of the filtered parts |
| `ComparableMarket.OtherRowsIgnored` | app.py:56-62 | inserting a row with another postal code or bucket anywhere in the dataset does not change the lookup |
| `Mortality.LifeTableFor` | app.py:271-276 | the table used is always the male or the female one, never the "other" table; `'male'` selects the male table and any other string the female one (`GenderSelection`) |
| `Mortality.GenderSelection` | app.py:271-276 | `'male'` selects the male table, every other string the female table, and the "other" table never influences the choice |
| `Mortality.InsertByAge` | app.py:279 | inserting into an age-sorted table keeps it sorted and adds exactly that row |
| `Mortality.SortByAge` | app.py:279 | the result is sorted by age and is a permutation of the table (same multiset, same rows) |
| `Mortality.LxAt` | app.py:281 | absent exactly when no row has the age; otherwise the survivor count of the first row with that age |
| `Mortality.LxAtPermutation` | app.py:279-281 | with unique ages, reordering the table does not change l(x) |
| `Actuarial.Pow` | app.py:291 | a positive base gives a positive power, a base of at least 1 a power of at least 1 |
| `Actuarial.Term` | app.py:286-293 | a row below the starting age adds 0; the starting-age row adds lx/lx_start; with non-negative counts no row adds a negative amount |
| `Actuarial.FactorSum` | app.py:282-293 | the running total of the row contributions over the rows in order; never negative for a positive l(x) and non-negative counts; independent of the order of the rows (`FactorSumPermutation`), equal to the sum over the rows at or after the starting age (`OnlyLaterRowsCount`), at least 1 when the starting-age row is present (`FactorAtLeastOne`) |
| `Actuarial.Factor` | app.py:281-295 | fails with MissingStartAge exactly when no row has the starting age |
| `Actuarial.ActuarialFactor` | app.py:270-295 | fails exactly when the selected table has no row at the starting age; otherwise returns the factor of the age-sorted table, which is at least 1 when survivor counts are non-negative |
| `Actuarial.AccumulateFactor` | app.py:282-295 | the loop's total is the sum of the row contributions over the whole table; at least 0, and at least 1 when the starting-age row is present |
| `Actuarial.FactorSumAppend` | app.py:284-293 | the sum over a concatenation is the sum of the sums |
| `Actuarial.FactorSumPermutation` | app.py:284-293 | the sum does not depend on the order of the rows |
| `Actuarial.AtOrAfter` | app.py:286-287 | keeps exactly the rows whose age is at least the starting age |
| `Actuarial.OnlyLaterRowsCount` | app.py:284-293 | the factor equals the sum over exactly the rows at or after the starting age |
| `Actuarial.FactorAtLeastOne` | app.py:281-293 | with lx_start > 0 and non-negative counts the sum is non-negative, and at least 1 when the starting-age row is present |
| `Actuarial.SortingKeepsFactor` | app.py:279-295 | with unique ages, sorting the table by age leaves the factor (and its failure) unchanged |
| `Actuarial.FactorCanRiseWithAge` | app.py:284-295 | at any non-negative rate there is a table whose factor at age 1 exceeds its factor at age 0 |
| `Desagio.UsufructPercentage` | app.py:297-300 | the share is min(factor·rate, 1): never above 1, and non-negative for a non-negative factor and positive rate |
| `Desagio.Percent` | app.py:325 | 0 when the reference is 0; otherwise the percentage times the reference is 100 times the part |
| `Desagio.Variance` | app.py:319 | 0 when the comparable average is 0; above 10 exactly when the average is positive and the price differs from it by more than a tenth of it |
| `Desagio.Reconcile` | app.py:319-332 | usufruct + bare = price with usufruct = price·share; no upper desagio exactly when the variance is at most 10, in which case the desagio is (1 − share)·100 (0 for a zero price); above 10 both desagios are the bare value against the comparable min and max, 0 for a zero reference |
| `Desagio.ReconcileBounds` | app.py:322-325 | with a share in [0, 1] and a non-negative price both values lie in [0, price] and the low-variance desagio in [0, 100] |
| `Desagio.HighVarianceOrder` | app.py:328-330 | above 10% variance, with 0 < min ≤ max and a non-negative bare value, the ratio against the maximum is at most the ratio against the minimum |
| `Desagio.CalculateDesagio` | app.py:302-332 | fails exactly when the life table lacks the age; otherwise the reconciliation of the price at the share derived from the 12% factor, with the exact price partition and bounded values |
| `Desagio.LowVarianceScenario` | app.py:319-331 | a price 5.3% above the comparable average yields no upper desagio |
| `Desagio.BoundaryScenario` | app.py:328 | a price exactly 10% above the average still yields no upper desagio (the test is strict) |
| `Desagio.HighVarianceScenario` | app.py:319-331 | a price 11.1% above the average is reconciled against the comparable min and max |
| `Desagio.NoComparablesScenario` | app.py:319-326 | with the (0, 0, 0) fallback the variance is 0 and the desagio is taken against the market price |

## Left out

- The web layer: the Flask app, CORS, the routes `index`, `search_neighborhood` and `calculate_price`, their request validation and JSON responses (app.py:8-13, 98-268, 335-336). They only move data to and from the engine.
- The NIVU API clients `nivu_valuation` and `nivu_search_neigh` (app.py:25-48, 68-96): network I/O. The market price is a parameter.
- Loading the CSV tables at import time (app.py:20-23): file I/O. The tables are parameters.
- The age computed from `datetime.now()` and the parsed birth date (app.py:181, 234): it depends on the clock. The age is a parameter.
- All `print` output: it has no effect on results.
- Floating point: the model uses exact rationals, so IEEE rounding, `inf` and `nan` are not modelled. In particular a zero survivor count at the starting age, which yields `inf`/`nan` in the original, is excluded by the precondition `StartRowsPositive`.
- pandas specifics: `mean`/`min`/`max` skipping missing values, and the sort being unstable. The model sorts with an insertion sort that inserts each row before the rows of equal age, so rows of equal age keep their input order (`SortKeepsTiesInOrder` shows this on a two-row table); `SortingKeepsFactor` shows the order does not matter when ages are unique. With duplicate ages the original may read l(x) from any of the duplicates, while the model reads it from the first duplicate in input order.
- The default `discount_rate=0.12` of `get_usufruct_percentage` (app.py:297): its only caller passes `DISCOUNT_RATE` explicitly (app.py:313-316), so `UsufructPercentage` takes the rate as an ordinary parameter.
- The unused `property_type` parameter of `get_itbi_price` (app.py:50) and the keyword columns `age_col`/`lx_col` of `actuarial_factor_usufruct` (app.py:270), which are fixed to the table's two fields.
- Age monotonicity of the factor: not a property of the code; `FactorCanRiseWithAge` gives a counterexample.
- A fallback of unknown genders to the "other" table: the code never reads that table (app.py:271-276), so there is no such fallback to model (see `GenderSelection`).
