# Census dashboard statistics, modelled in Dafny

This project models the numeric core of a census-tract dashboard written in
React and TypeScript. The dashboard draws pie charts and statistics panels
over a data frame of named columns, one row per tract. What is modelled is
what those components compute:

- **Weighted shares** (`Grafica`, `Grafica2`). One pass over the
  `total_population_CT` column accumulates, for eight category columns (four
  categories and their inflow variants), Σ column·population and the total
  population. Each pie segment's value is (weighted / total) · 100. The race
  and income charts differ only in their columns, so one aggregator takes
  the categories as data (`WeightedShares.AggregatePies`).
- **Descriptive statistics** (`Rangos`, `Rangos2`):
  - the filter, the non-null and distinct counts;
  - minimum and maximum;
  - quartiles read at index ⌊n·p⌋ of the ascending values;
  - mean and population-weighted mean;
  - the ten-row preview (`Rangos`) and the valid-versus-null pie (`Rangos2`).
- **Single-tract percentages** (`Componente2.calculatePercentages`): the four
  race fractions of one selected row, times 100.

Modules:

| file | module | content |
|---|---|---|
| wrappers.dfy | `Wrappers` | `Option`, `Result` |
| frames.dfy | `Frames` | cells (`Num`, `NaN`, `Null`), frames, JavaScript coercion and arithmetic on `Option<real>` |
| sums.dfy | `Sums` | exact sums, weighted sums, weighted mean and their bounds |
| weighted_shares.dfy | `WeightedShares` | the one-pass aggregator and the facts about shares |
| grafica.dfy | `Grafica` | the race charts |
| grafica2.dfy | `Grafica2` | the income charts |
| order_stats.dfy | `OrderStats` | sort, min, max, quartiles, mean, distinct count |
| rangos.dfy | `Rangos` | the first statistics panel |
| rangos2.dfy | `Rangos2` | the second statistics panel |
| componente2.dfy | `Componente2` | the single-tract pie |

JavaScript semantics are modelled as follows:
- **Numbers** are `Option<real>`. `None` stands for NaN and for the
  non-finite result of a division by zero.
- **`null`** coerces to 0 in arithmetic and comparison.
- **Reading past the end of a column** yields `undefined`. Every use in the
  core treats that like NaN, so `Frames.Read` returns `NaN`.
- **A missing column** that the code dereferences throws; the model returns
  `Err(MissingColumn(key))` for the first such column.
- **The loops** of the sources become methods. These are the `forEach` of
  both pie components and the weighted-average `forEach` of both panels. Each
  is proved equal to a specification function, and the properties are
  lemmas about that function.

In several places the code does not do what a reader of the panels would
expect: it keeps some missing values, has no explicit "empty" or "undefined"
state, and does not leave out a weighted mean whose weights add up to 0. The
model follows the code in each:
- **`Rangos` filter.** It drops only NaN (`!isNaN(v)`), so null values
  survive. They count as 0 in every statistic, but as a value of their own
  in the distinct count (`Rangos.NullIsZeroButDistinct`).
- **Empty columns.** An empty selection does not produce an explicit "empty"
  result:
  - `Rangos` has no guard. The model reports no statistics (`stats == None`);
    the source's quartiles are `undefined` there.
  - `Rangos2` reports zeros (`Rangos2.ZeroStats`).
- **Weighted average with no positive total.** Both panels show 0 instead of
  omitting it. `Rangos2` hides the line only when the population column has
  no entries.
- **`Rangos` weights.** A NaN population on a surviving row is not treated
  as 0: it turns the total into NaN, and the average becomes 0
  (`Rangos.WeightedAverageZeroOnNaNPopulation`).
- **`Rangos2` weights.** The weighted average pairs the k-th surviving value
  with the k-th population entry, not with the population of its own row
  (`Rangos2.MisalignedAfterDroppedNull`). The model reproduces this and
  proves it harmless only when nothing is dropped
  (`Rangos2.AlignedWhenNothingDropped`).
- **Shares with a total population of 0** are not guarded. They are NaN
  when the weighted sum is also 0, and ±Infinity when it is not (negative
  populations allow that). The model writes both as `None`
  (`WeightedShares.ShareUndefinedWhenTotalIsZero`).

## Model

| member | source | states |
|---|---|---|
| WeightedShares.AggregatePies | src/Grafica.tsx:45-117 | the single loop over the population column produces exactly the base and inflow records of `PieData`, or the error of the first column dereferenced while absent |
| WeightedShares.GroupShares | src/Grafica.tsx:65-117 | each record keeps its category's label, colour and key, and its value is the share of the column named by the key |
| WeightedShares.JsWeightedSumExact | src/Grafica.tsx:45-62 | with no NaN cell, the running sum equals the exact Σ column·population |
| WeightedShares.JsSumExact | src/Grafica.tsx:61 | with no NaN cell, the running total equals the exact Σ population |
| WeightedShares.JsSumPoisoned | src/Grafica.tsx:61 | one NaN population cell makes the total NaN |
| WeightedShares.ShareIsWeightedPercentage | src/Grafica.tsx:68 | without NaN and with a non-zero total, a share is 100 times the population-weighted mean of its column |
| WeightedShares.ShareUndefinedWhenTotalIsZero | src/Grafica.tsx:68 | a total population of 0 leaves every share undefined (no guard) |
| WeightedShares.ShareUndefinedWhenWeightIsNaN | src/Grafica.tsx:61 | a NaN population on any row leaves every share undefined |
| WeightedShares.GroupPercentSum | src/Grafica.tsx:65-90 | the shares of a group add up to 100 times the weighted mean of each row's total fraction over the group |
| WeightedShares.SharesSumToHundred | src/Grafica.tsx:65-90 | when each row's fractions over the group add up to 1, every share is defined and the shares add up to 100 |
| WeightedShares.SegmentKeysAreColumns | src/Grafica.tsx:123-128 | after a successful computation over at least one row, the key a clicked segment passes on names a column of the frame |
| WeightedShares.PieDataSucceeds | src/Grafica.tsx:45-63 | the computation succeeds exactly when the population column is present and, if it has rows, every category column of both charts is present; NaN cells never make it fail |
| WeightedShares.ChartReadsOnlyItsColumns | src/Grafica.tsx:65-117 | a chart's records depend only on its own columns and the weights, not on the other chart's columns |
| WeightedShares.FourColumnTotal | src/Grafica.tsx:47-50 | the four fractions of one row added equal that row's total over the group |
| WeightedShares.FourColumnSharesSumToHundred | src/Grafica.tsx:65-117 | a four-category chart whose rows add up to 1, over NaN-free weights with a non-zero total, has defined shares adding up to 100; only the charted columns must be NaN-free, the other chart's need only be present |
| Grafica.RacePies | src/Grafica.tsx:45-117 | the race component computes the shares of white, black, asian and hispanic and their inflow variants against `total_population_CT` |
| Grafica.RaceSegments | src/Grafica.tsx:65-117 | four segments per chart with keys `white_CT`…`hispanic_CT` and `*_inflow_CT` in that order; colour k is the same in both charts; each value is the share of its key's column |
| Grafica.RaceSharesSumToHundred | src/Grafica.tsx:65-90 | race shares add up to 100 when each tract's race fractions add up to 1, with the inflow columns present whatever they hold |
| Grafica.InflowSharesSumToHundred | src/Grafica.tsx:92-117 | inflow shares add up to 100 when each tract's inflow fractions add up to 1, with the race columns present whatever they hold |
| Grafica2.IncomePies | src/Grafica2.tsx:47-122 | the income component computes the shares of the four brackets and their inflow variants against `total_population_CT` |
| Grafica2.IncomeSegments | src/Grafica2.tsx:70-122 | four segments per chart from the lowest bracket to the highest; the same colour for bracket k in both charts; base labels equal their keys, inflow labels differ from their `*_inflow_CT` keys |
| Grafica2.IncomeSharesSumToHundred | src/Grafica2.tsx:70-95 | income shares add up to 100 when each tract's bracket fractions add up to 1, with the inflow columns present whatever they hold |
| Grafica2.InflowSharesSumToHundred | src/Grafica2.tsx:97-122 | inflow shares add up to 100 when each tract's inflow fractions add up to 1, with the bracket columns present whatever they hold |
| OrderStats.Insert | src/Rangos.tsx:24 | inserting into an ascending list keeps it ascending and adds exactly one copy of the value |
| OrderStats.SortAscending | src/Rangos.tsx:24 | the result is ascending and a permutation of the input |
| OrderStats.AscendingPermutationsAgree | src/Rangos.tsx:24-27 | two ascending permutations of the same values are equal, so any correct numeric sort yields the same quartiles |
| OrderStats.Min | src/Rangos.tsx:22 | the minimum is a value of the list and at most every value |
| OrderStats.Max | src/Rangos.tsx:23 | the maximum is a value of the list and at least every value |
| OrderStats.SortedEnds | src/Rangos.tsx:22-24 | the sorted list starts at the minimum and ends at the maximum |
| OrderStats.QuantileIndex | src/Rangos.tsx:25-27 | ⌊n·p⌋ is a valid index for 0 ≤ p < 1 and is the largest integer at most n·p |
| OrderStats.QuantileIndexMonotone | src/Rangos.tsx:25-27 | a larger proportion never reads an earlier index |
| OrderStats.MeanBounds | src/Rangos.tsx:28 | the mean lies between the minimum and the maximum |
| OrderStats.Describe | src/Rangos.tsx:22-28 | min ≤ q1 ≤ median ≤ q3 ≤ max, all five are values of the list, min and max bound every value, and the mean lies between them |
| OrderStats.QuartilesOfFourValues | src/Rangos.tsx:24-27 | for 3, 1, 4, 2 the quartiles are 2, 3, 4: the median is the upper middle value, not an average |
| OrderStats.QuartilesOfOneToEight | src/Rangos.tsx:25-27 | for 1..8 the quartiles are read at indices 2, 4, 6, giving 3, 5, 7 |
| OrderStats.DistinctCountBounds | src/Rangos.tsx:20 | the distinct count is at most the count, at least 1 when there is a value, and equal to the count when no value repeats |
| Rangos.NonNaN | src/Rangos.tsx:19 | the filter keeps at most as many cells as there are |
| Rangos.NonNaNMembers | src/Rangos.tsx:19 | the filter keeps exactly the cells that are not NaN; null is kept |
| Rangos.NonNaNDistributes | src/Rangos.tsx:19 | the filter keeps row order: filtering a concatenation is concatenating the filtered halves |
| Rangos.SurvivingNumbersMembers | src/Rangos.tsx:19-28 | a number enters the statistics exactly when the column holds it, or it is 0 and the column holds a null |
| Rangos.KeptSumsDefinedTogether | src/Rangos.tsx:33-38 | on the surviving rows the weighted sum is NaN exactly when the total population is |
| Rangos.WeightedAverage | src/Rangos.tsx:39 | the weighted average is always a number, and 0 when the total population is NaN |
| Rangos.ComputeWeightedAverage | src/Rangos.tsx:30-39 | the loop and the guarded quotient compute `WeightedAverage` |
| Rangos.KeptPopulationExact | src/Rangos.tsx:36 | with numeric populations on surviving rows, the running total is the exact sum of their populations |
| Rangos.KeptWeightedSumExact | src/Rangos.tsx:35 | with numeric populations on surviving rows, the running sum is the exact Σ value·population, null counting 0 |
| Rangos.WeightedAverageIsWeightedMean | src/Rangos.tsx:30-39 | with numeric populations and a positive total, the result is the population-weighted mean of the surviving numbers |
| Rangos.WeightedAverageBounds | src/Rangos.tsx:30-39 | with non-negative populations and a positive total, the weighted average lies between the minimum and the maximum |
| Rangos.WeightedAverageZeroOnNaNPopulation | src/Rangos.tsx:35-39 | a NaN population on one surviving row makes the total NaN and the weighted average 0 |
| Rangos.PreviewOf | src/Rangos.tsx:136-144 | the first min(10, n) rows, line k showing row k; the "more" line exists exactly when there are over ten rows and then counts the n − 10 rows not shown |
| Rangos.RangosData | src/Rangos.tsx:14-39 | succeeds exactly when the selected, GEOID and total_population columns exist; distinct ≤ non-null ≤ rows; statistics exist exactly when a value survives; the weighted average is always a number |
| Rangos.NullIsZeroButDistinct | src/Rangos.tsx:19-20 | a null and a 0 both survive, count as two distinct values, and both enter the statistics as 0 |
| Rangos2.ValidNumbers | src/Rangos2.tsx:15 | a number survives exactly when the column holds it; the survivors and the null or NaN cells account for every cell |
| Rangos2.ValidNumbersDistributes | src/Rangos2.tsx:15 | the filter keeps row order |
| Rangos2.ComputeWeightedAverage | src/Rangos2.tsx:29-37 | the guarded loop and the guarded quotient compute `WeightedAverage` |
| Rangos2.WeightedAverageIsPositionalMean | src/Rangos2.tsx:29-37 | with a positive total, the result is the weighted mean of the surviving values under the positional weights `totalPopulation[k] \|\| 0` |
| Rangos2.WeightedAverageBounds | src/Rangos2.tsx:29-37 | with non-negative weights and a positive total, the weighted average lies between the minimum and the maximum |
| Rangos2.AlignedWhenNothingDropped | src/Rangos2.tsx:32-35 | when every cell is a number, the positional weights are the row populations, and the result equals the row-aligned average |
| Rangos2.MisalignedAfterDroppedNull | src/Rangos2.tsx:32-35 | for the rows null, 1, 3 with populations 100, 1, 1 the panel computes 103/101, where the row-aligned average is 2 |
| Rangos2.NullPie | src/Rangos2.tsx:109-112 | "No nulos" carries the count of numbers and "Nulos" the count of null and NaN cells, with their colours; together they equal the number of cells |
| Rangos2.Rangos2Data | src/Rangos2.tsx:14-37 | a missing column reads as empty; count plus null count is the column length; distinct ≤ count; zero statistics when nothing survives; the weighted average is present exactly when the population column has entries |
| Rangos2.StatsOfValidNumbers | src/Rangos2.tsx:21-27 | with survivors, the statistics are ordered, min and max are numbers of the column, bound every number, and bound the mean |
| Componente2.CalculatePercentages | src/Componente2.tsx:25-53 | an absent tract column is the error; an index outside it, or a population of exactly 0, gives no segments before any other column is read; an absent population column is the error; otherwise the first absent race column in order is the error, and with all present there are four segments, segment k with label and colour k and value cell·100 |
| Componente2.PercentagesSumToHundred | src/Componente2.tsx:31-52 | when the row's four fractions are numbers adding up to 1, every segment is defined and they add up to 100 |
| Componente2.OnlySelectedRowMatters | src/Componente2.tsx:25-53 | frames that agree on the selected row, on the tract count and on whether that population is 0 give the same segments |

## Left out

- Histograms (`d3.bin` with 20 thresholds), d3 scales, axes, SVG drawing, legends and the React state and effects of every component: presentation only.
- Number formatting (`toFixed(6)`), the pie labels shown only above 5 % or above 0, and the panel titles: presentation only.
- Floating point: values are exact reals, so rounding in the sums and quotients is not modelled. Infinities are merged with NaN as `None`.
- Cells that are strings or other non-numeric JavaScript values: a cell is a number, NaN or null.
- The GEOID and `tract_id` texts: a preview line carries its row index, whose GEOID the table shows, and of `tract_id` only the length is used.
- Rangos.RangosData: when nulls survive, the source's sorted array still holds `null` itself (the comparator only coerces it). A quartile that lands on one is `null`, and formatting it throws. The model reports 0 there. The stable order between a null and a 0 is not modelled either.
- Rangos.RangosData: with an empty selection the source's render throws at `q1.toFixed(6)`, because `sorted[0]` is `undefined`, so the panel shows nothing; the model reports no statistics (`stats == None`) instead of modelling the rendering failure.
- Rangos.PreviewOf: a null among the first ten cells passes the `isNaN` test of the preview and its `toFixed(6)` throws; the model keeps the cell in the preview line and does not model that rendering failure.
- `Math.min(...values)` and `Math.max(...values)` over very long arrays can exceed the engine's argument limit; that limit is not modelled.
- The selection of the tract index in `Componente2` (a select box) and which segment was clicked in the pie components: both are parameters.
- Loading the CSV into a data frame (`src/DanfoExample.tsx`) and `src/DateComponente.tsx`: not part of this model.
