# wealth-simulator core, modelled in Dafny

The wealth simulator projects a savings plan that puts an initial capital and
a fixed monthly contribution into one risky asset and cash. A rebalancing
strategy fixes the target share of the asset each month:

- `FIXED` keeps a constant cash percentage;
- `GLIDE_CASH` interpolates the cash percentage linearly from a start to an
  end value;
- `GLIDE_LEVERAGE` interpolates a leverage multiple. A multiple above 1
  means negative cash, which is charged interest at the borrow cost.

This project models the engine behind the simulator:

- **`Simulator`**: the month-by-month simulation (`runSimulation`). Each
  month has four steps: asset growth, interest on debt, the contribution,
  and rebalancing to the target ratio.
- **`Statistics`**: the statistics reducer. `calculatePercentiles` gives
  nearest-rank 10th/50th/90th percentiles and the extremes.
  `calculateHistogram` builds equal-width bins over the range.
- **`MonteCarlo`**: the Monte Carlo driver (`runMonteCarlo`). It gives the
  final values, how often the portfolio beat a 100%-asset benchmark with
  the same contributions, and the median benchmark return.
- **`MonteCarloPaths`**: the path sampler (`generateMonteCarloPaths`). It
  returns whole runs sorted by final value, plus the median run's index.
- **`Generators`**: the geometric Brownian motion price generator
  (`generateRandomWalk`).
- **Shared modules**: the plain data types (`Types`), option and result
  wrappers (`Wrappers`), and an ascending sort (`Sorting`). The sort is
  specified as a stable sorted permutation, as ECMAScript 2019 and later
  require of `Array.prototype.sort`. Its rank facts are what nearest-rank
  percentiles and the lower median rely on.

Numbers are Dafny `real`s, so arithmetic is exact.

Randomness, `Math.exp` and `Math.sqrt` become inputs:

- **Monte Carlo driver and path sampler:** they receive the market paths
  themselves, one per iteration.
- **Generator:**
  - it receives the standard-normal shocks as a sequence;
  - it receives the exponential as a function argument, required only to be
    positive;
  - it receives the square root as a function argument, with nothing
    required of it.

## Model

| member | source | states |
|---|---|---|
| Simulator.InitialLedger | src/engine/simulator.ts:7-18 | The starting split holds exactly the initial capital. The asset share is the start ratio for leverage, else one minus the start cash percentage. Contributions start at the initial capital. |
| Simulator.AdvanceAccounting | src/engine/simulator.ts:40-62 | After one month, the portfolio is worth the grown asset, plus cash (grown by the monthly borrow rate only when negative), plus the contribution. The asset is then exactly the target share of that value, and contributions grow by one payment. |
| Simulator.ContributedAfter | src/engine/simulator.ts:52-53 | After k months, the contribution total is the initial capital plus k monthly contributions. |
| Simulator.RebalancedAfter | src/engine/simulator.ts:56-62 | After each month's rebalance, the asset holds exactly that month's target ratio of the total value. |
| Simulator.StepAtFacts | src/engine/simulator.ts:64-72 | Month i's step has the market point's month and price, and total = asset + cash. Its asset is the total times its target ratio, and its contribution total is the capital plus i+1 contributions. |
| Simulator.RunSimulation | src/engine/simulator.ts:3-76 | The run has one step per market point. Every step carries the market month and price, value = asset + cash, and asset = value × target ratio. Its target ratio is the strategy's schedule value for that month, and its contribution total follows the payment schedule. |
| Simulator.RunSimulationSteps | src/engine/simulator.ts:39-66 | Every step after the first is worth the previous step's asset grown by the month's return, plus the previous step's cash (less a month's borrow interest when negative), plus the contribution. |
| Simulator.RunSimulationFirstStep | src/engine/simulator.ts:39-66 | The first step is worth the initial holdings grown the same way: the asset by the month's return, and the cash less interest when negative, plus the contribution. |
| Simulator.FinalValueIsLedger | src/engine/monteCarlo.ts:39-41 | The final value the drivers read from a non-empty run is the value of the state after the whole path. That last step's contribution total is the state's contributions. |
| SimulatorProperties.ProgressBounds | src/engine/simulator.ts:28 | Progress is 0 at the first month and 1 at the last when there are at least two months. It is monotone and within [0, 1]. Dividing by one for a single month avoids division by zero. |
| SimulatorProperties.GlideInterpolates | src/engine/simulator.ts:30-37 | Both glide strategies interpolate linearly, by progress, from the start-derived ratio to the end-derived ratio. |
| SimulatorProperties.FixedSchedule | src/engine/simulator.ts:30-31 | FIXED targets one minus the start cash percentage every month, whatever the end ratio. |
| SimulatorProperties.GlideSchedule | src/engine/simulator.ts:30-37 | A glide starts at the start-derived ratio and ends at the end-derived ratio. It moves monotonically between them, in either direction. |
| SimulatorProperties.SameScheduleSameLedgers | src/engine/simulator.ts:14-62 | Two parameter sets are equivalent when they have the same money, borrow cost, starting split and monthly targets. Equivalent sets produce identical states on any path. |
| SimulatorProperties.FixedIgnoresEndRatio | src/engine/simulator.ts:30-31 | Under FIXED, the end ratio has no effect on the run. |
| SimulatorProperties.AdvanceAllInAsset | src/engine/simulator.ts:40-62 | At target ratio 1 with no cash, the month grows the asset and invests the contribution. No cash and no interest arise. |
| SimulatorProperties.UnitLeverageIsAllInAsset | src/engine/simulator.ts:7-37 | A 1x-to-1x leverage glide runs identically to FIXED with 0% cash. |
| SimulatorProperties.UnleveredRatioBounds | src/engine/simulator.ts:7-37 | With cash percentages in [0, 100], every target ratio lies in [0, 1]. |
| SimulatorProperties.AdvanceUnlevered | src/engine/simulator.ts:40-62 | Take a month with non-negative holdings, a ratio in [0, 1], a return of at least -100% and a non-negative contribution. It charges no interest, keeps both holdings non-negative, and ends at the grown asset plus cash plus the contribution. |
| SimulatorProperties.UnleveredStaysSolvent | src/engine/simulator.ts:23-72 | A cash-percentage strategy with non-negative money, on returns of at least -100%, never reports negative asset or cash. |
| SimulatorProperties.UnleveredIgnoresBorrowCost | src/engine/simulator.ts:44-49 | Interest applies only to negative cash, so such a run is the same for every borrow cost. |
| SimulatorProperties.FlatMarketKeepsCapital | src/engine/simulator.ts:23-72 | With zero returns and no contributions, an unlevered portfolio stays worth its initial capital every month. |
| Sorting.Sort | src/utils/statistics.ts:20 | The numeric sort returns an ascending permutation of its input. |
| Sorting.SortedIsSortedById | src/utils/statistics.ts:20 | Ascending order of numbers is the same as ascending order under the identity key, so the numeric sort and the keyed sort agree on what sorted means. |
| Sorting.SortBy | src/engine/monteCarloPaths.ts:41-45 | Sorting by a key returns a permutation ascending in that key. |
| Sorting.InsertWithKey | src/engine/monteCarloPaths.ts:41-45 | Inserting an element puts it ahead of the elements with its key and keeps the order of all others. |
| Sorting.SortByStable | src/engine/monteCarloPaths.ts:41-45 | The sort is stable: for every key value, the elements with that key appear in their input order. |
| Sorting.SortedPermutationUnique | src/utils/statistics.ts:20 | Two ascending permutations of one another are equal, so the sorted copy is uniquely determined. |
| Sorting.SortOfSorted | src/utils/statistics.ts:20 | Sorting an ascending sequence leaves it unchanged. |
| Sorting.OrderStatistic | src/utils/statistics.ts:20-25 | Entry k of the sorted copy is an input element. At most k inputs lie strictly below it and at most n-1-k strictly above. |
| Sorting.SortByKeys | src/engine/monteCarloPaths.ts:41-48 | The keys of the runs sorted by key are the sorted keys. |
| Statistics.PercentileIndex | src/utils/statistics.ts:23-26 | The clamped nearest-rank index always lies inside the sorted array. |
| Statistics.PercentileIndexMonotone | src/utils/statistics.ts:23-26 | A higher percentile never reads an earlier index. |
| Statistics.CalculatePercentiles | src/utils/statistics.ts:19-35 | min ≤ p10 ≤ p50 ≤ p90 ≤ max, and every input lies within [min, max]. Each reported figure is an input element of the stated rank: min has rank 0, p10/p50/p90 have the clamped floor(count·p) ranks, and max has rank count-1. |
| Statistics.PercentilesOfOneToHundred | src/utils/statistics.ts:23-33 | For the values 1..100 the result is p10 = 11, p50 = 51, p90 = 91, min = 1 and max = 100. |
| Statistics.BinIndex | src/utils/statistics.ts:63-65 | The clamped bin index always names an existing bin. |
| Statistics.BinIndexFinds | src/utils/statistics.ts:62-66 | Consider a value inside the range. It is counted in bin b if and only if it lies in [start_b, start_b + step). The last bin also takes the maximum. |
| Statistics.Tally | src/utils/statistics.ts:62-67 | The tally has one count per bin, and the counts sum to the number of values. |
| Statistics.TallyCountsBins | src/utils/statistics.ts:62-67 | Each bin's count is the number of values inside that bin's interval. |
| Statistics.MakeBinsRanges | src/utils/statistics.ts:50-60 | The bins start at min and end at max. Each bin is one step wide and ends where the next starts. |
| Statistics.CalculateHistogram | src/utils/statistics.ts:37-70 | Empty input gives no bins. Non-empty input fails with no bins or with all values equal. Otherwise there are binCount contiguous equal-width bins from the least to the greatest value. Each counts the values in its interval, the last is closed, and the counts sum to the input size. |
| Statistics.CalculateHistogramGuarded | src/utils/statistics.ts:37-70 | Corrected histogram: equal values give binCount zero-width bins at that value, with everything in bin 0. Every other input gets the result of the code as written. |
| Statistics.EqualValuesFailAsWritten | src/utils/statistics.ts:47-66 | The code as written fails on [5, 5] with 25 bins. The corrected version puts both values in bin 0. |
| MonteCarlo.BenchmarkContribution | src/engine/monteCarlo.ts:56-63 | The benchmark's contribution total after k months is the initial capital plus k contributions. |
| MonteCarlo.Collect | src/engine/monteCarlo.ts:23-73 | The accumulation loop keeps one final value and one benchmark return per non-empty run. Its beat count is the number of paths whose portfolio profit strictly exceeds the benchmark's. |
| MonteCarlo.CollectAllNonEmpty | src/engine/monteCarlo.ts:39-72 | When every path yields a run, the accumulated final values and benchmark returns are those of the paths, in path order. |
| MonteCarlo.RunMonteCarlo | src/engine/monteCarlo.ts:11-85 | One final value per non-empty run. The beat frequency is beats / iterations × 100 and lies in [0, 100]; it is undefined only with zero iterations. The median return is undefined only with no runs; otherwise it is the benchmark return of rank floor(n/2) among the n runs' returns. When every path yields a run, these are the returns of the paths in path order, and the final values are the paths' final values. |
| MonteCarlo.CollectFilter | src/engine/monteCarlo.ts:23-74 | For any mix of empty and non-empty paths, the collected final values and benchmark returns are those of exactly the non-empty paths, in path order. |
| MonteCarlo.RunMonteCarloFiltered | src/engine/monteCarlo.ts:23-79 | For any mix of paths, the final values are the non-empty paths' final values in order. When some path is non-empty, the median return has rank floor(n/2) among those paths' benchmark returns. |
| MonteCarlo.PercentageBounds | src/engine/monteCarlo.ts:82 | A count out of at most that many iterations is a percentage in [0, 100]. |
| MonteCarlo.BenchmarkIsAllInAssetRun | src/engine/monteCarlo.ts:54-63 | The benchmark's shortcut loop ends at the same value as a full simulation with FIXED 0% cash and the same contributions. |
| MonteCarlo.AllInAssetTies | src/engine/monteCarlo.ts:65-66 | A FIXED 0% cash portfolio makes exactly the benchmark's profit. |
| MonteCarlo.AllInAssetNeverBeats | src/engine/monteCarlo.ts:68-70 | The beat test is strict, so a FIXED 0% cash portfolio never beats the benchmark: its frequency is exactly 0. |
| MonteCarlo.AllInCashFinalValue | src/engine/monteCarlo.ts:33-41 | A FIXED 100% cash portfolio ends at the same value on every path of a given length. |
| MonteCarlo.AllInCashHistogram | src/utils/statistics.ts:47-66 | For 100% cash, equal-length paths give identical final values. On those values, the code as written fails with 25 bins and the corrected histogram succeeds. |
| MonteCarloPaths.KeptRuns | src/engine/monteCarloPaths.ts:19-38 | There is one kept run per non-empty path. Each is non-empty, follows the contribution schedule and has the paths' common length. When every path is non-empty, the kept runs are all the runs in path order. |
| MonteCarloPaths.KeptRunsFilter | src/engine/monteCarloPaths.ts:19-38 | For any mix of empty and non-empty paths, the kept runs are the non-empty runs, in path order. |
| MonteCarloPaths.GenerateMonteCarloPaths | src/engine/monteCarloPaths.ts:10-54 | The paths are a permutation of the kept runs, ascending by final value, all non-empty and on the contribution schedule. The median index is floor(count/2) and is a valid index when there are runs. |
| MonteCarloPaths.TiedRunsKeepPathOrder | src/engine/monteCarloPaths.ts:41-48 | Runs with equal final values keep their path order after sorting, so the run at the median index is determined even when ties occur. |
| MonteCarloPaths.SharedContributions | src/components/MonteCarloPathsChart.tsx:54 | All sampled runs have the same contribution total at each month, so the first path's totals can serve as the invested-capital line for all. |
| MonteCarloPaths.MedianPathIsMedianValue | src/engine/monteCarloPaths.ts:41-48 | Take paths that all yield runs. The median path's final value is the rank-floor(n/2) value of the final values the Monte Carlo driver reports on the same paths. |
| Generators.NextPoint | src/engine/generators.ts:32-42 | A month's point has the next month number, its price is the last price times the growth factor, and its simple return is growth minus one. Prices never become zero and stay positive if positive. |
| Generators.GrownConsistent | src/engine/generators.ts:33-36 | The new price is the previous price times one plus the month's simple return. |
| Generators.Walk | src/engine/generators.ts:20-45 | k months give k+1 points starting at month 0 with the initial price and return 0. Prices are never zero, and they stay positive from a positive start. |
| Generators.WalkPoints | src/engine/generators.ts:30-45 | Point i is month i, grown from point i-1 by exp(drift + vol × shock_i). |
| Generators.SimpleReturn | src/engine/generators.ts:36 | The simple return of a growth by a positive factor is that factor minus one. |
| Generators.GenerateRandomWalk | src/engine/generators.ts:10-48 | Gives months+1 points, or one point when months ≤ 0. Point i is month i, the first is (0, initialPrice, 0), every return exceeds -100%, and prices are never zero. Prices stay positive from a positive start. |
| Generators.GeneratedMonths | src/engine/generators.ts:16-33 | Each month grows the price by exp of drift (μ - σ²/2)/12 plus σ·√(1/12) times that month's shock. |
| Generators.GeneratedCompounds | src/engine/generators.ts:30-45 | The price at month j is the initial price compounded by the first j simple returns. |
| Generators.GeneratedPathKeepsUnleveredSolvent | src/engine/generators.ts:30-45 | On any generated path, a cash-percentage strategy with non-negative money never reports negative asset or cash. |

## Left out

- `boxMullerTransform` (src/engine/generators.ts:53-58) and `Math.random` are not modelled. The generator takes the standard-normal shocks as an input sequence instead.
- `Math.exp` and `Math.sqrt` are function parameters. The only assumption made is that the exponential is positive. Floating-point rounding (IEEE doubles) is not modelled: all arithmetic is on exact reals.
- Generators.GenerateRandomWalk: requires a non-zero initial price. With price 0 the source computes 0/0 = NaN returns; every caller passes 100.
- Generators.GenerateRandomWalk: treats `months` as an integer. The source's `durationYears * 12` could be fractional, and its loop then stops at the floor.
- `getMockSP500Data` (src/engine/generators.ts:65-70) is not modelled. It only calls the generator with fixed arguments.
- The Monte Carlo driver and path sampler take the market paths themselves: one path per iteration, so the iteration count is the number of paths. The generation step is modelled separately by `Generators.GenerateRandomWalk`.
- MonteCarlo.RunMonteCarlo: requires `HasBenchmark` on every non-empty path, that is, a non-zero benchmark contribution total. When that total is zero the source divides by zero and records NaN or ±Infinity.
- MonteCarlo.RunMonteCarlo: models a NaN frequency (zero iterations) and an undefined median (no runs) as `None`.
- Statistics.CalculatePercentiles: requires a non-empty input. On an empty array the source returns `undefined` fields. Its caller passes the final values of 10000 iterations, which are never empty.
- Statistics.PercentileIndex: computes floor(count·pct/100) exactly. The source multiplies the doubles 0.1, 0.5 and 0.9 by the count. These doubles are at or slightly above the exact fractions, so the floor is the same.
- Statistics.CalculateHistogram: omits the bin display labels. The source's crashes (a TypeError on a missing bin) are modelled as `Failure`. A fractional bin count is not modelled.
- The engine's own sorting algorithm is not modelled. An insertion sort stands in for it and is proved stable, sorted and a permutation, which is what ECMAScript 2019 and later require of `Array.prototype.sort`.
- UI components, formatters, default constants and `App.tsx` are not part of this model. The one exception is the chart's use of the first path's contribution totals, whose correctness `MonteCarloPaths.SharedContributions` states.

## Findings

| source | as written | input that shows it | evidently intended | confidence | as-written member | corrected member |
|---|---|---|---|---|---|---|
| src/utils/statistics.ts:47-66 | With all values equal, `step` is 0, so `(v - min) / step` is NaN. Neither clamp catches it, so `bins[NaN].count++` throws. | values [5, 5], binCount 25. This is realistic: a FIXED 100% cash portfolio yields identical final values on every path. | All values land in bin 0. | not executed | Statistics.EqualValuesFailAsWritten | Statistics.CalculateHistogramGuarded |
