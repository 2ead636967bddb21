# Volatility backtest, Heston simulation, ATM option and pool price — a Dafny model

This project models the numerical core of a small ETH volatility research
repository in Dafny and proves properties of it:

- **Historical-volatility backtest** (`historical_volaility.py`). `atm_iv` keeps the
  at-the-money implied volatilities that parse as numbers and are dated on or after
  2024-07-18, then buckets them by the mean over `period` minutes.
  `vol_by_historical_volatility` filters the price-ratio log by the same date and sorts
  it by time. It then takes log returns, the rolling sample standard deviation over
  `6 * period` returns, annualised by `sqrt(365*24*60*6)` and expressed in percent. It
  drops rows without a value and buckets the rest like the IV. The grid loop scales the
  volatility buckets by each factor, inner-joins them with the IV buckets on the
  timestamp, and scores each cell by the mean squared error and its root.
- **Comparison script** (`compare_hv_with_atm_iv.py`). The same estimator with no date
  filter, in fractions rather than percent. It returns only `(Timestamp, hv_vol)`, and
  both series are bucketed at one minute.
- **Heston simulation** (`test.py`). Parameters are estimated from the log returns of
  the sorted price log. An explicit Euler recursion for price and variance follows, and
  the variance is reported in percent.
- **ATM option selection** (`get_atm_iv_ETH.py`). The options that expire tomorrow come
  from a scan with a half-open window and an early stop. The chosen option is the one
  whose strike lies nearest the index price, the first of equally near ones.
- **Pool price arithmetic** (`pair_2_uniswap_data.py`). This covers:
  - the Q64.96 square-root price conversion;
  - aligning the current tick to its range of spacing 60;
  - the three-way split of liquidity into token amounts;
  - the recorded ratio `1e12 / price`.

Modules follow the program's structure:

| module | file | content |
|---|---|---|
| `Wrappers` | wrappers.dfy | `Option` (NaN) and `Result` (a raised exception) |
| `RealMath` | real_math.dfy | `ln`, `exp` and `sqrt` as a parameter `Analytic` with the laws the proofs use |
| `Statistics` | statistics.dfy | sum, mean, population and sample variance, scaling |
| `TimeSeries` | time_series.dfy | rows, sort by timestamp, date filter, numeric coercion |
| `Resampling` | resampling.dfy | `resample(width).mean()` on pandas' `start_day` grid |
| `Volatility` | volatility.dfy | log returns, rolling deviation, annualisation, `dropna` |
| `HistoricalVolatility` | historical_volatility.dfy | `atm_iv` and `vol_by_historical_volatility` |
| `CompareHv` | compare_hv.dfy | the comparison script's variant and its minute buckets |
| `Backtest` | backtest.dfy | inner join, MSE/RMSE, the period × factor grid loop |
| `Heston` | heston.dfy | `heston_model_simulation` |
| `AtmOptions` | atm_options.dfy | `get_tomorrows_instruments`, `get_atm_option_iv` |
| `UniswapPrice` | uniswap.dfy | `convert_sqrt_price_x96`, `calculate_reserves`, the recorded ratio |

Modelling choices:

- Numbers are exact reals.
- `ln`, `exp` and `sqrt` are fields of a value `m: Analytic`. The predicate `Lawful(m)`
  states what the proofs need: `sqrt` is a non-negative root of non-negative reals,
  `exp(0) = 1` and `ln(1) = 0`.
- NaN is `None`. A raised exception is an `Err`.
- Timestamps are integer seconds, cut from the microsecond timestamps the collectors write (see "## Left out"). 2024-07-18 is `1721260800`.
- pandas' default resample origin is the midnight of the first row's day.
- The normal draws of the simulation are an input stream `draws: nat -> real`, read in
  loop order.
- An empty frame resamples to an empty frame before pandas looks at the frequency. A zero or negative width on a non-empty frame is an error.
- A zero `period` gives a zero rolling window. pandas accepts it, every deviation is then NaN, and the volatility frame is empty.
- Tomorrow's bounds are parameters `start` and `end`.
- `1.0001 ** (tick / 2)` is a parameter `root`, assumed positive and strictly
  increasing.

## Model

| member | source | states |
|---|---|---|
| TimeSeries.SortByTime | historical_volaility.py:44 | the sorted frame is in time order and a permutation of the input |
| TimeSeries.SortKeepsSorted | historical_volaility.py:44 | sorting a frame that is already in time order changes nothing |
| TimeSeries.SortedRowIn | historical_volaility.py:44 | every row of the sorted frame is a row of the input |
| TimeSeries.Since | historical_volaility.py:41 | a row survives the date filter iff it is in the input and dated on or after the start date |
| TimeSeries.SinceKeepsLaterRows | historical_volaility.py:41 | on rows all dated on or after the start date, the filter is the identity |
| TimeSeries.Numeric | historical_volaility.py:24-27 | a row survives coercion and `dropna` iff its IV parsed as a number |
| TimeSeries.NumericSinceCommute | historical_volaility.py:21-27 | filtering by date and then dropping unparsable IVs is dropping them and then filtering |
| HistoricalVolatility.AtmIvRows | historical_volaility.py:21-27 | the IV rows kept are exactly the parsed ones dated on or after 2024-07-18 |
| HistoricalVolatility.AtmIv | historical_volaility.py:14-32 | `atm_iv` fails iff `period` is not positive and some parsed IV row is dated on or after 2024-07-18; with no such row it succeeds whatever the period |
| Resampling.StartOfDay | historical_volaility.py:30 | the grid origin is a midnight, at most one day before the first row |
| Resampling.Resample | historical_volaility.py:30 | resampling fails iff the frame is non-empty and the width is not positive; an empty frame resamples to an empty one |
| Resampling.ResampleSpans | historical_volaility.py:30 | the buckets run from the first row's bucket to the last row's, both occupied, and cover every row |
| Resampling.ResampleGrid | historical_volaility.py:30 | bucket labels lie on the grid, rise by exactly one width per row, and no timestamp repeats |
| Resampling.ResampleDefinedIffOccupied | historical_volaility.py:30 | a bucket holds a number iff some row falls in it, and that number is the mean of the values of the rows in `[label, label + width)`, in row order; empty buckets stay as NaN rows |
| Resampling.BucketRows | historical_volaility.py:30 | the rows of a bucket are every row whose timestamp falls in it, each once, in row order |
| Resampling.MembersAreBucketRows | historical_volaility.py:30 | the values averaged for a bucket are the values of exactly those rows |
| Resampling.ResampleCoversRows | historical_volaility.py:30 | the output of a non-empty frame is non-empty, its first and last buckets hold a mean, and every row lands in a bucket that holds a mean |
| Resampling.GridCovers | historical_volaility.py:30 | between the first and the last edge, every instant falls in some bucket |
| Resampling.MeanOrNaN | historical_volaility.py:30 | a bucket's mean is defined iff it has members, and then the count times the mean is the members' sum |
| Resampling.ResampleScales | historical_volaility.py:80 | scaling every row by `k` and then resampling is resampling and then scaling every bucket mean by `k` |
| Statistics.PopulationVariance | test.py:27 | the population variance is non-negative |
| Statistics.SampleVariance | historical_volaility.py:53 | the sample variance is non-negative |
| Statistics.VarianceConventions | historical_volaility.py:53 | `n` times the population variance (`ddof = 0`) is `n - 1` times the sample variance (`ddof = 1`) |
| Statistics.ConstantSample | historical_volaility.py:53 | a constant sample has that mean and zero variance in both conventions |
| Statistics.MeanScales | historical_volaility.py:80 | the mean of a scaled sample is the scaled mean |
| Statistics.SumNonNegative | historical_volaility.py:84 | a sum of non-negative terms is non-negative, and zero iff every term is zero |
| Volatility.RollingDefinedRows | historical_volaility.py:53 | with returns from row 1 on, row `i` has a rolling deviation iff `2 <= w <= i` |
| Volatility.RollingNonNegative | historical_volaility.py:53 | every rolling deviation is non-negative |
| Volatility.RollingOfZeros | historical_volaility.py:53 | a window of zero returns has zero deviation |
| Volatility.PositivePricesGiveReturns | historical_volaility.py:47 | with positive prices, every row but the first has a log return |
| Volatility.ConstantPricesGiveZeroReturns | historical_volaility.py:47 | a constant price has a zero log return on every row but the first |
| Volatility.AnnualFactorPositive | historical_volaility.py:56-57 | the annualising factor `sqrt(365*24*60*6)` is positive |
| Volatility.HvColumn | historical_volaility.py:50-53 | the estimator fails iff the window is negative, as `rolling` rejects it, and otherwise has one entry per row |
| Volatility.WindowOfReturns | historical_volaility.py:47-53 | with positive prices, the window ending at row `i` holds the `w` log returns `ln(p[j] / p[j-1])` for `j = i-w+1 .. i` |
| Volatility.HvValue | historical_volaility.py:47-57 | with positive prices and `2 <= w <= i`, row `i` is the `ddof = 1` deviation of the `w` log returns ending at row `i`, times `sqrt(3153600)` |
| Volatility.DefinedFrom | historical_volaility.py:60 | `dropna` on a column that is NaN exactly before row `w` keeps rows `w, w+1, ...` in order |
| Volatility.PercentRowsValue | historical_volaility.py:47-60 | with positive prices, the percent frame after `dropna` is rows `w..n-1` in order, each 100 times its annualised deviation; at most `w` rows leave none |
| Volatility.HvNonNegative | historical_volaility.py:53-57 | every annualised volatility is non-negative |
| Volatility.HvDefinedRows | historical_volaility.py:47-60 | with positive prices and `2 <= w`, row `i` keeps a volatility iff `w <= i`, so `n - w` rows survive |
| Volatility.HvOfConstant | historical_volaility.py:47-57 | a constant positive price has zero volatility on every row that has one |
| Volatility.Defined | historical_volaility.py:60 | `dropna` keeps exactly the rows whose column holds a number, as many as there are numbers |
| Volatility.DefinedKeepsOrder | historical_volaility.py:60 | the rows `dropna` keeps stay in time order |
| Volatility.DefinedScales | compare_hv_with_atm_iv.py:41-42 | scaling before `dropna` is scaling the surviving rows after it |
| Volatility.CountAfterThreshold | historical_volaility.py:60 | a column that is NaN on exactly its first `w` rows keeps `n - w` rows |
| HistoricalVolatility.HvRows | historical_volaility.py:35-60 | the volatility frame fails iff the window `6 * period` is negative |
| HistoricalVolatility.VolByHistoricalVolatility | historical_volaility.py:35-65 | `vol_by_historical_volatility` fails iff `period` is negative; `period = 0` gives an empty frame |
| HistoricalVolatility.HvRowsOfZeroPeriod | historical_volaility.py:50-60 | a zero window leaves every deviation NaN, so `dropna` keeps no row |
| HistoricalVolatility.HvRowsValue | historical_volaility.py:41-60 | with positive dated prices and `2 <= w = 6 * period`, the frame is the sorted dated rows from row `w` on, in order, each carrying `100 * std(w log returns) * sqrt(3153600)` |
| HistoricalVolatility.DatedPricesPositive | historical_volaility.py:41-44 | filtering by date and sorting keep the dated prices positive |
| HistoricalVolatility.HvRowsFacts | historical_volaility.py:41-60 | kept rows are dated on or after the start date, in time order, stamped by price rows, and non-negative |
| HistoricalVolatility.HvRowCount | historical_volaility.py:41-60 | with positive prices, `n` dated rows leave `n - 6 * period` volatility rows |
| HistoricalVolatility.HvOfConstantPrice | historical_volaility.py:41-60 | a constant positive price gives zero volatility on every kept row |
| CompareHv.HvFractionRows | compare_hv_with_atm_iv.py:33-43 | the comparison variant fails iff the window is negative |
| CompareHv.MinuteHv | compare_hv_with_atm_iv.py:57-60 | the minute buckets of a volatility series fail iff `period` is negative |
| CompareHv.PercentIsHundredTimesFraction | compare_hv_with_atm_iv.py:33-43 | on rows dated on or after 2024-07-18, the backtest's percentages are exactly 100 times the comparison's fractions |
| CompareHv.MinuteBucketsScale | compare_hv_with_atm_iv.py:57-60 | so their one-minute buckets differ by the same factor of 100 |
| CompareHv.FractionRowCount | compare_hv_with_atm_iv.py:33-43 | with no date filter, every row takes part: `n` positive prices leave `n - 6 * period` rows |
| CompareHv.MinuteIvCoversRows | compare_hv_with_atm_iv.py:14-26 | every parsed IV row lands in a one-minute bucket that holds a mean |
| Backtest.InnerJoin | historical_volaility.py:83 | a merged row exists iff both frames hold a row with that timestamp, and it carries both values |
| Backtest.Matches | historical_volaility.py:83 | the matches of one row are the rows of the other frame with its timestamp |
| Backtest.StampedRows | historical_volaility.py:83 | the rows of a frame carrying a given timestamp are listed each once, in row order |
| Backtest.MatchesInOrder | historical_volaility.py:83 | the matches of one row are the other frame's rows with its timestamp, each once and in that frame's order |
| Backtest.MatchesAtMostOnce | historical_volaility.py:83 | against a frame with increasing timestamps, a row has at most one match |
| Backtest.JoinIncreasing | historical_volaility.py:83 | joining two frames with increasing timestamps gives every common timestamp exactly once, in time order |
| Resampling.ResampleIncreasing | historical_volaility.py:63 | every resampled frame has strictly increasing bucket labels |
| Backtest.CellJoinIncreasing | historical_volaility.py:75-83 | each cell's merged frame, built from the two resampled series, holds every common timestamp exactly once, in time order |
| Backtest.MeanSquaredError | historical_volaility.py:84-85 | scoring fails iff the join is empty or holds a NaN; otherwise the row count times the MSE is the sum of the squared differences, and the RMSE is the square root of the MSE |
| Backtest.ScoreLaws | historical_volaility.py:84-85 | the MSE is non-negative, and the RMSE is non-negative and squares to it |
| Backtest.ScoreZeroIffAgree | historical_volaility.py:84 | the MSE is zero iff the adjusted volatility and the IV agree on every merged row |
| Backtest.ScoreRow | historical_volaility.py:78-85 | the factor loop of one lookback scores every factor in order, or returns the first failing cell's error |
| Backtest.EvaluatePeriod | historical_volaility.py:74-85 | one lookback succeeds iff its series and all its cells score, each cell equal to the same cell computed alone |
| Backtest.GridPrefixAll | historical_volaility.py:74-85 | the rows built so far are the rows of the lookbacks seen so far |
| Backtest.EvaluateGrid | historical_volaility.py:67-85 | the grid succeeds iff every cell scores, giving one row per lookback and one cell per factor; otherwise it stops at the first failure |
| Heston.FrameEstimate | test.py:21-33 | the estimate fails iff no row has a return; otherwise `V0 >= 0`, `theta = V0`, `kappa = 2`, `sigma = 0.1`, `rho = -0.7` |
| Heston.EstimateParameters | test.py:36-44 | the estimate on the sorted frame fails iff no row has a log return |
| Heston.FrameEstimateFromPositivePrices | test.py:26-41 | with positive prices `dropna` removes only the first row: `S0` is the last price, and `V0` and `mu` are over the returns of rows `1..n-1` |
| Heston.EstimateFromPositivePrices | test.py:36-44 | the same estimate taken after sorting by time: `S0` is the latest price |
| Heston.KeptAllDefined | test.py:41 | `dropna` on a column without NaN keeps every return and the last price |
| Heston.EstimateOfConstant | test.py:26-32 | a constant price estimates zero drift, zero variance and zero long-run variance |
| Heston.CorrelationWeightPositive | test.py:61 | the weight `sqrt(1 - rho^2)` of `Z2` is positive and squares to `0.51` |
| Heston.Step | test.py:60-63 | each new variance is an absolute value, so it is non-negative |
| Heston.Path | test.py:54-63 | the path has `N` points and starts at `(S0, V0)`; every variance after the first is non-negative, and all of them are once `V0` is |
| Heston.PathPrefix | test.py:57-63 | a point of the path depends only on the points before it |
| Heston.SqrtArgumentNonNegative | test.py:62-63 | every variance the recursion roots is non-negative, with a real root |
| Heston.PathOfZeroVariance | test.py:62-63 | zero drift and zero variance give a flat price and zero variance, whatever the draws |
| Heston.Linspace | test.py:53 | `N` times starting at 0; the last is the horizon when `N >= 2` |
| Heston.LinspaceEven | test.py:53 | the times are evenly spaced by `T / (N - 1)` |
| Heston.StepMismatch | test.py:50-53 | the grid reaches `T`, but `N - 1` steps of `T / N` fall short of `T` for any non-zero horizon |
| Heston.SimulatePath | test.py:54-63 | the loop computes the recursion's path |
| Heston.HestonSimulation | test.py:5-68 | fails iff no row has a return or `N <= 0` (the estimate's error first); otherwise the times are `linspace(0, T, N)`, and point `i` reports the path's price and 100 times its variance, the path stepping by `T / N` from the unscaled `V0` |
| Heston.ReportFacts | test.py:51-68 | three arrays of length `N`, times from 0 to `T`, the path starts at the estimate, and the variances are non-negative |
| Heston.ReportOfConstant | test.py:26-68 | for a constant price the reported price never moves and the variance stays zero, whatever the draws |
| AtmOptions.WindowFilter | get_atm_iv_ETH.py:75-76 | an instrument is kept iff it is listed and expires in `[start, end)` |
| AtmOptions.StopIndex | get_atm_iv_ETH.py:77-78 | the scan stops at the first instrument expiring at or after `end` |
| AtmOptions.TomorrowsInstruments | get_atm_iv_ETH.py:62-80 | the scan returns the window filter of the instruments before the stop |
| AtmOptions.TomorrowsFacts | get_atm_iv_ETH.py:71-78 | only instruments of the window, in list order, and none from the first late one on |
| AtmOptions.FilterIsSubsequence | get_atm_iv_ETH.py:73-76 | the filter keeps the survivors in list order |
| AtmOptions.SortedScanIsFilter | get_atm_iv_ETH.py:73-78 | on a list sorted by expiration, the early stop loses nothing |
| AtmOptions.AtmOption | get_atm_iv_ETH.py:83-85 | fails iff the list is empty; otherwise returns a nearest strike, the first of equally near ones |
| AtmOptions.AtmOfTomorrow | get_atm_iv_ETH.py:103-107 | there is no ATM option iff the scan finds none in the window; otherwise it is a listed option expiring tomorrow |
| UniswapPrice.ConvertSqrtPrice | pair_2_uniswap_data.py:9-11 | the price is non-negative |
| UniswapPrice.ConvertIsScaledSquare | pair_2_uniswap_data.py:9-11 | the price is `s^2 / 2^192`, and `s = 2^96` is a price of one |
| UniswapPrice.ConvertMonotone | pair_2_uniswap_data.py:9-11 | a larger root gives a larger price |
| UniswapPrice.LowerTick | pair_2_uniswap_data.py:18-22 | the range start is a multiple of 60, at most 59 ticks below the tick |
| UniswapPrice.LowerTickUnique | pair_2_uniswap_data.py:18-22 | it is the only such multiple: negative ticks round down |
| UniswapPrice.ReservesSides | pair_2_uniswap_data.py:29-44 | at or below the range `amount1 = 0`, at or above it `amount0 = 0`, and amounts are the raw ones over `1e8` and `1e18` |
| UniswapPrice.RawAmountsNonNegative | pair_2_uniswap_data.py:29-40 | with non-negative liquidity, both raw amounts are non-negative in every branch |
| UniswapPrice.ReservesNonNegative | pair_2_uniswap_data.py:13-46 | the reported reserves are non-negative for any tick and price |
| UniswapPrice.SplitContinuous | pair_2_uniswap_data.py:29-40 | the in-range formulas agree with the neighbouring branch at both bounds |
| UniswapPrice.InsideMonotone | pair_2_uniswap_data.py:33-36 | inside the range, a higher price lowers `amount0` and raises `amount1` |
| UniswapPrice.PriceAtTickNotAbove | pair_2_uniswap_data.py:21-40 | a price sitting at the current tick is never above the range chosen for it |
| UniswapPrice.RecordedRatio | pair_2_uniswap_data.py:217-219 | the recorded ratio fails (division by zero) iff the square-root price is zero |
| UniswapPrice.RecordedRatioInverts | pair_2_uniswap_data.py:217-219 | the ratio is positive, and the ratio times the price is `1e12` |
| UniswapPrice.RecordedRatioAntitone | pair_2_uniswap_data.py:217-219 | a higher pool price records a lower ratio |

## Left out

- Reading and writing CSV files, HTTP calls, web3 contract calls, polling loops, sleeping and retries are left out (`get_atm_iv_ETH.py:8-59,86-120`, `pair_2_uniswap_data.py:48-230`). They are I/O, and the values they produce are the model's inputs.
- Plotting and printing in every script are left out. They produce no value the model uses.
- The random generator (`np.random.seed(42)`, `np.random.normal`) is left out. The draws are the input `draws`, so the model states the simulation for every draw sequence, the seeded one included.
- The wall clock (`datetime.now()`, local midnight, daylight saving) that fixes tomorrow's bounds is left out. The bounds are the parameters `start` and `end`.
- Floating-point rounding is left out: every quantity is an exact real. This includes `sqrt_price_x96 / 2**96` and `math.floor(tick / 60)`. The latter is exact for every tick a pool can hold, so the model uses integer floor division.
- Heston.EstimateParameters: a zero or sign-changing price gives an infinite or NaN return in numpy, and `dropna` keeps the infinite one. The model drops both, because `LogReturn` collapses them into `None`. With positive prices the two agree.
- TimeSeries.SortByTime: timestamps are cut to whole seconds. The collectors stamp rows with `datetime.now().isoformat()` (`get_atm_iv_ETH.py:115`, `pair_2_uniswap_data.py:221`), which carries microseconds, and `pd.to_datetime` keeps them. Bucketing, the 2024-07-18 filter and the join on bucket labels are unaffected, because the origin, the widths and the start date are whole seconds. The sort is affected: rows within one second are ordered by input position rather than by their sub-second time (`historical_volaility.py:44`, `test.py:37`). So the log returns, the rolling volatility and the Heston estimate can differ from pandas' when two such rows arrive out of order.
- Heston.EstimateParameters: the same cut to whole seconds decides the order of rows that fall within one second, as for `TimeSeries.SortByTime` above.
- Volatility.HvColumn: the same collapse of infinite returns into NaN. This is weaker than a model of pandas: its running sums turn NaN at the first infinite return, so pandas reports NaN deviations from that row to the end of the column, while the model recovers `w` rows later.
- `test.py` sorts and rewrites the caller's frame in place (`test.py:36-41`). The model returns values and leaves the input unchanged. The `data.copy()` calls elsewhere are likewise implicit in value semantics.
- The `period` argument of `heston_model_simulation` is never read, so `HestonSimulation` does not take it.
- `T < 0` gives a negative `dt` whose square root is NaN in numpy. `RealMath.Lawful` constrains `sqrt` only on non-negative reals, so for `T < 0` the model's path is unconstrained rather than NaN.
- Sorting is modelled as a stable insertion sort. pandas' default quicksort is not stable, and the two agree whenever the whole-second timestamps of the model are distinct. Source timestamps that differ only below one second are equal in the model.
- The resample origin is pandas' default `start_day`, the midnight of the first row's day. Two series whose first rows fall on different days can therefore have different bucket grids, and the model keeps that behaviour.
- Any failing cell of the backtest grid ends the whole grid, because `mean_squared_error` raises and nothing catches it. This covers an empty join, or a NaN from an empty bucket in either series. The model follows the code here; it does not skip such cells.
- GARCH.py, EGARCH.py, Heston.py, optimze_lookback_period.py and the graph scripts are left out. Their estimators are foreign optimisers, and their remaining code repeats the modelled functions or only plots.
- The comment at `pair_2_uniswap_data.py:17` says the spacing is 3. The code uses 60, and the model follows the code.
