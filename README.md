# A verified model of a daily factor-backtest pipeline

The system is a small Python/pandas pipeline for daily stock data. A table holds one row per
stock (`code`) and trading day (`datetime`). The pipeline runs in this order:

- **Column checks.** It checks that columns are present and moves a timestamp index into a
  `datetime` column (`utils/data_utils.py`).
- **Factors.** It computes per-stock factors by grouping rows by `code` and transforming one
  column (`factors/`): the simple moving average `SMA_<window>`, and a two-day
  `moving_average`.
- **Factor processing.** It standardises factors within each stock (`<col>_z`, a z-score) and
  clips extreme values to the stock's own 1% and 99% quantiles (`signals/factor_processing.py`).
- **Signals.** It derives a trading `signal` per row: +1 when every z-score is positive, -1
  when every one is negative, 0 otherwise (`signals/signal_generation.py`).
- **Backtest.** In `backtest/engine.py` it sorts the rows and computes the per-stock daily
  `return`. It lags the signal by one day into a `position`, so a position never uses
  information from the day it applies to. From these it builds the equal-weight daily
  `portfolio_return` and the `equity` curve, the compounded capital.
- **Metrics.** It summarises the curve as total and annual return, annual volatility, Sharpe
  ratio and maximum drawdown (`metrics/metrics.py`).

How the model is built:

- **Tables.** A table is the value `Frames.Frame`: a header, an index (positional, or
  timestamps with an optional name) and rows. Each row is `Frames.Row`: a code, a day number
  and numeric cells, where `None` stands for NaN.
- **In-place and copying stages.** A stage that writes into the caller's table
  (`add_grouped_column`, `calculate_sma`, `calculate_moving_average`) is a method on the class
  `Frames.DataFrame` that `modifies` it. A stage that starts with `df.copy()` is a method that
  returns a fresh object and leaves its argument alone.
- **Method specifications.** Each method is specified by a function on table values, and the
  properties are proved as lemmas about that function.
- **Grouping.** `groupby("code")[c].transform(fn)` is `GroupBy.GroupTransform`. Its central
  facts are these: each group is transformed as a whole; no group affects another; and every
  row gets its own group's output at its own position in that group.
- **Exceptions.** pandas' exceptions are the `Failure` side of a `Result`, with the same
  KeyError or ValueError, raised in the same order as the source raises them.

## Model

| member | source | states |
|---|---|---|
| DataUtils.MissingMembers | utils/data_utils.py:21 | a column is reported missing exactly when it was requested and the table lacks it |
| DataUtils.MissingConcat | utils/data_utils.py:21 | the missing list keeps request order: the absentees of an earlier request come first |
| DataUtils.EnsureRequiredColumns | utils/data_utils.py:17-24 | fails exactly when some requested column is absent, with a KeyError listing exactly the missing ones; otherwise returns the table unchanged |
| DataUtils.ResetIndex | utils/data_utils.py:10-11 | a timestamp index becomes the first column (named after the index, else "index", else "level_0") and the index becomes positional; a name clash is a ValueError |
| DataUtils.EnsureDatetime | utils/data_utils.py:4-15 | on success the column is present, the rows are unchanged and the index is positional; a positional table is returned as is; fails exactly when the column is absent after the reset, with KeyError([col]) unless reset_index refused |
| DataUtils.NoDatetimeFails | utils/data_utils.py:10-13 | with no datetime column and no timestamp index named "datetime", the call always fails |
| DataUtils.UnnamedIndexFails | utils/data_utils.py:10-13 | an unnamed timestamp index turns into "index", which does not meet a request for "datetime" |
| DataUtils.EnsureDatetimeColumn | utils/data_utils.py:4-15 | works on a fresh copy whose value is EnsureDatetime's result; the error is EnsureDatetime's error |
| Frames.Assign | factors/base.py:8 | `df[c] = vals` writes column c and nothing else: same rows, codes, dates and index; the header gains c at the end if it is new |
| Frames.AssignTwice | backtest/engine.py:73-74 | writing `equity` and then overwriting it leaves only the second write |
| Frames.SortRows | backtest/engine.py:16 | the sorted rows are a permutation of the input, ascending by (code, datetime) |
| Frames.FoldFails | signals/factor_processing.py:12-14 | an exception in any pass of the column loop is the exception of the whole loop |
| Frames.DataFrame.SetColumn | factors/base.py:8 | the object's new value is Assign of its old value |
| Frames.DataFrame.SortValues | backtest/engine.py:16 | the object's rows are replaced by SortRows of its old rows; header and index unchanged |
| GroupBy.GroupTransformAt | factors/base.py:8 | each row's transformed value is fn of its own code's group at the row's position in that group |
| GroupBy.GroupTransformGroup | factors/base.py:8 | written back and read group by group, the transform of column c is fn of that group of c |
| GroupBy.TransformSelect | factors/base.py:8 | read back group by group, transform's output is fn applied to that whole group |
| GroupBy.GroupIndependence | factors/base.py:8 | two tables whose group `key` holds the same values give the same transformed group `key` |
| GroupBy.GroupHistory | backtest/engine.py:19-22 | the part of a row's group up to and including the row is that group in the table cut after the row |
| GroupBy.FirstInGroup | backtest/engine.py:19-22 | a row opens its group (position 0) exactly when no earlier row has its code |
| FactorBase.AddGrouped | factors/base.py:4-9 | a KeyError for a missing `code`, then for a missing target; on success only `newCol` changes, with rows, codes, dates and index kept |
| FactorBase.AddGroupedAt | factors/base.py:8 | each row of the new column is fn of its own group, taken at the row's position in that group |
| FactorBase.AddGroupedGroup | factors/base.py:8 | group `key` of the new column is fn of group `key` of the target column |
| FactorBase.AddGroupedIndependent | factors/base.py:8 | the new column's group `key` depends only on the target column's group `key` |
| FactorBase.AddGroupedColumn | factors/base.py:4-9 | mutates `df` into AddGrouped's table and returns that same object; on failure `df` is unchanged |
| Interpolation.LerpBetween | signals/factor_processing.py:24-25 | a linear-interpolation quantile lies between the two sorted values it interpolates |
| Interpolation.LerpRange | signals/factor_processing.py:24-25 | on sorted values an interpolated quantile lies between the first and the last |
| Interpolation.LerpMonotone | signals/factor_processing.py:24-25 | on sorted values, a later quantile position never gives a smaller value |
| MovingAverage.WindowMean | factors/moving_average.py:10 | a rolling mean is defined only when the window is positive, fits before `i` and holds no missing value |
| MovingAverage.WindowMeanFull | factors/moving_average.py:10 | a full window is the sum of its `w` values over `w` when none is missing, else missing |
| MovingAverage.WindowMeanCausal | factors/moving_average.py:10 | the rolling mean at `i` is unaffected by anything after `i` |
| MovingAverage.SmaNames | factors/moving_average.py:9 | the column names are `SMA_5` and `SMA_20` for windows 5 and 20 |
| MovingAverage.Sma | factors/moving_average.py:5-10 | a KeyError exactly for a missing code or price column; a ValueError only for a negative window on a non-empty table; otherwise AddGrouped with the rolling mean into `SMA_<window>` |
| MovingAverage.SmaRow | factors/moving_average.py:10 | each row holds the rolling mean of its own code's prices at its place in that code |
| MovingAverage.SmaHead | factors/moving_average.py:10 | rows before the window-th row of their code carry no average |
| MovingAverage.SmaNoLookahead | factors/moving_average.py:10 | a row's average is fixed by its own code's prices up to and including that row |
| MovingAverage.CalculateSma | factors/moving_average.py:5-10 | mutates `df` into Sma's table and returns it; on failure `df` is unchanged |
| SimpleFactor.MovingAverageFrame | factors/simple_factor.py:2-4 | the errors of a rolling mean over `close`; for a non-negative window, the grouped rolling mean of `close` into `moving_average` |
| SimpleFactor.PairMean | factors/simple_factor.py:3 | a window of two is defined exactly when both values are present, and is then their average |
| SimpleFactor.PairRow | factors/simple_factor.py:3 | each row holds the two-value rolling mean of its code's closes at its place in that code |
| SimpleFactor.FirstRowMissing | factors/simple_factor.py:3 | the first row of each code has no moving average |
| SimpleFactor.NextRowPair | factors/simple_factor.py:3 | a row following a row of the same code gets the average of the two closes, and nothing if either close is missing |
| SimpleFactor.CalculateMovingAverage | factors/simple_factor.py:2-4 | mutates `df` into MovingAverageFrame's table and returns it; on failure `df` is unchanged |
| FactorProcessing.ZSign | signals/factor_processing.py:14 | with a positive deviation, a z value is positive, negative or zero exactly as the value is above, below or at the group mean |
| FactorProcessing.ZValue | signals/factor_processing.py:14 | a z value exists exactly when the value is present, the group has two or more values and the deviation is nonzero; then z times the deviation is the value minus the group mean |
| FactorProcessing.ZScoreUnitVariance | signals/factor_processing.py:14 | where the variance is positive and the square root exact, a group's z-scores have sample variance 1 |
| FactorProcessing.ZScoreCentred | signals/factor_processing.py:14 | where defined, a group's z-scores keep every present value and sum to zero |
| FactorProcessing.ZGroupStandardize | signals/factor_processing.py:14 | where defined, the z transform subtracts the group mean and divides by the sample deviation |
| FactorProcessing.ZScoreKeeps | signals/factor_processing.py:11-15 | the column loop keeps row order, codes, dates and index, and the values of every column that is not an added `c_z` one |
| FactorProcessing.ZScoreHeader | signals/factor_processing.py:12-14 | the returned header is the input header plus `c + "_z"` for each listed `c`, and nothing else |
| FactorProcessing.ZScoreGroup | signals/factor_processing.py:12-14 | for the `k`-th listed column, group by group, `cols[k]_z` is the z transform of that group of `cols[k]` as passed in, provided no earlier pass wrote `cols[k]` and no later pass rewrites `cols[k]_z` |
| FactorProcessing.ZScoreFrame | signals/factor_processing.py:11-15 | the loop fails only with KeyError for `code` or for a listed column the table lacks, and succeeds when all are present |
| FactorProcessing.ZScore | signals/factor_processing.py:4-15 | a fresh copy holding the column loop's result; the first failing pass gives the error |
| FactorProcessing.Quantile | signals/factor_processing.py:24-25 | a group has a quantile exactly when it has a present value, and the quantile lies between two of the group's present values |
| FactorProcessing.QuantileExtremes | signals/factor_processing.py:24-25 | the 0 quantile is the smallest present value and the 1 quantile the largest |
| FactorProcessing.QuantileMonotone | signals/factor_processing.py:24-25 | a lower level never gives a larger quantile, and both are defined together |
| FactorProcessing.Clip | signals/factor_processing.py:26 | a clipped value is present exactly when the value is |
| FactorProcessing.ClipInBounds | signals/factor_processing.py:26 | a clipped value lies within every bound that is present; with no bounds it is unchanged |
| FactorProcessing.ClipUnchanged | signals/factor_processing.py:26 | a value already within the bounds is kept |
| FactorProcessing.ClipMonotone | signals/factor_processing.py:26 | clipping keeps the order of values |
| FactorProcessing.ClipIdempotent | signals/factor_processing.py:26 | with fixed bounds, clipping twice is clipping once |
| FactorProcessing.ClipGroupLength | signals/factor_processing.py:23-26 | clip_group returns one value per value of the group, as transform needs |
| FactorProcessing.ClipGroupBounds | signals/factor_processing.py:23-26 | after clip_group, every present value lies between the group's quantiles, values already between them are kept, and missing stays missing |
| FactorProcessing.ClipGroupMonotone | signals/factor_processing.py:23-26 | clip_group keeps the order of a group's values |
| FactorProcessing.WinsorizeNotIdempotent | signals/factor_processing.py:23-27 | with the default levels, a second pass changes [0, 1, 2]'s already clipped first value from 0.02 to 0.0396, because the quantiles are recomputed |
| FactorProcessing.WinsorizeGroup | signals/factor_processing.py:22-27 | with levels in [0, 1], for each column listed once, group by group the column is clip_group of that group's values as passed in |
| FactorProcessing.WinsorizeKeeps | signals/factor_processing.py:21-28 | the header, index, row order, codes, dates and every unlisted column are kept |
| FactorProcessing.WinsorizeFrame | signals/factor_processing.py:17-28 | the loop fails only with KeyError for `code` or a listed column the table lacks, or with ValueError for a level outside [0, 1] on a table with rows; with levels in range and all columns present it succeeds |
| FactorProcessing.Winsorize | signals/factor_processing.py:17-28 | a fresh copy holding the column loop's result; the first failing pass gives the error |
| SignalGeneration.AllSigned | signals/signal_generation.py:14-17 | true only if every listed column exists and has the sign; with all columns present, true exactly when every value has the sign; a failure is KeyError of an absent listed column |
| SignalGeneration.SignalRow | signals/signal_generation.py:12-21 | a signal is -1, 0 or 1; any rule other than all_positive gives 0; a failure names an absent listed column |
| SignalGeneration.SignalCases | signals/signal_generation.py:13-19 | with all columns present: 1 exactly when all are positive, -1 exactly when all are negative (and there is one), 0 exactly when neither holds |
| SignalGeneration.MissingGivesZero | signals/signal_generation.py:14-19 | a missing value in a listed column gives signal 0 |
| SignalGeneration.NoColumnsGivesOne | signals/signal_generation.py:14-15 | with no listed column the signal is 1 |
| SignalGeneration.SignalExamples | signals/signal_generation.py:12-19 | z-scores (0.5, -0.1) give 0 and (0.5, 0.2) give 1 |
| SignalGeneration.SignalRowLocal | signals/signal_generation.py:12-21 | a row's signal depends only on the row's listed cells |
| SignalGeneration.SignalsAt | signals/signal_generation.py:22 | apply succeeds exactly when every row does, and entry `i` is the rule on row `i` |
| SignalGeneration.SignalsFail | signals/signal_generation.py:22 | a failure of apply is KeyError of a listed column the table lacks |
| SignalGeneration.SignalsDefined | signals/signal_generation.py:22 | with every listed column present, apply never fails |
| SignalGeneration.SignalFrame | signals/signal_generation.py:11-23 | a failure names a listed column the table lacks |
| SignalGeneration.SignalColumn | signals/signal_generation.py:22 | `signal` holds the rule's -1, 0 or 1 for each row; every other column is unchanged |
| SignalGeneration.UnknownRuleZero | signals/signal_generation.py:20-21 | any other rule marks every row 0 and never fails |
| SignalGeneration.GenerateSimpleSignal | signals/signal_generation.py:4-23 | a fresh copy holding SignalFrame's table, or SignalFrame's error |
| Engine.Prepare | backtest/engine.py:5-24 | ensure_datetime_column's error comes first, then KeyError for a missing code, close or signal in that order; on success the header gains `return` and `position`, the index is positional and the row count is kept |
| Engine.PrepareRows | backtest/engine.py:16-22 | the output is the input sorted by (code, datetime), a permutation, with only `return` (grouped pct_change of close) and `position` (grouped shift-and-fill of signal) added |
| Engine.PrepareSorted | backtest/engine.py:16 | the prepared rows are ascending by (code, datetime) |
| Engine.PctChangeSteps | backtest/engine.py:19 | within a group: no return at the first row, then each close against the one before |
| Engine.LagFillSteps | backtest/engine.py:22 | within a group: position 0 at the first row, then the previous signal, a missing one read as 0 |
| Engine.ReturnRows | backtest/engine.py:19 | the first row of a code has no return; a row after a row of the same code gets close/previous close - 1 |
| Engine.PositionRows | backtest/engine.py:22 | the first row of a code has position 0; a later row has the previous row's signal, or 0 if that is missing |
| Engine.PositionHistory | backtest/engine.py:22 | no lookahead: a row's position is fixed by the earlier signals of its code alone |
| Engine.PrepareReturnPosition | backtest/engine.py:16-22 | in the prepared table each row's return and position follow from the row before it, with none and 0 at the start of a code |
| Engine.PrepareNeedsDatetime | backtest/engine.py:13 | with no datetime column and no index that becomes one, preparation fails, with KeyError(["datetime"]) when no name clashes |
| Engine.PrepareBacktestData | backtest/engine.py:5-24 | a fresh copy holding Prepare's table, or Prepare's error |
| Engine.OnDateMembers | backtest/engine.py:42 | a date's group is the in-order subsequence of the values of the rows with that date: its `k`-th value is that of the `k`-th row so dated |
| Engine.OnDateDefined | backtest/engine.py:42-43 | a date's group has a present value exactly when some row of that date has one |
| Engine.DailyMean | backtest/engine.py:42-43 | a date's mean is defined exactly when some row of that date holds a present value |
| Engine.DailyMeanExample | backtest/engine.py:39-46 | strategy returns of 2% and -1% on one day give a portfolio return of 0.5% |
| Engine.DedupSorted | backtest/engine.py:42-45 | the distinct dates of ascending dates are strictly ascending and are the same set |
| Engine.Portfolio | backtest/engine.py:41-49 | header `portfolio_return`, timestamp index named "datetime", strictly ascending dates that are exactly the input's dates, each holding that date's mean |
| Engine.DatesOrdered | backtest/engine.py:42-45 | the portfolio's dates are strictly ascending and are exactly the dates of the input rows |
| Engine.StrategyReturn | backtest/engine.py:26-53 | ensure_datetime_column's error first, then KeyError for position, then for return, then ValueError for an unknown rule; nothing else fails |
| Engine.PortfolioRows | backtest/engine.py:37-49 | one row per distinct date, ascending, under a timestamp index named "datetime", each holding the mean of that date's present position*return values |
| Engine.UnknownRuleRefused | backtest/engine.py:50-51 | a rule other than equal_weight is a ValueError once the columns are present |
| Engine.CalculateStrategyReturn | backtest/engine.py:26-53 | a fresh table holding StrategyReturn's result, or its error |
| Engine.Indexed | backtest/engine.py:65-69 | a datetime column becomes the timestamp index and leaves the header; a positional index becomes timestamps 0, 1, ...; a timestamp index is kept |
| Engine.SortByDate | backtest/engine.py:70 | a permutation of the rows, ascending by timestamp |
| Engine.GrowthAt | backtest/engine.py:73 | the running product at `t` is present exactly when the return is, and is then the product of (1 + r) up to `t` |
| Engine.CompoundProduct | backtest/engine.py:73 | the running cumprod equals the product of (1 + r) over the present returns so far |
| Engine.EquityStep | backtest/engine.py:73 | each present return multiplies the previous equity by 1 + r |
| Engine.GrowthExample | backtest/engine.py:73 | returns of 1%, -2% and 3% compound to 1.01, 0.9898 and 1.019494 |
| Engine.EquityFrame | backtest/engine.py:55-75 | KeyError exactly when `portfolio_return` is absent after indexing; on success the index holds timestamps and the header gains `equity` |
| Engine.EquityRows | backtest/engine.py:63-75 | the equity table is a permutation of the indexed rows, ascending by timestamp, with only `equity` added |
| Engine.ScaledGrowthAt | backtest/engine.py:73-74 | equity at `t` is present exactly when the return is, and then is capital times the product of (1 + r) up to `t` |
| Engine.EquityColumn | backtest/engine.py:72-74 | the `equity` column is the capital-scaled running product of the sorted returns |
| Engine.ScaledColumnAt | backtest/engine.py:73-74 | read row by row, such a column holds capital times the product up to `t` at each present return, and nothing at a missing one |
| Engine.CalculateEquityCurve | backtest/engine.py:55-75 | a fresh table holding EquityFrame's result, or its error |
| Metrics.DropNa | metrics/metrics.py:11 | dropna keeps exactly the present values, in order |
| Metrics.DropNaInOrder | metrics/metrics.py:11 | dropna is the in-order subsequence of the entries holding a value, index labels included |
| Metrics.DropNaKeeps | metrics/metrics.py:11 | every kept entry, index label included, is an entry of the series |
| Metrics.TotalReturn | metrics/metrics.py:7-18 | 0 with no present value or a zero start; otherwise last over first present value, minus 1 |
| Metrics.TotalReturnGrowth | metrics/metrics.py:7-18 | the start grown by the total return is the end |
| Metrics.TotalReturnScale | metrics/metrics.py:7-18 | scaling the capital by any nonzero factor leaves the total return unchanged |
| Metrics.AnnualReturn | metrics/metrics.py:20-45 | 0 below two present values or for a zero start; dated: 0 when no time elapses, else the growth to the power 365.25/days, minus 1; undated: the growth to the power 252/n, minus 1 |
| Metrics.OneTradingYear | metrics/metrics.py:42-45 | without a calendar, 252 values make one year: annual return equals total return |
| Metrics.FourCalendarYears | metrics/metrics.py:34-39 | over 1461 days the exponent is 0.25 |
| Metrics.EmptyEquity | metrics/metrics.py:7-27 | with no present value, total and annual returns are 0 |
| Metrics.AnnualVolatility | metrics/metrics.py:47-51 | missing exactly below two present returns; otherwise the sample deviation times sqrt(252) |
| Metrics.VolatilityNonnegative | metrics/metrics.py:47-51 | with a nonnegative square root, the volatility is never negative |
| Stats.ShiftStats | metrics/metrics.py:60 | subtracting the per-period risk-free rate moves the mean by that amount and leaves the variance unchanged |
| Metrics.Sharpe | metrics/metrics.py:53-66 | missing exactly below two present returns; exactly 0 when the deviation is 0; otherwise the mean excess return over the deviation, times sqrt(252) |
| Metrics.SharpeGuardIsVolatility | metrics/metrics.py:53-66 | when the volatility is 0, the Sharpe ratio is 0 whatever the risk-free rate |
| Metrics.SharpeConstant | metrics/metrics.py:62-65 | a constant return series has a Sharpe ratio of 0 |
| Metrics.SharpeSign | metrics/metrics.py:60-63 | a defined nonzero Sharpe ratio is positive exactly when the mean return beats the per-period risk-free rate |
| Metrics.Peak | metrics/metrics.py:72 | the running peak is missing only when every value is; otherwise it bounds every present value and is attained |
| Metrics.Trough | metrics/metrics.py:74 | `min()` skips NaN: missing only when every value is; otherwise it bounds every present value from below and is attained |
| Metrics.CumMaxAt | metrics/metrics.py:72 | the running peak at `t` is present exactly when the value is, bounds it from above and is attained at or before `t` |
| Metrics.DrawdownAt | metrics/metrics.py:73 | a drawdown is defined exactly when the value is present and its peak is nonzero; then (drawdown + 1) times the peak is the value |
| Metrics.MaxDrawdown | metrics/metrics.py:68-74 | defined exactly when some drawdown is; then it is one of the drawdowns and no greater than any defined one |
| Metrics.DrawdownBounds | metrics/metrics.py:73 | on a positive curve every drawdown is defined and lies in (-1, 0] |
| Metrics.MaxDrawdownRange | metrics/metrics.py:68-74 | a nonempty positive curve has a maximum drawdown in (-1, 0] |
| Metrics.NeverFalls | metrics/metrics.py:68-74 | a positive curve that never falls has a maximum drawdown of 0 |
| Metrics.MaxDrawdownExample | metrics/metrics.py:68-74 | the curve 1.0, 1.2, 0.9, 1.1 has a maximum drawdown of -0.25 |
| Metrics.CalculateMetrics | metrics/metrics.py:76-92 | one record labelled "Strategy" holding the five figures, each under its own label, with total and annual return always defined |

## Left out

- The loaders, the example scripts, plotting and all file I/O are not part of this model. The
  model starts from tables already in memory.
- Floating point is modelled as exact reals. Rounding, overflow to `inf` and NaN propagation
  inside arithmetic are not modelled.
- `np.sqrt` and the float `**` are not available as Dafny functions. They are parameters
  (`sqrt`, `pow`), and a lemma states what it needs of them in its `requires`.
- `pd.to_datetime` is the identity. Timestamps are whole day numbers, and `.days` of the
  difference of two timestamps is their difference.
- Only numeric columns are modelled, apart from `code` and `datetime`. Grouping is always by
  `code`: the `group_col` / `code_col` parameters are fixed to the value every caller passes.
- A table cannot carry a timestamp index and a `datetime` column at once with different
  contents. A row's `datetime` field holds whichever of the two the table has.
- `pct_change` pads missing prices forward by default; the model does not. A missing price
  gives a missing return. A zero previous close gives a missing return where pandas gives
  `inf`.
- `sort_index` at backtest/engine.py:70 uses pandas' default quicksort, which is not stable.
  The model sorts stably, so rows that share a timestamp may come out in another order. The
  multi-key `sort_values` at backtest/engine.py:16 is stable in pandas, as in the model, and
  the `sort_index` at backtest/engine.py:45 orders keys `groupby` has already made distinct.
- Engine.Prepare: after the in-place `sort_values`, pandas keeps each row's old integer label,
  so the index holds the old positions in sorted order. The model's index has no row labels
  and states it as positional, which matches pandas only when the input was already sorted.
- Metrics.MaxDrawdown: a drawdown with a zero running peak counts as missing, whereas pandas
  gives `inf` or NaN.
- Metrics.AnnualReturn: when the growth ratio is negative, Python's `**` with a fractional
  exponent returns a complex number. Here it is whatever `pow` returns.
- Standard deviations are pandas' sample deviation (n - 1). The converse "variance 0 implies a
  constant series" is not proved. Only "constant implies variance 0" is proved
  (Stats.ConstantStats, Metrics.SharpeConstant).
- SignalGeneration.GenerateSimpleSignal: on a table with no rows, pandas' `apply` returns an
  empty frame rather than an empty column. The model writes an empty `signal` column.
- FactorProcessing.ZScoreUnitVariance: holds for a square root that is exact on the group's
  variance. A floating-point `std` is rounded, so its z-scores have variance 1 only up to
  rounding.
- Engine.EquityColumn: the equity is stated for the whole column and for each row
  (Engine.ScaledColumnAt). It is not stated inside the table lemma for each row.
- DataUtils.Missing: its own contract bounds only the length. Its meaning is stated by
  DataUtils.MissingMembers and DataUtils.MissingConcat.

## Notes on behaviour

- Any signal rule other than `all_positive` gives 0 for every row and raises nothing
  (`signals/signal_generation.py:20-21`, SignalGeneration.UnknownRuleZero).
- Returns of 1%, -2% and 3% compound to 1.01, 0.9898 and 1.019494 (Engine.GrowthExample).
- Winsorizing is not idempotent: each pass recomputes the quantiles from the clipped values
  (FactorProcessing.WinsorizeNotIdempotent). Clipping with fixed bounds is idempotent
  (FactorProcessing.ClipIdempotent).
