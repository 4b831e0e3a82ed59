# Verified model of the aibacktesting analytics core

This project models three pieces of the aibacktesting back-testing toolkit in Dafny and proves properties about them:

- `calculate_performance` (`src/utils/__init__.py`) turns a list of per-trade fractional returns, and optionally per-trade currency profits, into a report. The report covers:
  - cumulative return, win rate, and average win and average loss, in percent and in currency;
  - expected value per trade;
  - maximum drawdown;
  - profit factor, payoff ratio and risk-reward ratio, each with a `+inf` sentinel;
  - the longest win streak and the longest loss streak.
- `SimpleStrategy` (`src/strategies/__init__.py`) is a moving-average crossover strategy. From a column of closing prices it computes:
  - a short and a long trailing simple moving average;
  - a 0/1 signal, held at 0 before bar `short_window`;
  - a position column, which is the first difference of the signal.
- The trade-log pairing loop in `main` (`src/main.py`) pairs every `sell` record with the record just before it, when that record is a `buy`. For each pair it emits the profit and the return that feed `calculate_performance`.

Modules:

- `Wrappers`: the `Option` and `Result` types.
- `SeriesOps`: the pandas-Series operations the report is built from, as functions on `seq<real>`. The operations are:
  - sum, and the strictly-positive and strictly-negative filters;
  - mean;
  - product of `1 + r`;
  - `cumprod` (`Equity`), `cummax` (`RunningPeak`), and a NaN-skipping `min` (`MinPresent`).
- `Performance`:
  - the report as a function, `PerformanceOf`;
  - the method `CalculatePerformance`, whose streak counters run in the imperative loop `ScanStreaks`;
  - lemmas that state what each figure means.
- `Strategies`:
  - the strategy value and its default windows;
  - rolling means over `seq<Option<real>>`, where `None` stands for NaN;
  - the signal: written in place into an array by `FillSignal`, and specified by `Signals`;
  - positions, and the output frame produced by `Execute`.
- `TradeLog`:
  - the pairing loop, as the method `ExtractTradeReturns`;
  - its specification, `Extraction`;
  - lemmas that tie the emitted lists to the round trips of the log and to the report.

Real arithmetic stands in for floating point. A pandas NaN is `None`. The `float('inf')` sentinel is the `PosInf` case of `Performance.Ratio`.

An empty return list makes `252 / len(returns)` raise a division by zero. The model returns `Failure(EmptyReturns)` in that case rather than demanding a non-empty list.

The strategy's defaults follow the code, which uses 50 and 300. The class comment says 5 and 20.

## Model

| member | source | states |
|---|---|---|
| `Performance.CumulativeReturn` | src/utils/__init__.py:95 | the cumulative return exceeds -1 when every return exceeds -1, and is non-negative when no return is negative |
| `Performance.CumulativeReturnIsFinalEquity` | src/utils/__init__.py:95 | the cumulative return is the last point of the compounded equity curve minus one |
| `Performance.CumulativeReturnCompounds` | src/utils/__init__.py:95 | the cumulative returns of two consecutive runs of trades compound multiplicatively |
| `Performance.WinRate` | src/utils/__init__.py:100-103 | the win rate is in [0, 1], times `n` it is the number of strictly positive returns, it is 0 exactly when no return is positive, and it is 1 exactly when every return is positive |
| `Performance.AverageOf` | src/utils/__init__.py:101-105 | an average win or loss is 0 exactly when the side has no member; otherwise it has the side's sign (positive for wins, negative for losses) |
| `Performance.AverageWithin` | src/utils/__init__.py:104-105 | an average of a non-empty side lies between any bounds on that side's members |
| `Performance.ExpectedValue` | src/utils/__init__.py:106 | the expected value is the average win when every trade wins and the average loss when none wins |
| `Performance.ExpectedValueBetween` | src/utils/__init__.py:106 | for a win rate in [0, 1], the expected value lies between the average loss and the average win |
| `Performance.Drawdowns` | src/utils/__init__.py:121-123 | one point per trade, taken from the equity curve and its running peak at that index; a point is NaN only where the equity itself is 0, and the first point is 0 unless the first trade lost everything |
| `Performance.DrawdownPoint` | src/utils/__init__.py:123 | a point is NaN exactly at a zero peak; otherwise times the peak it is the equity minus the peak, and for a positive equity at or below its peak it lies in (-1, 0] |
| `Performance.MaxDrawdown` | src/utils/__init__.py:124 | the maximum drawdown of a non-empty list is never positive, is the NaN-skipping minimum of the drawdown points, and is NaN exactly when the first trade takes the equity to 0 |
| `Performance.ZeroPeakMeansZeroEquity` | src/utils/__init__.py:123 | a running peak of 0 means the equity is 0 too, so the point is 0/0 (NaN) and never -inf |
| `Performance.EquityPositive` | src/utils/__init__.py:121 | when every return exceeds -1, every point of the equity curve is positive |
| `Performance.MaxDrawdownBounded` | src/utils/__init__.py:121-124 | when every return exceeds -1, the maximum drawdown is defined and lies in (-1, 0] |
| `Performance.MaxDrawdownIsDeepestDecline` | src/utils/__init__.py:121-124 | when every return exceeds -1, the maximum drawdown is the smallest relative change from any earlier-or-equal equity point to a later one, and some pair attains it |
| `Performance.NoLossNoDrawdown` | src/utils/__init__.py:121-124 | with no negative return, the maximum drawdown is exactly 0 |
| `Performance.EquityRises` | src/utils/__init__.py:121 | with no negative return, the equity curve is positive and non-decreasing |
| `Performance.ProfitFactor` | src/utils/__init__.py:127-129 | the profit factor is `+inf` exactly when no return is negative; otherwise it is non-negative and times the gross loss it is the gross profit |
| `Performance.PayoffRatio` | src/utils/__init__.py:132 | the payoff ratio is `+inf` exactly when the average loss is 0; otherwise times the absolute average loss it is the average win |
| `Performance.RiskRewardRatio` | src/utils/__init__.py:135 | the risk-reward ratio is `+inf` exactly when the average loss is 0; otherwise times the absolute average loss it is the expected value, and it has the expected value's sign |
| `Performance.SharpeRatio` | src/utils/__init__.py:98 | the Sharpe ratio is 0 for zero volatility; otherwise times the volatility it is the annualized return |
| `Performance.TrailingRunCovers` | src/utils/__init__.py:142-151 | the counter is at least the length of every run of same-side returns that ends the prefix |
| `Performance.TrailingRunStops` | src/utils/__init__.py:142-151 | the return just before the counted run, when there is one, is not on the counter's side, so the counter stops exactly at the last break |
| `Performance.LongestRun` | src/utils/__init__.py:152-153 | a longest streak is at least the current streak and at most the number of returns |
| `Performance.TrailingRunIsRun` | src/utils/__init__.py:142-151 | the counter's value after a prefix is the length of a run of same-side returns that ends the prefix |
| `Performance.LongestRunAttained` | src/utils/__init__.py:152-153 | the longest streak is the length of some run of consecutive same-side returns |
| `Performance.LongestRunMaximal` | src/utils/__init__.py:152-153 | no run of consecutive same-side returns is longer than the longest streak |
| `Performance.LongestRunAtMostCount` | src/utils/__init__.py:138-153 | a longest streak is at most the number of that side's returns, hence at most `n`, and it is at least 1 exactly when the side has a member |
| `Performance.BreakSplitsStreaks` | src/utils/__init__.py:143-151 | a return that does not belong to a side cuts that side's streaks, so the longest streak is the larger of the longest streaks on either side of it |
| `Performance.ZeroResetsStreaks` | src/utils/__init__.py:149-151 | a zero return resets both the win streak and the loss streak |
| `Performance.ScanStreaks` | src/utils/__init__.py:138-153 | the counter loop ends with the longest win streak and the longest loss streak |
| `Performance.PerformanceOf` | src/utils/__init__.py:95-174 | the report is refused exactly for an empty list (the division by zero at line 96), and it counts one trade per return |
| `Performance.CalculatePerformance` | src/utils/__init__.py:88-174 | the method, with its streak loop, computes exactly the report `PerformanceOf` describes |
| `Performance.ReportRates` | src/utils/__init__.py:100-106 | in every report, the win rate is in [0, 1], the average win is >= 0, the average loss is <= 0, and the expected value lies between them |
| `Performance.ReportAmounts` | src/utils/__init__.py:109-118 | the three currency fields are absent exactly when no profits are given; when they are present, the averages have their signs, and the currency expected value is the return-based win rate applied to them, so it lies between them |
| `Performance.AmountsOf` | src/utils/__init__.py:109-114 | with profits, the currency averages are the averages of the winning and the losing profits, and the currency expected value weights them by the return-based win rate |
| `Performance.ReportRatios` | src/utils/__init__.py:127-135 | all three ratios are `+inf` exactly when no return is negative |
| `Performance.ReportStreaks` | src/utils/__init__.py:138-153 | each streak is at most its side's count, together they are at most `n`, the win streak is >= 1 exactly when the win rate is positive, and the loss streak is >= 1 exactly when the average loss is negative |
| `Performance.SelectDisjointSides` | src/utils/__init__.py:101-102 | together, wins and losses number at most `n`, because zero returns count in neither |
| `Performance.WorkedExample` | src/utils/__init__.py:155-174 | returns [0.1, -0.05, 0.2] with profits [1000, -500, 2000] give the following report: cumulative return 0.254, win rate 2/3, expected value 1/12 (2500/3 in currency), averages 0.15 / -0.05 (1500 / -500), maximum drawdown -0.05, profit factor 6, payoff ratio 3, risk-reward ratio 5/3, and streaks 1 and 1 |
| `SeriesOps.Select` | src/utils/__init__.py:101-102 | a filter keeps only members of its side and is no longer than its input |
| `SeriesOps.SelectMultiset` | src/utils/__init__.py:101-102 | a filter keeps every member of its side with its multiplicity and drops everything else |
| `SeriesOps.SelectAppend` | src/utils/__init__.py:101-102 | filtering distributes over concatenation, preserving order |
| `SeriesOps.SumAppend` | src/utils/__init__.py:127-128 | a sum splits over concatenation |
| `SeriesOps.SumBounds` | src/utils/__init__.py:127-128 | a sum of `n` terms between `lo` and `hi` lies between `n * lo` and `n * hi` |
| `SeriesOps.SumSign` | src/utils/__init__.py:127-128 | a sum of strictly positive (negative) terms is 0 exactly when there is none, and otherwise it is strictly positive (negative) |
| `SeriesOps.MeanOrZero` | src/utils/__init__.py:104-105 | the guarded mean of an empty series is 0; otherwise times the length it is the sum |
| `SeriesOps.MeanBounds` | src/utils/__init__.py:104-105 | a mean lies between any bounds on its members |
| `SeriesOps.GrowthProductAppend` | src/utils/__init__.py:95 | the product of `1 + r` splits over concatenation |
| `SeriesOps.GrowthProduct` | src/utils/__init__.py:95 | the product of `1 + r` is positive when every return exceeds -1, and at least 1 when no return is negative |
| `SeriesOps.Equity` | src/utils/__init__.py:121 | point `i` of `cumprod` is the product of `1 + r` over the first `i + 1` returns |
| `SeriesOps.ArgPeak` | src/utils/__init__.py:122 | the index of the greatest equity point so far |
| `SeriesOps.RunningPeak` | src/utils/__init__.py:122 | `cummax` is, at each index, the equity point at `ArgPeak` |
| `SeriesOps.RunningPeakIsMax` | src/utils/__init__.py:122 | the running peak at `i` bounds every earlier point and equals one of them |
| `SeriesOps.MinPresent` | src/utils/__init__.py:124 | the NaN-skipping minimum is NaN exactly when every point is NaN; otherwise it is one of the points and bounds all present points from below |
| `Strategies.NewStrategy` | src/strategies/__init__.py:12-15 | the constructor stores the data and the two windows, which default to 50 and 300 |
| `Strategies.RollingMean` | src/strategies/__init__.py:19-20 | the rolling mean at bar `i` is defined exactly when `1 <= w <= i + 1` and the whole window of closes is present; then times `w` it is the window's sum |
| `Strategies.RollingMeanWithin` | src/strategies/__init__.py:19-20 | a defined rolling mean lies between any bounds on the closes in its window |
| `Strategies.RollingMeanSlides` | src/strategies/__init__.py:19-20 | two consecutive defined rolling means differ by the entering close minus the leaving close, divided by `w` |
| `Strategies.Sma` | src/strategies/__init__.py:19-20 | one entry per bar; entry `i` is defined exactly when the window of `w >= 1` closes ending at `i` fits and has no NaN, and then times `w` it is the window's sum |
| `Strategies.Signals` | src/strategies/__init__.py:21-23 | the signal has one entry per bar, every entry is 0 or 1, it is 0 before bar `short_window`, and from there on it is 1 exactly when both averages are defined and the short one is above the long one |
| `Strategies.Above` | src/strategies/__init__.py:22 | the comparison is false when either average is NaN, false for equal averages, and never true in both directions |
| `Strategies.FillSignal` | src/strategies/__init__.py:21-23 | writing a zero column and then overwriting it from `short_window` on gives exactly `Signals` |
| `Strategies.Positions` | src/strategies/__init__.py:25 | NaN at bar 0, and from then on the signal's change since the last bar; over a 0/1 signal every later position is -1, 0 or 1, and nonzero exactly where the signal changes |
| `Strategies.PositionsAreTrades` | src/strategies/__init__.py:25-26 | for a 0/1 signal, each position is -1, 0 or 1; it is nonzero exactly where the signal changes, +1 exactly on a rise and -1 exactly on a fall |
| `Strategies.PositionsTelescope` | src/strategies/__init__.py:25 | the positions up to bar `i` add up to the signal's change since bar 0 |
| `Strategies.TradesAlternate` | src/strategies/__init__.py:25-26 | between two buys there is a sell, and between two sells there is a buy |
| `Strategies.FirstTradeIsBuy` | src/strategies/__init__.py:23-26 | for a signal that starts at 0, the first nonzero position is a buy |
| `Strategies.SignalOf` | src/strategies/__init__.py:21-23 | the strategy's signal column has one entry per bar |
| `Strategies.Frame` | src/strategies/__init__.py:17-27 | the output frame has one row per input bar, aligned with the input closes |
| `Strategies.Execute` | src/strategies/__init__.py:17-27 | `execute` produces exactly the frame `Frame` describes |
| `Strategies.FrameColumns` | src/strategies/__init__.py:19-27 | the columns of each row are that bar's short and long rolling means, its signal and its position |
| `Strategies.SignalRule` | src/strategies/__init__.py:21-23 | each row's signal is 0 or 1, is 0 before `short_window`, and from there on is 1 exactly when the short average is above the long one |
| `Strategies.SignalNeedsFullWindows` | src/strategies/__init__.py:19-23 | a signal of 1 needs `short_window <= i`, a full long window, and no missing close in either window |
| `Strategies.SignalStartsFlat` | src/strategies/__init__.py:21-23 | the first bar's signal is 0 |
| `Strategies.EqualWindowsNeverSignal` | src/strategies/__init__.py:19-25 | with equal windows the signal is always 0, and so is every position |
| `Strategies.FramePositions` | src/strategies/__init__.py:25-26 | each row's position is -1, 0 or 1, and it is nonzero exactly where the signal changes |
| `Strategies.HoldingIsNetPosition` | src/strategies/__init__.py:25-26 | the positions up to bar `i` add up to the signal at `i`, which is the holding |
| `Strategies.NoEarlyTrade` | src/strategies/__init__.py:23-25 | before `short_window` no trade happens, and a buy needs `short_window <= i` and a full long window |
| `Strategies.StrategySignalShape` | src/strategies/__init__.py:21-23 | the strategy's signal is 0/1 and starts at 0, so `FirstTradeIsBuy` and `TradesAlternate` apply to it |
| `Strategies.DefaultWindowsNoEarlyBuy` | src/strategies/__init__.py:12 | with the default windows, no buy happens before bar 299 |
| `TradeLog.ExitsExactly` | src/main.py:51-55 | the round-trip exits are the indices of the sell records directly preceded by a buy, all of them, in increasing order |
| `TradeLog.ClosesRoundTrip` | src/main.py:53-55 | the first record never closes a round trip (no wrap-around to the last record), a closing record differs in kind from its entry, and the record after a closing one cannot close a round trip on it |
| `TradeLog.RoundTripExits` | src/main.py:51-55 | there are no more round-trip exits than sell records |
| `TradeLog.Extraction` | src/main.py:48-61 | the returns list and the profits list always have equal length |
| `TradeLog.FailureSticks` | src/main.py:59 | once a prefix of the log raises, the whole log raises with the same error |
| `TradeLog.ExtractTradeReturns` | src/main.py:48-61 | the loop builds exactly the lists `Extraction` describes, or raises where it does |
| `TradeLog.ExtractionValues` | src/main.py:51-61 | the k-th pair comes from the k-th round trip: the profit is the exit price minus the entry price, and the return times the entry price is the profit |
| `TradeLog.FailureExactly` | src/main.py:59 | the loop raises exactly when some round trip has a zero entry price, and it reports the first such round trip |
| `TradeLog.PositivePricesNeverFail` | src/main.py:59 | with positive prices the loop never raises |
| `TradeLog.CountSells` | src/main.py:53 | there are no more sell records than records, and there are none exactly when no record is a sell |
| `TradeLog.AlternatingLogPairsEverySell` | src/main.py:51-61 | a log alternating buy, sell, ... pairs every sell, giving `len(log) / 2` pairs |
| `TradeLog.QuotientSign` | src/main.py:59 | dividing by a positive entry price keeps the sign of the profit |
| `TradeLog.SignsAgree` | src/main.py:58-59 | with positive prices, each return has the sign of its profit, so the return-based and profit-based counts of wins and of losses agree |
| `TradeLog.SameSignsSameCounts` | src/main.py:58-59 | two lists that agree in sign elementwise have equally many wins and equally many losses |
| `TradeLog.ReportOfLog` | src/main.py:64 | the report on the extracted lists is refused exactly when the log has no round trip, and otherwise it counts one trade per round trip |

## Left out

- The annualized return and the volatility (src/utils/__init__.py:96-97) are not computed. They need fractional powers, a square root and the pandas sample standard deviation, which is NaN for one trade. `SharpeRatio` is therefore a function of a given annualized return and volatility.
- Floating-point rounding, and NaN propagation beyond "missing", are not modelled. Arithmetic is exact over `real`.
- `print_performance` and all printing in `main` are left out, because they are output only.
- The `Backtester` simulator and the RSI and MACD strategies are not part of this model. Their source is not among the modelled files.
- CSV loading (`src/data/__init__.py`), the Yahoo Finance download script and the AI optimisation tool are left out. They are file, network and foreign-API I/O.
- The interactive symbol prompt and the path handling in `main` are left out, because they are I/O.
- `Strategies.RollingMean`: a window of 0 is always undefined, and negative windows are excluded by the `nat` type. pandas rejects negative windows with an error.
- `Strategies.FillSignal`: `df.loc[short_window:]` is taken as a positional slice, which holds for the RangeIndex a freshly loaded frame has. Other indexes are not modelled.
- `Strategies.Positions`: the NaN at bar 0 is `None`. The lemmas treat it as "no trade".
- `Strategies.StrategySignalShape`: `FirstTradeIsBuy` and `TradesAlternate` are proved for any 0/1 signal that starts at 0. This lemma shows that the strategy's signal is one, but their restatement over `Frame` is not written out.
- `Strategies.NewStrategy`: its contract only states that the constructor stores its arguments. That is all `__init__` does.
- `TradeLog.Extraction`: record types other than `buy` and `sell` are folded into `Kind.Other`. Only the two names matter to the loop.
- `TradeLog.Extraction`: a round trip with a zero entry price is modelled as the `ZeroDivisionError` that Python floats raise. The price type is fixed by the simulator, which is not part of this model. A NumPy price would give `inf` or NaN instead.
- `TradeLog.ExtractionValues`: the return is stated as `ret * entry == profit`, which is equivalent to `ret == profit / entry` for a nonzero entry.
- `TradeLog.RoundTripExits`: its contract bounds the exits by the sell records only from above. When every sell is paired is stated by `TradeLog.AlternatingLogPairsEverySell`.
