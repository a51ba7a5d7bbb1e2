# Pair-trading backtest, modelled in Dafny

The repository is a small web application that backtests a pair-trading
strategy on two stocks whose daily bars sit in a browser store. Two pages run
the same pipeline, each inline in its `runBacktest` handler:

- the dynamic-spread page (`pages/backtest-spread.tsx`) hedges stock A against
  stock B with a rolling least-squares hedge ratio and trades the spread
  `closeA - beta * closeB`;
- the price-ratio page (`pages/backtest.tsx`) trades the ratio `closeA / closeB`.

Both filter the two histories to an inclusive date range, pair the bars by
position up to the shorter length, score the signal with a rolling z-score,
and run a two-state trade loop. The loop is flat or holds one LONG or SHORT
trade. It opens on a crossing of the entry threshold and closes on the
reverse crossing of the exit threshold or after 15 days. A summary of the
recorded trades follows.

The model has these modules:

- `Bars`: bars and `filterByDate`.
- `HedgeRatio`: `calculateHedgeRatio`, as a loop proved against the
  least-squares slope of the window sums.
- `LeastSquares`: the hedge ratio, off its fallback, as the unique solution of
  the window's least-squares normal equations.
- `RollingZScore`: the trailing-window z-score loop. The score routine is a
  parameter.
- `Trades`: one trade loop shared by both pages, with a `Mode` that selects
  how profit and drawdown are computed. It is proved against a step function
  and its run.
- `TradeRules`: the rules every recorded trade satisfies, and the proof that
  the loop's trades are the only list of trades that satisfies them.
- `SpreadBacktest` and `RatioBacktest`: the two `runBacktest` pipelines, from
  the selected symbols and the stored histories to the table and the trades.
- `TradeSummary`: the summary statistics.
- `Wrappers` and `BacktestResult`: Option/Result and the run's outcome.

A missing z-score is an `Option` read with default 0, as the JavaScript
`|| 0` reads it (a NaN score is not modelled). A run that stops with an alert (no pair selected, no
stored data) is a `Failure`.

The time stop closes a trade at the first row whose date is at least 15 days
after entry. When dates skip (weekends, gaps) the trade can be held more than
15 days. `TradeRules.TradeOkFacts` states what holds: no row strictly between
entry and exit has reached 15 days.

## Model

| member | source | states |
|---|---|---|
| Bars.FilterByDate | pages/backtest-spread.tsx:44-46 | the filtered bars are no more than the input, each is in the inclusive date range and comes from the input; the ratio page does the same at pages/backtest.tsx:43-45 |
| Bars.FilterByDateAppend | pages/backtest-spread.tsx:44-46 | filtering a concatenation is the concatenation of the filtered parts, so the filter keeps the original order |
| Bars.FilterByDateSingle | pages/backtest-spread.tsx:44-46 | a single bar is kept exactly when `fromDate <= date <= toDate`; with the append law this determines the filter |
| Bars.FilterByDateKeeps | pages/backtest-spread.tsx:44-46 | every input bar whose date is in range appears in the result |
| Bars.FilterByDateAllInRange | pages/backtest.tsx:43-45 | when every bar is in range the filter returns the input unchanged |
| HedgeRatio.SlopeFromSums | pages/backtest-spread.tsx:66-69 | the slope of the four sums and the count; `LeastSquares.ResidualsSumToZero`, `LeastSquares.ResidualsOrthogonalToB` and `LeastSquares.NormalEquationsGiveHedgeRatio` state that off the fallback it is the least-squares slope of the window |
| HedgeRatio.HedgeRatioAt | pages/backtest-spread.tsx:48-70 | the ratio of the window ending at `i` is 1 when the window is empty (`w <= 0`); `HedgeRatio.HedgeRatioCases` states both cases |
| HedgeRatio.CalculateHedgeRatio | pages/backtest-spread.tsx:48-70 | the accumulating loop returns exactly the hedge ratio of the window `max(0, i-w+1)..i` |
| HedgeRatio.CountIsLength | pages/backtest-spread.tsx:58-63 | the loop's count is the number of indices it visits |
| HedgeRatio.WindowCount | pages/backtest-spread.tsx:49-50 | the window ending at `i` has `min(i+1, w)` bars, and none when `w <= 0` |
| HedgeRatio.HedgeRatioReadsOnlyWindow | pages/backtest-spread.tsx:49-64 | the ratio at `i` reads only bars `max(0, i-w+1)..i`: histories whose closes agree there give the same ratio |
| HedgeRatio.ConstantSums | pages/backtest-spread.tsx:59-62 | over a window of constant close `c`, `sumB = n*c` and `sumB2 = n*c*c` |
| HedgeRatio.ConstantBGivesOne | pages/backtest-spread.tsx:66-67 | when B is constant over the window the denominator is 0 and the ratio falls back to 1; this holds in exact arithmetic only (see Left out) |
| HedgeRatio.EqualSums | pages/backtest-spread.tsx:59-62 | equal closes give equal `sumA`/`sumB` and `sumAB`/`sumB2` |
| HedgeRatio.SelfSlope | pages/backtest-spread.tsx:67-69 | with A's sums equal to B's, the slope is 1 on both branches |
| HedgeRatio.HedgeRatioOfIdenticalPair | pages/backtest-spread.tsx:48-70 | a stock hedged against a stock with the same closes has ratio 1 |
| HedgeRatio.HedgeRatioCases | pages/backtest-spread.tsx:48-70 | the ratio is 1 for an empty window (`w <= 0`) or a zero denominator, and numerator over denominator otherwise |
| LeastSquares.ResidualsSumToZero | pages/backtest-spread.tsx:48-70 | off the fallback, with the intercept `(sumA - beta*sumB)/n`, the residuals `closeA_k - alpha - beta*closeB_k` over the window sum to 0 (first normal equation of the regression of A on B) |
| LeastSquares.ResidualsOrthogonalToB | pages/backtest-spread.tsx:48-70 | off the fallback, the same residuals weighted by `closeB_k` sum to 0 (second normal equation) |
| LeastSquares.NormalEquationsGiveHedgeRatio | pages/backtest-spread.tsx:48-70 | conversely, any line `alpha + beta*B` whose window residuals satisfy both normal equations has `beta` the hedge ratio and `alpha` its intercept: the ratio is the unique least-squares slope |
| RollingZScore.TrailingWindow | pages/backtest-spread.tsx:117 | the slice has `min(i+1, w)` values (none for `w <= 0`) and they are the values ending at `i`, in order |
| RollingZScore.Last | pages/backtest-spread.tsx:118 | `.pop()` yields a value exactly for a non-empty array, and that value is its last element |
| RollingZScore.ZScoresOf | pages/backtest-spread.tsx:115-119 | one optional score per value |
| RollingZScore.RollingZScores | pages/backtest-spread.tsx:115-119 | the loop yields, at every row, the last score of that row's trailing window; the ratio page does the same at pages/backtest.tsx:81-86 |
| RollingZScore.ZScoreReadsOnlyPast | pages/backtest-spread.tsx:117-118 | values that agree up to `i` give the same window and score at `i` |
| RollingZScore.WindowEndsAtRow | pages/backtest-spread.tsx:117 | with `w >= 1` the window is non-empty and ends with row `i`'s own value |
| SpreadBacktest.HedgeRatios | pages/backtest-spread.tsx:97-103 | the hedge-ratio list of the first `n` bars has `n` entries |
| SpreadBacktest.HedgeRatiosAt | pages/backtest-spread.tsx:100-103 | entry `i` of the list is the hedge ratio at bar `i` with the lookback |
| SpreadBacktest.HedgedSeries | pages/backtest-spread.tsx:105-111 | one spread point per hedge ratio |
| SpreadBacktest.HedgedSeriesAt | pages/backtest-spread.tsx:105-111 | point `i` pairs A[i] with B[i], takes A's date and has spread `closeA - beta_i * closeB` |
| SpreadBacktest.BuildSpreads | pages/backtest-spread.tsx:94-112 | the loop yields `min(len A, len B)` hedge ratios, each the ratio at its bar, and the matching spread points |
| SpreadBacktest.TableRows | pages/backtest-spread.tsx:121-128 | each spread point with its score, 0 when missing; `SpreadBacktest.SpreadRows` states every column |
| SpreadBacktest.SpreadRows | pages/backtest-spread.tsx:92-128 | the table has `min(len A, len B)` rows; row `i` has A[i]'s date, both closes, hedge ratio `beta_i`, spread `closeA - beta_i*closeB`, and z-score from spreads `max(0,i-lookback+1)..i` with 0 for a missing score |
| SpreadBacktest.SpreadRowsReadOnlyPast | pages/backtest-spread.tsx:96-128 | row `i` of the table (ratio, spread, score) depends on no bar after `i` |
| SpreadBacktest.SpreadOfIdenticalPair | pages/backtest-spread.tsx:100-111 | a stock paired with itself has hedge ratio 1 and spread 0 at every row |
| SpreadBacktest.RecordedProfitUsesExitHedge | pages/backtest-spread.tsx:164-179 | a recorded spread trade's profit is the exit spread hedged with the exit ratio less the entry spread hedged with the entry ratio: the entry-hedged profit plus `side*(beta_entry - beta_exit)*closeB_exit`, equal to it iff the ratio did not move or B's exit close is 0 |
| SpreadBacktest.EntryHedgedProfit | pages/backtest-spread.tsx:177 | the profit the comment describes, both spreads at the entry ratio: the side times (A's move less `beta_entry` times B's move), the gain of a fixed hedged position |
| SpreadBacktest.HedgeDriftChangesProfit | pages/backtest-spread.tsx:164-179 | a LONG whose hedge ratio moves from 1 to 1.5 records profit -2 where the entry-hedged profit is 1 |
| SpreadBacktest.RunSpreadBacktest | pages/backtest-spread.tsx:72-201 | no pair selected is `PairNotSelected`, missing data is `DataNotFound`, and otherwise the result is the table of the filtered histories and the trades of the loop over it |
| RatioBacktest.RatioSeries | pages/backtest.tsx:70-79 | `n` points; point `i` is A[i]'s date, both closes and `closeA/closeB` |
| RatioBacktest.BuildRatios | pages/backtest.tsx:69-79 | given non-zero closes of B on the paired bars, the loop yields `min(len A, len B)` points with ratio times closeB equal to closeA, exactly the ratio series |
| RatioBacktest.TableRows | pages/backtest.tsx:88-94 | each ratio point with its score, 0 when missing; `RatioBacktest.RatioRows` states every column |
| RatioBacktest.RatioRows | pages/backtest.tsx:67-94 | the table has `min(len A, len B)` rows; row `i` has A[i]'s date, both closes, ratio `closeA/closeB`, and z-score from ratios `max(0,i-49)..i` with 0 for a missing score |
| RatioBacktest.RatioRowsReadOnlyPast | pages/backtest.tsx:70-94 | row `i` of the table depends on no bar after `i` |
| RatioBacktest.RunRatioBacktest | pages/backtest.tsx:47-150 | given non-zero closes on the paired filtered bars: no pair selected is `PairNotSelected`, missing data is `DataNotFound`, and otherwise the result is the ratio table (with usable values) and the trades of the loop over it |
| Trades.EntrySignal | pages/backtest-spread.tsx:139-156 | LONG iff `prevZ > -entryZ && currZ <= -entryZ`; SHORT iff, failing that, `prevZ < entryZ && currZ >= entryZ`; the ratio page does the same at pages/backtest.tsx:105-110 |
| Trades.Scaled | pages/backtest.tsx:129-134 | the unit change (none for the spread, times 100 for the ratio) keeps the sign |
| Trades.ExitSignal | pages/backtest-spread.tsx:159-162 | the exit rule: the reverse crossing of `-exitZ` (LONG) or `exitZ` (SHORT), or 15 days held; the ratio page's rule at pages/backtest.tsx:113-116 is the same; `TradeRules.EntryMoveIsNoExitCrossing` and `TradeRules.FirstExit` state its properties |
| Trades.Excursion | pages/backtest-spread.tsx:172-179 | the move in the trade's favour, 0 at the entry value; the ratio page's relative move at pages/backtest.tsx:125-134 |
| Trades.ExcursionSign | pages/backtest-spread.tsx:171-179 | the excursion is 0 at the entry value; it is positive exactly when the value moved the trade's way (up for LONG, down for SHORT), except in ratio mode with a negative entry ratio, where division by it reverses the direction; the ratio page at pages/backtest.tsx:126-134 |
| Trades.MaxDrawdown | pages/backtest-spread.tsx:175 | `Math.max` of the drawdowns: at least the exit row's, and at least 0 when the window starts at the entry row; `Trades.MaxDrawdownIsMax` states it is the maximum |
| Trades.Values | pages/backtest-spread.tsx:170 | the value column of the rows |
| Trades.MaxDrawdownIsMax | pages/backtest-spread.tsx:169-175 | the max drawdown is at least the negated excursion of every row from entry to exit, and equals one of them; the ratio page does the same at pages/backtest.tsx:123-129 |
| Trades.CloseTrade | pages/backtest-spread.tsx:164-196 | a closed trade keeps its entry index, which is strictly before its exit index |
| Trades.CloseTradeFacts | pages/backtest-spread.tsx:169-179 | profit is the scaled excursion at exit and is positive iff the excursion is; the drawdown is at least 0 and at least the loss at exit |
| Trades.Step | pages/backtest-spread.tsx:139-198 | the loop body keeps the open trade one that was opened at an earlier row, and either leaves the trades alone or closes the open trade and appends exactly it |
| Trades.Run | pages/backtest-spread.tsx:134-199 | the loop only appends trades |
| Trades.Simulate | pages/backtest-spread.tsx:131-199 | the trade loop, starting flat at row 1, records exactly the trades of the step function's run; the ratio page does the same at pages/backtest.tsx:97-148 |
| TradeRules.ChainAppend | pages/backtest-spread.tsx:181-196 | appending a valid trade that opens after the last exit, with no crossing skipped, keeps the chain |
| TradeRules.StepReached | pages/backtest-spread.tsx:139-198 | each step of the loop keeps the reachable-state invariant: flat means no crossing since the last exit; holding means entered on the first crossing and no exit rule fired since |
| TradeRules.ReachedEndComplete | pages/backtest-spread.tsx:134 | at the end of the rows the reached state is a complete result, with a still-open trade dropped |
| TradeRules.RunComplete | pages/backtest-spread.tsx:134-199 | running the loop from a reached state yields a complete result |
| TradeRules.SimulateComplete | pages/backtest-spread.tsx:131-199 | the recorded trades are a chain of valid trades, each opened on the first entry crossing after the previous exit, with nothing missed after the last one except a trade that never closes |
| TradeRules.TradeOkFacts | pages/backtest-spread.tsx:158-196 | a valid trade has `1 <= entry < exit`, its entry crossing, its dates and holding period, an exit rule that fires at exit, no time stop due before exit, profit as the excursion, drawdown at least 0 and at least the loss, and both hedge ratios |
| TradeRules.SimulatedTrade | pages/backtest-spread.tsx:131-199 | every recorded trade is valid, and the next one opens strictly after it exits |
| TradeRules.HoldingPeriodNonNegative | pages/backtest-spread.tsx:158-183 | on a table whose dates never decrease, every recorded trade exits no earlier than it entered and its holding period is at least 0 |
| TradeRules.EntryCrossingsExclusive | pages/backtest-spread.tsx:140-148 | the LONG and SHORT entry crossings never hold together, for any entryZ |
| TradeRules.RunPrefix | pages/backtest-spread.tsx:134-199 | the loop over a prefix of the rows records a prefix of the trades |
| TradeRules.StepPrefix | pages/backtest-spread.tsx:139-198 | the loop body at a row inside the prefix does the same on the prefix |
| TradeRules.SimulatePrefix | pages/backtest-spread.tsx:131-199 | a table cut short records a prefix of the full table's trades: rows after a trade's exit never change it |
| TradeRules.EntryMoveIsNoExitCrossing | pages/backtest-spread.tsx:139-162 | a fact about the two signals only: a z-score move that is an entry crossing of a kind is never the exit crossing of that kind, for any thresholds, so on it `ExitSignal` holds iff the holding period reaches 15 (the loop never tests the exit on the entry row) |
| TradeRules.FirstEntry | pages/backtest-spread.tsx:139-156 | two entry crossings after the same exit, with none before either, are the same row |
| TradeRules.FirstExit | pages/backtest-spread.tsx:157-164 | two rows after entry at which the exit rule fires for the first time are the same row |
| TradeRules.SameNextTrade | pages/backtest-spread.tsx:134-199 | two chains that agree up to a trade have the same next trade |
| TradeRules.CompletePrefixesAgree | pages/backtest-spread.tsx:134-199 | two complete results agree trade by trade as far as both go |
| TradeRules.CompleteHasNoNext | pages/backtest-spread.tsx:134-199 | a chain that agrees with a complete result has no trade beyond it |
| TradeRules.CompleteUnique | pages/backtest-spread.tsx:134-199 | there is only one complete result |
| TradeRules.SimulateExactly | pages/backtest-spread.tsx:131-199 | a list of trades satisfies the rules of the loop if and only if it is what the loop records |
| TradeRules.ShortRoundTrip | pages/backtest-spread.tsx:139-196 | scores 0, 2.1, 2.3, 0.9, 0.2 with entry 2 and exit 1 give one SHORT from row 1 to row 3, profit 2, drawdown 1 |
| TradeRules.LongHeldPastTimeStop | pages/backtest-spread.tsx:139-183 | dates 0, 1, 2, 20 with scores 0, -2.5, -2.6, -2.7 (entry 2, exit 1): a LONG opens at row 1, no score exit fires, and the time stop closes it at row 3 after 19 days |
| TradeRules.OpenTradeDropped | pages/backtest.tsx:100-148 | a LONG opened at row 1 with no exit before the data ends is not recorded |
| TradeSummary.Profits | pages/backtest-spread.tsx:210-212 | the profit of every trade, in order |
| TradeSummary.CountProfitable | pages/backtest-spread.tsx:210 | at most the number of trades; all of them iff every profit is positive, none iff none is |
| TradeSummary.CountProfitableAppend | pages/backtest-spread.tsx:210 | counting over two runs of trades adds the counts |
| TradeSummary.Total | pages/backtest-spread.tsx:212 | the sum of the profits: not negative when no profit is, not positive when none is |
| TradeSummary.TotalAppend | pages/backtest-spread.tsx:212 | totalling over two runs of trades adds the totals |
| TradeSummary.WinRate | pages/backtest-spread.tsx:211 | in [0, 100]; 100 iff there are trades and all are profitable; 0 iff none is |
| TradeSummary.Average | pages/backtest-spread.tsx:213 | 0 with no trades, and otherwise the value whose product with the count is the total |
| TradeSummary.Summarize | pages/backtest-spread.tsx:209-213 | profitable trades are at most the total; win rate and average are 0 with no trades; the win rate is in [0, 100], 100 iff all trades are profitable and 0 iff none is; the average is the total over the count; the ratio page does the same at pages/backtest.tsx:158-162 |

## Findings

| source | as written | input that shows it | evidently intended | confidence | as-written member | corrected member |
|---|---|---|---|---|---|---|
| pages/backtest-spread.tsx:177-179 | the comment says profit uses the entry hedge ratio, but the exit spread subtracted from is hedged with the exit row's ratio (lines 107 and 166) | a LONG opened at closes (10, 5) with ratio 1 and closed at (12, 6) with ratio 1.5 records -2 | both spreads at the entry ratio, giving 1 | medium, not executed | SpreadBacktest.RecordedProfitUsesExitHedge | SpreadBacktest.EntryHedgedProfit |

The trade loop keeps the profit as the code computes it, since that is what the page reports and sums. `SpreadBacktest.HedgeDriftChangesProfit` is the concrete table. `SpreadBacktest.RecordedProfitUsesExitHedge` relates every recorded spread trade's profit to `SpreadBacktest.EntryHedgedProfit`.

## Left out

- The pages' rendering, state setters, loading flag, alerts and console output are not modelled. The run's outcome is a `Result` value instead.
- The browser store (`openDB`, `store.get`) is not part of this model. The two stored histories are inputs, with `None` for a missing one.
- `calculateZScore` lives in `utils/calculations`, which is not part of this model. It is a function parameter, and nothing is assumed about its scores.
- Prices are exact reals. IEEE rounding, NaN and Infinity are not modelled. So `|| 0` is modelled only for a missing score, not for a NaN score.
- HedgeRatio.ConstantBGivesOne: the zero denominator, and so the fallback to 1, is an exact-arithmetic fact. In doubles the sums of a constant close such as 100.1 round, the denominator can be a tiny non-zero value, and the code then divides by it instead of falling back.
- Dates are integer day numbers. The holding period is their difference, where the code divides a millisecond difference by the length of a day.
- The `toFixed` and `parseFloat` formatting of trade fields is not modelled. The summary works on the raw profits, not on the profits rounded to 2 decimals.
- The spread page's `hedgeRatioChange` field is left out. It divides by the entry hedge ratio, which can be 0. The entry and exit hedge ratios are kept.
- The spread page's `hedgeRatios` array is only written, never read. The model builds it, but nothing else uses it.
- RatioBacktest.RunRatioBacktest: requires non-zero closes of A and B on the paired bars of the filtered histories. A zero close of B there makes the code divide by zero. A zero close of A gives a zero ratio, which the code divides by only if a trade opens at that row; the model requires A's paired closes to be non-zero at every row, not only at entry rows. Zero closes outside the date range or past the paired length are allowed.
- Trades.Step, Trades.Run, Trades.SimulateSpec and Trades.Simulate: in ratio mode they require every row's ratio to be non-zero (`ValuesUsable`), where the page divides only by the ratio of a row at which a trade opens.
- TradeRules.HoldingPeriodNonNegative: requires the table's dates in non-decreasing order. The pages do not sort the stored bars, so nothing else in the model assumes an order.
- Trades.Excursion: in ratio mode it requires a non-zero entry ratio, which non-zero closes guarantee.
- Trade records also carry the row indices of entry and exit, so that properties can be stated about them. The ratio page's trades carry no hedge ratios (`None`).
- `Math.max` over an empty drawdown list cannot happen, since the slice from entry to exit is never empty. `MaxDrawdown` requires a non-empty window.
