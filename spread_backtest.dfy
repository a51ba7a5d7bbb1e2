/** `runBacktest` of the dynamic-spread page: filter both histories to the
    date range, pair them by position, hedge A against B with the rolling
    least-squares ratio, score the spread and trade on the score. */
module SpreadBacktest {
  import opened Wrappers
  import opened Bars
  import opened HedgeRatio
  import opened RollingZScore
  import opened Trades
  import TradeRules
  import opened BacktestResult

  /** One entry of the spread series. */
  datatype SpreadPoint = SpreadPoint(date: int, spread: real, stockAClose: real, stockBClose: real, hedgeRatio: real)

  /** The hedge ratios of the first `n` bars. */
  function HedgeRatios(pricesA: seq<Bar>, pricesB: seq<Bar>, lookback: int, n: nat): (r: seq<real>)
    requires n <= |pricesA| && n <= |pricesB|
    ensures |r| == n
  {
    if n == 0 then [] else HedgeRatios(pricesA, pricesB, lookback, n - 1) + [HedgeRatioAt(pricesA, pricesB, n - 1, lookback)]
  }

  /** Entry `i` of the hedge-ratio list is the hedge ratio at bar `i`. */
  lemma {:induction false} HedgeRatiosAt(pricesA: seq<Bar>, pricesB: seq<Bar>, lookback: int, n: nat, i: int)
    requires n <= |pricesA| && n <= |pricesB| && 0 <= i < n
    ensures HedgeRatios(pricesA, pricesB, lookback, n)[i] == HedgeRatioAt(pricesA, pricesB, i, lookback)
  {
    if i < n - 1 {
      HedgeRatiosAt(pricesA, pricesB, lookback, n - 1, i);
    }
  }

  /** The spread of a pair of closes hedged with ratio `beta`. */
  function Spread(closeA: real, closeB: real, beta: real): real {
    closeA - beta * closeB
  }

  /** The spread point of the bars `a` and `b` hedged with ratio `beta`:
      A's date, both closes and their spread. */
  function Hedged(a: Bar, b: Bar, beta: real): SpreadPoint {
    SpreadPoint(a.date, Spread(a.close, b.close, beta), a.close, b.close, beta)
  }

  /** The spread points of the bars paired by position, each hedged with its
      own ratio from `betas`. */
  function HedgedSeries(pricesA: seq<Bar>, pricesB: seq<Bar>, betas: seq<real>): (r: seq<SpreadPoint>)
    requires |betas| <= |pricesA| && |betas| <= |pricesB|
    ensures |r| == |betas|
  {
    if |betas| == 0 then []
    else
      var n := |betas| - 1;
      HedgedSeries(pricesA, pricesB, betas[..n]) + [Hedged(pricesA[n], pricesB[n], betas[n])]
  }

  /** Entry `i` of the series is bar `i` hedged with `betas[i]`. */
  lemma {:induction false} HedgedSeriesAt(pricesA: seq<Bar>, pricesB: seq<Bar>, betas: seq<real>, i: int)
    requires |betas| <= |pricesA| && |betas| <= |pricesB| && 0 <= i < |betas|
    ensures HedgedSeries(pricesA, pricesB, betas)[i] == Hedged(pricesA[i], pricesB[i], betas[i])
  {
    var n := |betas| - 1;
    if i < n {
      HedgedSeriesAt(pricesA, pricesB, betas[..n], i);
    }
  }

  /** Appending the bars at `i == |betas|` hedged with `beta` extends the
      series by that point. */
  lemma HedgedSeriesStep(pricesA: seq<Bar>, pricesB: seq<Bar>, betas: seq<real>, i: int, beta: real)
    requires i == |betas| && i < |pricesA| && i < |pricesB|
    ensures HedgedSeries(pricesA, pricesB, betas)
              + [SpreadPoint(pricesA[i].date, pricesA[i].close - beta * pricesB[i].close, pricesA[i].close, pricesB[i].close, beta)]
         == HedgedSeries(pricesA, pricesB, betas + [beta])
  {
    assert (betas + [beta])[..i] == betas;
  }

  /** The loop that builds the spread series and the hedge-ratio list. */
  method BuildSpreads(pricesA: seq<Bar>, pricesB: seq<Bar>, lookback: int)
    returns (spreads: seq<SpreadPoint>, hedgeRatios: seq<real>)
    ensures |spreads| == |hedgeRatios| == Min(|pricesA|, |pricesB|)
    ensures hedgeRatios == HedgeRatios(pricesA, pricesB, lookback, Min(|pricesA|, |pricesB|))
    ensures spreads == HedgedSeries(pricesA, pricesB, hedgeRatios)
  {
    var minLength := Min(|pricesA|, |pricesB|);
    spreads, hedgeRatios := [], [];
    var i := 0;
    while i < minLength
      invariant 0 <= i <= minLength && |spreads| == |hedgeRatios| == i
      invariant hedgeRatios == HedgeRatios(pricesA, pricesB, lookback, i)
      invariant spreads == HedgedSeries(pricesA, pricesB, hedgeRatios)
    {
      var currentHedgeRatio := CalculateHedgeRatio(pricesA, pricesB, i, lookback);
      var spread := pricesA[i].close - currentHedgeRatio * pricesB[i].close;
      var point := SpreadPoint(pricesA[i].date, spread, pricesA[i].close, pricesB[i].close, currentHedgeRatio);
      HedgedSeriesStep(pricesA, pricesB, hedgeRatios, i, currentHedgeRatio);
      hedgeRatios := hedgeRatios + [currentHedgeRatio];
      spreads := spreads + [point];
      i := i + 1;
    }
  }

  /** The spread column. */
  function SpreadValues(spreads: seq<SpreadPoint>): seq<real> {
    seq(|spreads|, k requires 0 <= k < |spreads| => spreads[k].spread)
  }

  /** The table: each spread point with its z-score, a missing score read as 0. */
  function TableRows(spreads: seq<SpreadPoint>, zScores: seq<Option<real>>): seq<Row>
    requires |zScores| == |spreads|
  {
    seq(|spreads|, k requires 0 <= k < |spreads| =>
      Row(spreads[k].date, spreads[k].stockAClose, spreads[k].stockBClose, spreads[k].spread,
          zScores[k].GetOr(0.0), Some(spreads[k].hedgeRatio)))
  }

  /** The table built from two date-filtered histories. */
  function SpreadRows(pricesA: seq<Bar>, pricesB: seq<Bar>, lookback: int, zscore: seq<real> -> seq<real>): (r: seq<Row>)
    ensures |r| == Min(|pricesA|, |pricesB|)
    ensures forall i | 0 <= i < |r| ::
      && r[i].date == pricesA[i].date && r[i].closeA == pricesA[i].close && r[i].closeB == pricesB[i].close
      && r[i].hedge.Some? && r[i].value == Spread(r[i].closeA, r[i].closeB, r[i].hedge.value)
      && r[i].zScore == Last(zscore(TrailingWindow(Values(r), i, lookback))).GetOr(0.0)
    ensures forall i | 0 <= i < |r| :: r[i].hedge == Some(HedgeRatioAt(pricesA, pricesB, i, lookback))
  {
    var n := Min(|pricesA|, |pricesB|);
    var betas := HedgeRatios(pricesA, pricesB, lookback, n);
    var spreads := HedgedSeries(pricesA, pricesB, betas);
    var values := SpreadValues(spreads);
    var r := TableRows(spreads, ZScoresOf(values, lookback, zscore));
    assert Values(r) == values;
    assert forall i | 0 <= i < n :: spreads[i] == Hedged(pricesA[i], pricesB[i], betas[i]) by {
      forall i | 0 <= i < n ensures spreads[i] == Hedged(pricesA[i], pricesB[i], betas[i]) {
        HedgedSeriesAt(pricesA, pricesB, betas, i);
      }
    }
    assert forall i | 0 <= i < n :: betas[i] == HedgeRatioAt(pricesA, pricesB, i, lookback) by {
      forall i | 0 <= i < n ensures betas[i] == HedgeRatioAt(pricesA, pricesB, i, lookback) {
        HedgeRatiosAt(pricesA, pricesB, lookback, n, i);
      }
    }
    r
  }

  /** Row `i` of the table reads no bar after `i`: two pairs of histories
      that agree up to `i` give the same row there, hedge ratio, spread and
      z-score included. */
  lemma SpreadRowsReadOnlyPast(pricesA: seq<Bar>, pricesB: seq<Bar>, otherA: seq<Bar>, otherB: seq<Bar>,
                               lookback: int, zscore: seq<real> -> seq<real>, i: int)
    requires 0 <= i < |pricesA| && i < |pricesB| && i < |otherA| && i < |otherB|
    requires pricesA[..i + 1] == otherA[..i + 1] && pricesB[..i + 1] == otherB[..i + 1]
    ensures SpreadRows(pricesA, pricesB, lookback, zscore)[i] == SpreadRows(otherA, otherB, lookback, zscore)[i]
  {
    var n1, n2 := Min(|pricesA|, |pricesB|), Min(|otherA|, |otherB|);
    var b1, b2 := HedgeRatios(pricesA, pricesB, lookback, n1), HedgeRatios(otherA, otherB, lookback, n2);
    var s1, s2 := HedgedSeries(pricesA, pricesB, b1), HedgedSeries(otherA, otherB, b2);
    forall k | 0 <= k <= i
      ensures pricesA[k] == otherA[k] && pricesB[k] == otherB[k]
    {
      assert pricesA[k] == pricesA[..i + 1][k] && otherA[k] == otherA[..i + 1][k];
      assert pricesB[k] == pricesB[..i + 1][k] && otherB[k] == otherB[..i + 1][k];
    }
    forall k | 0 <= k <= i
      ensures s1[k] == s2[k]
    {
      HedgeRatioReadsOnlyWindow(pricesA, pricesB, otherA, otherB, k, lookback);
      HedgeRatiosAt(pricesA, pricesB, lookback, n1, k);
      HedgeRatiosAt(otherA, otherB, lookback, n2, k);
      HedgedSeriesAt(pricesA, pricesB, b1, k);
      HedgedSeriesAt(otherA, otherB, b2, k);
    }
    var v1, v2 := SpreadValues(s1), SpreadValues(s2);
    assert v1[..i + 1] == v2[..i + 1];
    ZScoreReadsOnlyPast(v1, v2, i, lookback, zscore);
    assert ZScoresOf(v1, lookback, zscore)[i] == ZScoresOf(v2, lookback, zscore)[i];
    assert TableRows(s1, ZScoresOf(v1, lookback, zscore))[i] == TableRows(s2, ZScoresOf(v2, lookback, zscore))[i];
  }

  /** A stock paired with a copy of itself is perfectly hedged: the hedge
      ratio is 1 and the spread 0 at every bar. */
  lemma SpreadOfIdenticalPair(prices: seq<Bar>, lookback: int, zscore: seq<real> -> seq<real>, i: int)
    requires 0 <= i < |prices|
    ensures SpreadRows(prices, prices, lookback, zscore)[i].hedge == Some(1.0)
    ensures SpreadRows(prices, prices, lookback, zscore)[i].value == 0.0
  {
    HedgeRatioOfIdenticalPair(prices, prices, i, lookback);
  }

  /** Rows as the spread page builds them: each carries its hedge ratio, and
      its value is the spread of its closes hedged with that ratio. */
  predicate HedgedRows(rows: seq<Row>) {
    forall k | 0 <= k < |rows| ::
      rows[k].hedge.Some? && rows[k].value == Spread(rows[k].closeA, rows[k].closeB, rows[k].hedge.value)
  }

  /** The spread page's table is made of hedged rows. */
  lemma SpreadRowsAreHedged(pricesA: seq<Bar>, pricesB: seq<Bar>, lookback: int, zscore: seq<real> -> seq<real>)
    ensures HedgedRows(SpreadRows(pricesA, pricesB, lookback, zscore))
  {
  }

  /** The sign of a position: +1 for LONG, -1 for SHORT. */
  function Side(kind: Kind): real {
    match kind
    case Long => 1.0
    case Short => -1.0
  }

  /** The profit of a spread trade with both spreads taken at the entry hedge
      ratio: the gain of holding one share of A against `betaEntry` shares of
      B from entry to exit, signed by the side. */
  function EntryHedgedProfit(kind: Kind, entryA: real, entryB: real, exitA: real, exitB: real, betaEntry: real): (r: real)
    ensures r == Side(kind) * ((exitA - entryA) - betaEntry * (exitB - entryB))
  {
    Side(kind) * (Spread(exitA, exitB, betaEntry) - Spread(entryA, entryB, betaEntry))
  }

  /** The profit the loop records for a spread trade is the exit row's spread,
      hedged with the EXIT ratio, less the entry row's spread, hedged with the
      entry ratio. It is the entry-hedged profit plus the drift term
      `(betaEntry - betaExit) * closeB` at exit, so the two agree exactly when
      the ratio did not move or B's exit close is 0. */
  lemma RecordedProfitUsesExitHedge(p: Params, rows: seq<Row>, tr: Trade)
    requires p.mode == SpreadMode && HedgedRows(rows)
    requires tr in SimulateSpec(p, rows)
    ensures 1 <= tr.entryIndex < tr.exitIndex < |rows|
    ensures tr.entryHedge == rows[tr.entryIndex].hedge && tr.exitHedge == rows[tr.exitIndex].hedge
    ensures tr.profit
      == EntryHedgedProfit(tr.kind, rows[tr.entryIndex].closeA, rows[tr.entryIndex].closeB,
                           rows[tr.exitIndex].closeA, rows[tr.exitIndex].closeB, tr.entryHedge.value)
         + Side(tr.kind) * (tr.entryHedge.value - tr.exitHedge.value) * rows[tr.exitIndex].closeB
    ensures tr.profit
      == EntryHedgedProfit(tr.kind, rows[tr.entryIndex].closeA, rows[tr.entryIndex].closeB,
                           rows[tr.exitIndex].closeA, rows[tr.exitIndex].closeB, tr.entryHedge.value)
      <==> tr.entryHedge == tr.exitHedge || rows[tr.exitIndex].closeB == 0.0
  {
    var trades := SimulateSpec(p, rows);
    var j :| 0 <= j < |trades| && trades[j] == tr;
    TradeRules.SimulatedTrade(p, rows, j);
    TradeRules.TradeOkFacts(p, rows, tr);
    var e, x := rows[tr.entryIndex], rows[tr.exitIndex];
    var be, bx := e.hedge.value, x.hedge.value;
    var s := Side(tr.kind);
    assert tr.profit == s * (Spread(x.closeA, x.closeB, bx) - Spread(e.closeA, e.closeB, be));
    var drift := s * (be - bx) * x.closeB;
    assert drift == s * (be * x.closeB - bx * x.closeB);
    assert tr.profit == EntryHedgedProfit(tr.kind, e.closeA, e.closeB, x.closeA, x.closeB, be) + drift;
    assert drift == 0.0 <==> be == bx || x.closeB == 0.0 by {
      assert s != 0.0;
      if be != bx && x.closeB != 0.0 {
        assert (be - bx) * x.closeB != 0.0;
      }
    }
  }

  /** A LONG whose hedge ratio moves from 1 to 1.5 while it is held: opened
      at closes (10, 5) and closed at (12, 6), the loop records a profit of
      -2, where the entry-hedged profit is 1. */
  lemma HedgeDriftChangesProfit()
    ensures var rows := [Row(0, 10.0, 5.0, 5.0, 0.0, Some(1.0)), Row(1, 10.0, 5.0, 5.0, -2.5, Some(1.0)),
                         Row(2, 12.0, 6.0, 3.0, 0.0, Some(1.5))];
      && SimulateSpec(Params(SpreadMode, 2.0, 1.0), rows)
           == [Trade(1, 2, Long, 1, 2, 1, -2.0, 2.0, Some(1.0), Some(1.5))]
      && EntryHedgedProfit(Long, 10.0, 5.0, 12.0, 6.0, 1.0) == 1.0
  {
    var rows := [Row(0, 10.0, 5.0, 5.0, 0.0, Some(1.0)), Row(1, 10.0, 5.0, 5.0, -2.5, Some(1.0)),
                 Row(2, 12.0, 6.0, 3.0, 0.0, Some(1.5))];
    var p := Params(SpreadMode, 2.0, 1.0);
    var t := OpenAt(rows, 1, Long);
    assert EntryAt(p, rows, 1) == Some(Long);
    assert ExitAt(p, rows, t, 2);
    var window := rows[1..3];
    assert window == [rows[1], rows[2]];
    assert window[..1] == [rows[1]];
    assert MaxDrawdown(SpreadMode, Long, 5.0, [rows[1]]) == 0.0;
    assert MaxDrawdown(SpreadMode, Long, 5.0, window) == 2.0;
    var tr := CloseTrade(p, rows, t, 2);
    assert tr == Trade(1, 2, Long, 1, 2, 1, -2.0, 2.0, Some(1.0), Some(1.5));
    assert Step(p, rows, 1, None, []) == (Some(t), []);
    assert [] + [tr] == [tr];
    assert Step(p, rows, 2, Some(t), []) == (None, [tr]);
    calc {
      SimulateSpec(p, rows);
      Run(p, rows, 2, Some(t), []);
      Run(p, rows, 3, None, [tr]);
    }
  }

  /** The table of the spread page for the stored histories and the range. */
  function SpreadTable(dataA: seq<Bar>, dataB: seq<Bar>, fromDate: int, toDate: int, lookback: int,
                       zscore: seq<real> -> seq<real>): seq<Row>
  {
    SpreadRows(FilterByDate(dataA, fromDate, toDate), FilterByDate(dataB, fromDate, toDate), lookback, zscore)
  }

  /** `runBacktest` of the spread page, from the selected symbols and what the
      store holds under them. */
  method RunSpreadBacktest(stockA: string, stockB: string, dataA: Option<seq<Bar>>, dataB: Option<seq<Bar>>,
                           fromDate: int, toDate: int, entryZ: real, exitZ: real, lookback: int,
                           zscore: seq<real> -> seq<real>)
    returns (result: Result<Outcome, BacktestError>)
    ensures stockA == "" || stockB == "" ==> result == Failure(PairNotSelected)
    ensures stockA != "" && stockB != "" && (dataA.None? || dataB.None?) ==> result == Failure(DataNotFound)
    ensures stockA != "" && stockB != "" && dataA.Some? && dataB.Some? ==>
      var table := SpreadTable(dataA.value, dataB.value, fromDate, toDate, lookback, zscore);
      result == Success(Outcome(table, SimulateSpec(Params(SpreadMode, entryZ, exitZ), table)))
  {
    if stockA == "" || stockB == "" {
      return Failure(PairNotSelected);
    }
    if dataA.None? || dataB.None? {
      return Failure(DataNotFound);
    }
    var pricesA := FilterByDate(dataA.value, fromDate, toDate);
    var pricesB := FilterByDate(dataB.value, fromDate, toDate);
    var spreads, hedgeRatios := BuildSpreads(pricesA, pricesB, lookback);
    var zScores := RollingZScores(SpreadValues(spreads), lookback, zscore);
    var tableData := TableRows(spreads, zScores);
    var trades := Simulate(Params(SpreadMode, entryZ, exitZ), tableData);
    result := Success(Outcome(tableData, trades));
  }
}
