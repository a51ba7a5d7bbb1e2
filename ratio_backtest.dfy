/** `runBacktest` of the price-ratio page: filter both histories to the date
    range, pair them by position, take the ratio of the closes, score it over
    a fixed window of 50 rows and trade on the score. */
module RatioBacktest {
  import opened Wrappers
  import opened Bars
  import opened RollingZScore
  import opened Trades
  import opened BacktestResult

  /** The fixed z-score window of the ratio page. */
  const RollingWindow: int := 50

  /** One entry of the ratio series. */
  datatype RatioPoint = RatioPoint(date: int, ratio: real, stockAClose: real, stockBClose: real)

  /** The first `n` closes of a history are non-zero (all of them when it is
      shorter). `NonZeroUpTo(pricesB, |pricesA|)` says that every close of B
      the ratio page divides by, one per paired bar, is non-zero. */
  predicate NonZeroUpTo(bars: seq<Bar>, n: int) {
    forall k | 0 <= k < n && k < |bars| :: bars[k].close != 0.0
  }

  /** The ratio point of the bars `a` and `b`: A's date and `closeA / closeB`. */
  function RatioOf(a: Bar, b: Bar): RatioPoint
    requires b.close != 0.0
  {
    RatioPoint(a.date, a.close / b.close, a.close, b.close)
  }

  /** The ratio points of the first `n` bars. */
  function RatioSeries(pricesA: seq<Bar>, pricesB: seq<Bar>, n: nat): (r: seq<RatioPoint>)
    requires n <= |pricesA| && n <= |pricesB| && NonZeroUpTo(pricesB, n)
    ensures |r| == n && forall i | 0 <= i < n :: r[i] == RatioOf(pricesA[i], pricesB[i])
  {
    if n == 0 then [] else RatioSeries(pricesA, pricesB, n - 1) + [RatioOf(pricesA[n - 1], pricesB[n - 1])]
  }

  /** The loop that builds the ratio series. */
  method BuildRatios(pricesA: seq<Bar>, pricesB: seq<Bar>) returns (ratios: seq<RatioPoint>)
    requires NonZeroUpTo(pricesB, |pricesA|)
    ensures |ratios| == Min(|pricesA|, |pricesB|)
    ensures forall i | 0 <= i < |ratios| :: ratios[i].ratio * ratios[i].stockBClose == ratios[i].stockAClose
    ensures ratios == RatioSeries(pricesA, pricesB, Min(|pricesA|, |pricesB|))
  {
    var minLength := Min(|pricesA|, |pricesB|);
    ratios := [];
    var i := 0;
    while i < minLength
      invariant 0 <= i <= minLength && ratios == RatioSeries(pricesA, pricesB, i)
    {
      ratios := ratios + [RatioPoint(pricesA[i].date, pricesA[i].close / pricesB[i].close, pricesA[i].close, pricesB[i].close)];
      i := i + 1;
    }
  }

  /** The ratio column. */
  function RatioValues(ratios: seq<RatioPoint>): seq<real> {
    seq(|ratios|, k requires 0 <= k < |ratios| => ratios[k].ratio)
  }

  /** The table: each ratio point with its z-score, a missing score read as 0. */
  function TableRows(ratios: seq<RatioPoint>, zScores: seq<Option<real>>): seq<Row>
    requires |zScores| == |ratios|
  {
    seq(|ratios|, k requires 0 <= k < |ratios| =>
      Row(ratios[k].date, ratios[k].stockAClose, ratios[k].stockBClose, ratios[k].ratio, zScores[k].GetOr(0.0), None))
  }

  /** The table built from two date-filtered histories. */
  function RatioRows(pricesA: seq<Bar>, pricesB: seq<Bar>, zscore: seq<real> -> seq<real>): (r: seq<Row>)
    requires NonZeroUpTo(pricesB, |pricesA|)
    ensures |r| == Min(|pricesA|, |pricesB|)
    ensures forall i | 0 <= i < |r| ::
      && r[i].date == pricesA[i].date && r[i].closeA == pricesA[i].close && r[i].closeB == pricesB[i].close
      && r[i].value * r[i].closeB == r[i].closeA && r[i].hedge == None
      && r[i].zScore == Last(zscore(TrailingWindow(Values(r), i, RollingWindow))).GetOr(0.0)
    ensures NonZeroUpTo(pricesA, |pricesB|) ==> ValuesUsable(RatioMode, r)
  {
    var ratios := RatioSeries(pricesA, pricesB, Min(|pricesA|, |pricesB|));
    var values := RatioValues(ratios);
    var r := TableRows(ratios, ZScoresOf(values, RollingWindow, zscore));
    assert Values(r) == values;
    r
  }

  /** Row `i` of the table reads no bar after `i`. */
  lemma RatioRowsReadOnlyPast(pricesA: seq<Bar>, pricesB: seq<Bar>, otherA: seq<Bar>, otherB: seq<Bar>,
                              zscore: seq<real> -> seq<real>, i: int)
    requires NonZeroUpTo(pricesB, |pricesA|) && NonZeroUpTo(otherB, |otherA|)
    requires 0 <= i < |pricesA| && i < |pricesB| && i < |otherA| && i < |otherB|
    requires pricesA[..i + 1] == otherA[..i + 1] && pricesB[..i + 1] == otherB[..i + 1]
    ensures RatioRows(pricesA, pricesB, zscore)[i] == RatioRows(otherA, otherB, zscore)[i]
  {
    var s1 := RatioSeries(pricesA, pricesB, Min(|pricesA|, |pricesB|));
    var s2 := RatioSeries(otherA, otherB, Min(|otherA|, |otherB|));
    forall k | 0 <= k <= i
      ensures s1[k] == s2[k]
    {
      assert pricesA[k] == pricesA[..i + 1][k] && otherA[k] == otherA[..i + 1][k];
      assert pricesB[k] == pricesB[..i + 1][k] && otherB[k] == otherB[..i + 1][k];
    }
    var v1, v2 := RatioValues(s1), RatioValues(s2);
    assert v1[..i + 1] == v2[..i + 1];
    ZScoreReadsOnlyPast(v1, v2, i, RollingWindow, zscore);
    assert ZScoresOf(v1, RollingWindow, zscore)[i] == ZScoresOf(v2, RollingWindow, zscore)[i];
    assert TableRows(s1, ZScoresOf(v1, RollingWindow, zscore))[i] == TableRows(s2, ZScoresOf(v2, RollingWindow, zscore))[i];
  }

  /** The table of the ratio page for the stored histories and the range. */
  function RatioTable(dataA: seq<Bar>, dataB: seq<Bar>, fromDate: int, toDate: int,
                      zscore: seq<real> -> seq<real>): seq<Row>
    requires NonZeroUpTo(FilterByDate(dataB, fromDate, toDate), |FilterByDate(dataA, fromDate, toDate)|)
  {
    RatioRows(FilterByDate(dataA, fromDate, toDate), FilterByDate(dataB, fromDate, toDate), zscore)
  }

  /** `runBacktest` of the ratio page, from the selected symbols and what the
      store holds under them. */
  method RunRatioBacktest(stockA: string, stockB: string, dataA: Option<seq<Bar>>, dataB: Option<seq<Bar>>,
                          fromDate: int, toDate: int, entryZ: real, exitZ: real, zscore: seq<real> -> seq<real>)
    returns (result: Result<Outcome, BacktestError>)
    requires dataA.Some? && dataB.Some? ==>
      var pricesA, pricesB := FilterByDate(dataA.value, fromDate, toDate), FilterByDate(dataB.value, fromDate, toDate);
      NonZeroUpTo(pricesA, |pricesB|) && NonZeroUpTo(pricesB, |pricesA|)
    ensures stockA == "" || stockB == "" ==> result == Failure(PairNotSelected)
    ensures stockA != "" && stockB != "" && (dataA.None? || dataB.None?) ==> result == Failure(DataNotFound)
    ensures stockA != "" && stockB != "" && dataA.Some? && dataB.Some? ==>
      var table := RatioTable(dataA.value, dataB.value, fromDate, toDate, zscore);
      ValuesUsable(RatioMode, table)
      && result == Success(Outcome(table, SimulateSpec(Params(RatioMode, entryZ, exitZ), table)))
  {
    if stockA == "" || stockB == "" {
      return Failure(PairNotSelected);
    }
    if dataA.None? || dataB.None? {
      return Failure(DataNotFound);
    }
    var pricesA := FilterByDate(dataA.value, fromDate, toDate);
    var pricesB := FilterByDate(dataB.value, fromDate, toDate);
    var ratios := BuildRatios(pricesA, pricesB);
    var zScores := RollingZScores(RatioValues(ratios), RollingWindow, zscore);
    var tableData := TableRows(ratios, zScores);
    var trades := Simulate(Params(RatioMode, entryZ, exitZ), tableData);
    result := Success(Outcome(tableData, trades));
  }
}
