/** The summary line under the trade table: how many trades were profitable,
    the win rate in percent, the total and the average profit. */
module TradeSummary {
  import opened Trades

  datatype Summary = Summary(totalTrades: nat, profitableTrades: nat, winRate: real, totalProfit: real, avgProfit: real)

  /** The profit (spread mode) or profit percent (ratio mode) of each trade. */
  function Profits(trades: seq<Trade>): (r: seq<real>)
    ensures |r| == |trades| && forall k | 0 <= k < |trades| :: r[k] == trades[k].profit
  {
    seq(|trades|, k requires 0 <= k < |trades| => trades[k].profit)
  }

  /** How many profits are strictly positive. */
  function CountProfitable(profits: seq<real>): (n: nat)
    ensures n <= |profits|
    ensures n == |profits| <==> forall k | 0 <= k < |profits| :: profits[k] > 0.0
    ensures n == 0 <==> forall k | 0 <= k < |profits| :: profits[k] <= 0.0
  {
    if |profits| == 0 then 0
    else CountProfitable(profits[..|profits| - 1]) + (if profits[|profits| - 1] > 0.0 then 1 else 0)
  }

  /** The sum of the profits, added up from the first. */
  function Total(profits: seq<real>): (r: real)
    ensures (forall k | 0 <= k < |profits| :: profits[k] >= 0.0) ==> r >= 0.0
    ensures (forall k | 0 <= k < |profits| :: profits[k] <= 0.0) ==> r <= 0.0
  {
    if |profits| == 0 then 0.0 else Total(profits[..|profits| - 1]) + profits[|profits| - 1]
  }

  /** Counting over two runs of trades adds the counts. */
  lemma {:induction false} CountProfitableAppend(a: seq<real>, b: seq<real>)
    ensures CountProfitable(a + b) == CountProfitable(a) + CountProfitable(b)
  {
    if |b| > 0 {
      assert (a + b)[..|a + b| - 1] == a + b[..|b| - 1];
      CountProfitableAppend(a, b[..|b| - 1]);
    } else {
      assert a + b == a;
    }
  }

  /** Totalling over two runs of trades adds the totals. */
  lemma {:induction false} TotalAppend(a: seq<real>, b: seq<real>)
    ensures Total(a + b) == Total(a) + Total(b)
  {
    if |b| > 0 {
      assert (a + b)[..|a + b| - 1] == a + b[..|b| - 1];
      TotalAppend(a, b[..|b| - 1]);
    } else {
      assert a + b == a;
    }
  }

  /** `profitable / total * 100`, or 0 with no trades. */
  function WinRate(profitable: nat, total: nat): (r: real)
    requires profitable <= total
    ensures 0.0 <= r <= 100.0
    ensures r == 100.0 <==> total > 0 && profitable == total
    ensures r == 0.0 <==> profitable == 0
  {
    if total > 0 then
      var c, n := profitable as real, total as real;
      assert 0.0 <= c / n <= 1.0 && (c / n == 1.0 <==> c == n) && (c / n == 0.0 <==> c == 0.0);
      (c / n) * 100.0
    else 0.0
  }

  /** `total / count`, or 0 with no trades. */
  function Average(total: real, count: nat): (r: real)
    ensures count == 0 ==> r == 0.0
    ensures count > 0 ==> r * (count as real) == total
  {
    if count > 0 then total / count as real else 0.0
  }

  /** The summary statistics of a list of trades. */
  function Summarize(trades: seq<Trade>): (s: Summary)
    ensures s.totalTrades == |trades| && s.profitableTrades <= s.totalTrades
    ensures s.profitableTrades == CountProfitable(Profits(trades)) && s.totalProfit == Total(Profits(trades))
    ensures |trades| == 0 ==> s.winRate == 0.0 && s.avgProfit == 0.0
    ensures 0.0 <= s.winRate <= 100.0
    ensures s.winRate == 100.0 <==> |trades| > 0 && forall k | 0 <= k < |trades| :: trades[k].profit > 0.0
    ensures s.winRate == 0.0 <==> forall k | 0 <= k < |trades| :: trades[k].profit <= 0.0
    ensures s.avgProfit == Average(s.totalProfit, s.totalTrades)
  {
    var profits := Profits(trades);
    var profitable := CountProfitable(profits);
    var total := Total(profits);
    Summary(|trades|, profitable, WinRate(profitable, |trades|), total, Average(total, |trades|))
  }
}
