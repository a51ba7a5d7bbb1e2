/** What a backtest run of either page ends with: the table it shows and the
    trades it records, or the reason it stopped early. */
module BacktestResult {
  import opened Trades

  /** The run stops with an alert when a symbol of the pair is unselected
      (empty), or when the store has no data under one of the symbols. */
  datatype BacktestError = PairNotSelected | DataNotFound

  datatype Outcome = Outcome(table: seq<Row>, trades: seq<Trade>)
}
