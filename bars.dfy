/** Daily bars and the date filter that both backtest pages apply first. */
module Bars {

  /** One daily bar of a stock. The date is a day number: ISO `YYYY-MM-DD`
      strings compare lexicographically in the same order as day numbers. */
  datatype Bar = Bar(date: int, open: real, high: real, low: real, close: real)

  function Min(a: int, b: int): int { if a <= b then a else b }
  function Max(a: int, b: int): int { if a <= b then b else a }

  /** Whether a bar lies in the inclusive date range. */
  predicate InRange(bar: Bar, fromDate: int, toDate: int) {
    fromDate <= bar.date && bar.date <= toDate
  }

  /** `filterByDate`: the bars with `fromDate <= date <= toDate`, in order. */
  function FilterByDate(data: seq<Bar>, fromDate: int, toDate: int): (r: seq<Bar>)
    ensures |r| <= |data|
    ensures forall k | 0 <= k < |r| :: InRange(r[k], fromDate, toDate) && r[k] in data
  {
    if |data| == 0 then []
    else
      var rest := FilterByDate(data[1..], fromDate, toDate);
      if InRange(data[0], fromDate, toDate) then [data[0]] + rest else rest
  }

  /** Filtering a concatenation filters each part; with the one-bar case
      (kept iff in range) this pins the filter down and shows that it keeps
      the original order. */
  lemma {:induction false} FilterByDateAppend(a: seq<Bar>, b: seq<Bar>, fromDate: int, toDate: int)
    ensures FilterByDate(a + b, fromDate, toDate)
         == FilterByDate(a, fromDate, toDate) + FilterByDate(b, fromDate, toDate)
  {
    if |a| > 0 {
      assert (a + b)[1..] == a[1..] + b;
      FilterByDateAppend(a[1..], b, fromDate, toDate);
    } else {
      assert a + b == b;
    }
  }

  /** A single bar is kept exactly when its date is in range. */
  lemma FilterByDateSingle(bar: Bar, fromDate: int, toDate: int)
    ensures FilterByDate([bar], fromDate, toDate)
         == if InRange(bar, fromDate, toDate) then [bar] else []
  {
    assert [bar][1..] == [];
  }

  /** Every bar of the input whose date is in range is kept. */
  lemma {:induction false} FilterByDateKeeps(data: seq<Bar>, fromDate: int, toDate: int, k: int)
    requires 0 <= k < |data| && InRange(data[k], fromDate, toDate)
    ensures data[k] in FilterByDate(data, fromDate, toDate)
  {
    if k > 0 {
      FilterByDateKeeps(data[1..], fromDate, toDate, k - 1);
    }
  }

  /** A range that contains every bar keeps the whole sequence. */
  lemma {:induction false} FilterByDateAllInRange(data: seq<Bar>, fromDate: int, toDate: int)
    requires forall k | 0 <= k < |data| :: InRange(data[k], fromDate, toDate)
    ensures FilterByDate(data, fromDate, toDate) == data
  {
    if |data| > 0 {
      FilterByDateAllInRange(data[1..], fromDate, toDate);
    }
  }
}
