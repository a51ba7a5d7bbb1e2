/** What the trade loop guarantees about the trades it records: each one
    opens on an entry crossing while flat, closes at the first later row
    whose exit rule fires, and the next trade opens only after it closes, at
    the first entry crossing after that. */
module TradeRules {
  import opened Wrappers
  import opened Trades

  /** No entry crossing at any row of `[lo, hi)`. */
  predicate Quiet(p: Params, rows: seq<Row>, lo: int, hi: int) {
    forall k | lo <= k < hi :: 1 <= k < |rows| && EntryAt(p, rows, k).None?
  }

  /** The exit rule of `t` fires at no row of `[lo, hi)`. */
  predicate HeldThrough(p: Params, rows: seq<Row>, t: OpenTrade, lo: int, hi: int) {
    forall k | lo <= k < hi :: 1 <= k < |rows| && !ExitAt(p, rows, t, k)
  }

  /** A recorded trade: entered at row `e >= 1` on its entry crossing, kept
      through every row after `e` until the exit row `x`, where the exit rule
      fires, and recorded with the profit and drawdown of that stretch. */
  predicate TradeOk(p: Params, rows: seq<Row>, tr: Trade) {
    var e, x := tr.entryIndex, tr.exitIndex;
    1 <= e < x < |rows|
    && EntryAt(p, rows, e) == Some(tr.kind)
    && HeldThrough(p, rows, OpenAt(rows, e, tr.kind), e + 1, x)
    && ExitAt(p, rows, OpenAt(rows, e, tr.kind), x)
    && (p.mode == RatioMode ==> rows[e].value != 0.0)
    && tr == CloseTrade(p, rows, OpenAt(rows, e, tr.kind), x)
  }

  /** The exit row of the trade before trade `j`; 0 before the first. */
  function PrevExit(trades: seq<Trade>, j: int): int
    requires 0 <= j <= |trades|
  {
    if j == 0 then 0 else trades[j - 1].exitIndex
  }

  /** Every trade is well formed, opens after the previous one closed, and
      no entry crossing was passed over while flat before it. */
  predicate Chain(p: Params, rows: seq<Row>, trades: seq<Trade>) {
    forall j {:trigger PrevExit(trades, j)} | 0 <= j < |trades| ::
      TradeOk(p, rows, trades[j])
      && PrevExit(trades, j) < trades[j].entryIndex
      && Quiet(p, rows, PrevExit(trades, j) + 1, trades[j].entryIndex)
  }

  /** The state before row `i` is the one the loop reaches: the trades so far
      form a chain ending before `i`; flat, no entry crossing was passed over
      since the last exit; holding, the open trade was entered on the first
      crossing after it and no exit rule has fired since. */
  predicate Reached(p: Params, rows: seq<Row>, i: int, open: Option<OpenTrade>, trades: seq<Trade>) {
    var last := PrevExit(trades, |trades|);
    1 <= i && (i <= |rows| || i == 1)
    && Chain(p, rows, trades) && 0 <= last < i
    && match open
       case None => Quiet(p, rows, last + 1, i)
       case Some(t) =>
         var e := t.entryIndex;
         last < e < i && e < |rows| && t == OpenAt(rows, e, t.kind)
         && EntryAt(p, rows, e) == Some(t.kind)
         && Quiet(p, rows, last + 1, e)
         && HeldThrough(p, rows, t, e + 1, i)
  }

  /** The trades of a finished run: a chain after whose last exit either no
      entry crossing comes, or one does and its exit rule never fires before
      the data ends (that trade is dropped). */
  predicate Complete(p: Params, rows: seq<Row>, trades: seq<Trade>) {
    var last := PrevExit(trades, |trades|);
    Chain(p, rows, trades)
    && (Quiet(p, rows, last + 1, |rows|)
        || exists e | last < e < |rows| ::
             1 <= e && EntryAt(p, rows, e).Some?
             && Quiet(p, rows, last + 1, e)
             && HeldThrough(p, rows, OpenAt(rows, e, EntryAt(p, rows, e).value), e + 1, |rows|))
  }

  /** Appending a trade that satisfies the chain conditions keeps the chain. */
  lemma ChainAppend(p: Params, rows: seq<Row>, trades: seq<Trade>, tr: Trade)
    requires Chain(p, rows, trades) && TradeOk(p, rows, tr)
    requires PrevExit(trades, |trades|) < tr.entryIndex
    requires Quiet(p, rows, PrevExit(trades, |trades|) + 1, tr.entryIndex)
    ensures Chain(p, rows, trades + [tr])
    ensures PrevExit(trades + [tr], |trades| + 1) == tr.exitIndex
  {
    var all := trades + [tr];
    forall j | 0 <= j < |all|
      ensures TradeOk(p, rows, all[j])
      ensures PrevExit(all, j) < all[j].entryIndex
      ensures Quiet(p, rows, PrevExit(all, j) + 1, all[j].entryIndex)
    {
      if j < |trades| {
        assert all[j] == trades[j];
        assert PrevExit(all, j) == PrevExit(trades, j);
      } else {
        assert all[j] == tr;
        assert PrevExit(all, j) == PrevExit(trades, |trades|);
      }
    }
  }

  /** One row of the loop: the run from row `i` is the run from row `i + 1`
      in the next state, and that state is reached too. */
  lemma StepReached(p: Params, rows: seq<Row>, i: int, open: Option<OpenTrade>, trades: seq<Trade>)
    requires ValuesUsable(p.mode, rows) && OpenBefore(rows, open, i)
    requires Reached(p, rows, i, open, trades) && i < |rows|
    ensures Reached(p, rows, i + 1, Step(p, rows, i, open, trades).0, Step(p, rows, i, open, trades).1)
  {
    var last := PrevExit(trades, |trades|);
    if open.Some? {
      var t := open.value;
      var e := t.entryIndex;
      if ExitAt(p, rows, t, i) {
        var tr := CloseTrade(p, rows, t, i);
        assert TradeOk(p, rows, tr);
        ChainAppend(p, rows, trades, tr);
      } else {
        assert HeldThrough(p, rows, t, e + 1, i + 1);
      }
    } else if EntryAt(p, rows, i).None? {
      assert Quiet(p, rows, last + 1, i + 1);
    }
  }

  /** A state reached after the last row is a finished run. */
  lemma ReachedEndComplete(p: Params, rows: seq<Row>, i: int, open: Option<OpenTrade>, trades: seq<Trade>)
    requires Reached(p, rows, i, open, trades) && i >= |rows|
    ensures Complete(p, rows, trades)
  {
    var last := PrevExit(trades, |trades|);
    if open.Some? {
      var e := open.value.entryIndex;
      assert 1 <= e && EntryAt(p, rows, e).Some? && Quiet(p, rows, last + 1, e);
    } else {
      assert Quiet(p, rows, last + 1, |rows|);
    }
  }

  /** Running the loop from a reached state yields a complete set of trades. */
  lemma {:induction false} RunComplete(p: Params, rows: seq<Row>, i: int, open: Option<OpenTrade>, trades: seq<Trade>)
    requires ValuesUsable(p.mode, rows) && OpenBefore(rows, open, i)
    requires Reached(p, rows, i, open, trades)
    ensures Complete(p, rows, Run(p, rows, i, open, trades))
    decreases |rows| - i
  {
    if i >= |rows| {
      ReachedEndComplete(p, rows, i, open, trades);
    } else {
      StepReached(p, rows, i, open, trades);
      RunUnfold(p, rows, i, open, trades);
      var next := Step(p, rows, i, open, trades);
      RunComplete(p, rows, i + 1, next.0, next.1);
    }
  }

  /** The trades of a whole table satisfy every rule of the loop. */
  lemma SimulateComplete(p: Params, rows: seq<Row>)
    requires ValuesUsable(p.mode, rows)
    ensures Complete(p, rows, SimulateSpec(p, rows))
  {
    RunComplete(p, rows, 1, None, []);
  }

  /** What a well-formed trade records: the dates of its rows, the holding
      period between them, its exit rule or time stop (not yet due at any row
      in between), its profit and a drawdown that is at least 0 and at least
      the loss. */
  lemma TradeOkFacts(p: Params, rows: seq<Row>, tr: Trade)
    requires TradeOk(p, rows, tr)
    ensures 1 <= tr.entryIndex < tr.exitIndex < |rows|
    ensures EntryAt(p, rows, tr.entryIndex) == Some(tr.kind)
    ensures tr.entryDate == rows[tr.entryIndex].date && tr.exitDate == rows[tr.exitIndex].date
    ensures tr.holdingPeriod == tr.exitDate - tr.entryDate
    ensures ExitSignal(tr.kind, rows[tr.exitIndex - 1].zScore, rows[tr.exitIndex].zScore, p.exitZ, tr.holdingPeriod)
    ensures forall k | tr.entryIndex < k < tr.exitIndex :: rows[k].date - tr.entryDate < MaxHoldingDays
    ensures p.mode == RatioMode ==> rows[tr.entryIndex].value != 0.0
    ensures tr.profit == Scaled(p.mode, Excursion(p.mode, tr.kind, rows[tr.entryIndex].value, rows[tr.exitIndex].value))
    ensures tr.maxDrawdown >= 0.0 && tr.maxDrawdown >= -tr.profit
    ensures tr.entryHedge == rows[tr.entryIndex].hedge && tr.exitHedge == rows[tr.exitIndex].hedge
  {
    var t := OpenAt(rows, tr.entryIndex, tr.kind);
    CloseTradeFacts(p, rows, t, tr.exitIndex);
    forall k | tr.entryIndex < k < tr.exitIndex
      ensures rows[k].date - tr.entryDate < MaxHoldingDays
    {
      assert !ExitAt(p, rows, t, k);
    }
  }

  /** Every recorded trade is well formed, and the trade after it opens only
      after it closed. */
  lemma SimulatedTrade(p: Params, rows: seq<Row>, j: int)
    requires ValuesUsable(p.mode, rows)
    requires 0 <= j < |SimulateSpec(p, rows)|
    ensures TradeOk(p, rows, SimulateSpec(p, rows)[j])
    ensures j + 1 < |SimulateSpec(p, rows)| ==>
      SimulateSpec(p, rows)[j].exitIndex < SimulateSpec(p, rows)[j + 1].entryIndex
  {
    var trades := SimulateSpec(p, rows);
    SimulateComplete(p, rows);
    assert PrevExit(trades, j) < trades[j].entryIndex;
    if j + 1 < |trades| {
      assert PrevExit(trades, j + 1) < trades[j + 1].entryIndex;
    }
  }

  /** The table's dates never decrease from one row to the next. */
  predicate DatesOrdered(rows: seq<Row>) {
    forall j, k | 0 <= j <= k < |rows| :: rows[j].date <= rows[k].date
  }

  /** On a table in date order every recorded trade exits no earlier than it
      entered, so its holding period is never negative. */
  lemma HoldingPeriodNonNegative(p: Params, rows: seq<Row>, j: int)
    requires ValuesUsable(p.mode, rows) && DatesOrdered(rows)
    requires 0 <= j < |SimulateSpec(p, rows)|
    ensures SimulateSpec(p, rows)[j].entryDate <= SimulateSpec(p, rows)[j].exitDate
    ensures SimulateSpec(p, rows)[j].holdingPeriod >= 0
  {
    SimulatedTrade(p, rows, j);
    TradeOkFacts(p, rows, SimulateSpec(p, rows)[j]);
  }

  /** The LONG and SHORT entry crossings never hold together, whatever the
      entry threshold. */
  lemma EntryCrossingsExclusive(prevZ: real, currZ: real, entryZ: real)
    ensures !((prevZ > -entryZ && currZ <= -entryZ) && (prevZ < entryZ && currZ >= entryZ))
  {
  }

  /** The run on a prefix of the table records a prefix of the trades of the
      whole table: a trade's outcome never depends on rows after its exit. */
  lemma {:induction false} RunPrefix(p: Params, rows: seq<Row>, n: int, i: int, open: Option<OpenTrade>, trades: seq<Trade>)
    requires 1 <= i <= n <= |rows|
    requires OpenBefore(rows, open, i) && ValuesUsable(p.mode, rows)
    ensures OpenBefore(rows[..n], open, i) && ValuesUsable(p.mode, rows[..n])
    ensures Run(p, rows[..n], i, open, trades) <= Run(p, rows, i, open, trades)
    decreases n - i
  {
    if i < n {
      StepPrefix(p, rows, n, i, open, trades);
      var next := Step(p, rows, i, open, trades);
      RunPrefix(p, rows, n, i + 1, next.0, next.1);
    }
  }

  /** The loop body at a row before `n` does the same on the table cut after `n` rows. */
  lemma StepPrefix(p: Params, rows: seq<Row>, n: int, i: int, open: Option<OpenTrade>, trades: seq<Trade>)
    requires 1 <= i < n <= |rows|
    requires OpenBefore(rows, open, i) && ValuesUsable(p.mode, rows)
    ensures OpenBefore(rows[..n], open, i) && ValuesUsable(p.mode, rows[..n])
    ensures Step(p, rows[..n], i, open, trades) == Step(p, rows, i, open, trades)
  {
    var pre := rows[..n];
    assert EntryAt(p, pre, i) == EntryAt(p, rows, i);
    if open.Some? {
      var t := open.value;
      assert ExitAt(p, pre, t, i) == ExitAt(p, rows, t, i);
      assert pre[t.entryIndex..i + 1] == rows[t.entryIndex..i + 1];
      assert CloseTrade(p, pre, t, i) == CloseTrade(p, rows, t, i);
    } else if EntryAt(p, rows, i).Some? {
      assert OpenAt(pre, i, EntryAt(p, rows, i).value) == OpenAt(rows, i, EntryAt(p, rows, i).value);
    }
  }

  /** Backtesting a table cut short after `n` rows records a prefix of the
      trades of the full table. */
  lemma SimulatePrefix(p: Params, rows: seq<Row>, n: int)
    requires 0 <= n <= |rows| && ValuesUsable(p.mode, rows)
    ensures ValuesUsable(p.mode, rows[..n])
    ensures SimulateSpec(p, rows[..n]) <= SimulateSpec(p, rows)
  {
    if n == 0 {
      assert SimulateSpec(p, rows[..n]) == [];
    } else {
      RunPrefix(p, rows, n, 1, None, []);
    }
  }

  /** A worked table: the z-score crosses 2 upwards at row 1 (SHORT on the
      spread at 11), crosses 1 downwards at row 3 (exit at 9). The one trade
      holds 2 days, earns 2 and saw the spread rise to 12 on the way, a
      drawdown of 1. */
  lemma ShortRoundTrip()
    ensures var rows := [Row(0, 0.0, 0.0, 10.0, 0.0, None), Row(1, 0.0, 0.0, 11.0, 2.1, None),
                         Row(2, 0.0, 0.0, 12.0, 2.3, None), Row(3, 0.0, 0.0, 9.0, 0.9, None),
                         Row(4, 0.0, 0.0, 8.0, 0.2, None)];
      SimulateSpec(Params(SpreadMode, 2.0, 1.0), rows)
        == [Trade(1, 3, Short, 1, 3, 2, 2.0, 1.0, None, None)]
  {
    var rows := [Row(0, 0.0, 0.0, 10.0, 0.0, None), Row(1, 0.0, 0.0, 11.0, 2.1, None),
                 Row(2, 0.0, 0.0, 12.0, 2.3, None), Row(3, 0.0, 0.0, 9.0, 0.9, None),
                 Row(4, 0.0, 0.0, 8.0, 0.2, None)];
    var p := Params(SpreadMode, 2.0, 1.0);
    var t := OpenAt(rows, 1, Short);
    assert EntryAt(p, rows, 1) == Some(Short);
    assert !ExitAt(p, rows, t, 2) && ExitAt(p, rows, t, 3);
    var window := rows[1..4];
    assert window == [rows[1], rows[2], rows[3]];
    assert window[..2] == [rows[1], rows[2]];
    assert window[..2][..1] == [rows[1]];
    assert MaxDrawdown(SpreadMode, Short, 11.0, [rows[1]]) == 0.0;
    assert MaxDrawdown(SpreadMode, Short, 11.0, [rows[1], rows[2]]) == 1.0;
    assert MaxDrawdown(SpreadMode, Short, 11.0, window) == 1.0;
    var tr := CloseTrade(p, rows, t, 3);
    assert tr == Trade(1, 3, Short, 1, 3, 2, 2.0, 1.0, None, None);
    assert EntryAt(p, rows, 4) == None;
    assert Step(p, rows, 1, None, []) == (Some(t), []);
    assert Step(p, rows, 2, Some(t), []) == (Some(t), []);
    assert [] + [tr] == [tr];
    assert Step(p, rows, 3, Some(t), []) == (None, [tr]);
    assert Step(p, rows, 4, None, [tr]) == (None, [tr]);
    calc {
      SimulateSpec(p, rows);
      Run(p, rows, 2, Some(t), []);
      Run(p, rows, 3, Some(t), []);
      Run(p, rows, 4, None, [tr]);
      Run(p, rows, 5, None, [tr]);
    }
  }

  /** Dates that skip: LONG opens at row 1 (day 1), no z-score exit fires,
      and the next row is day 20, so the time stop closes the trade there
      after 19 days, more than the 15 the stop names. */
  lemma LongHeldPastTimeStop()
    ensures var rows := [Row(0, 0.0, 0.0, 5.0, 0.0, None), Row(1, 0.0, 0.0, 5.0, -2.5, None),
                         Row(2, 0.0, 0.0, 4.0, -2.6, None), Row(20, 0.0, 0.0, 6.0, -2.7, None)];
      SimulateSpec(Params(SpreadMode, 2.0, 1.0), rows)
        == [Trade(1, 20, Long, 1, 3, 19, 1.0, 1.0, None, None)]
  {
    var rows := [Row(0, 0.0, 0.0, 5.0, 0.0, None), Row(1, 0.0, 0.0, 5.0, -2.5, None),
                 Row(2, 0.0, 0.0, 4.0, -2.6, None), Row(20, 0.0, 0.0, 6.0, -2.7, None)];
    var p := Params(SpreadMode, 2.0, 1.0);
    var t := OpenAt(rows, 1, Long);
    assert EntryAt(p, rows, 1) == Some(Long);
    assert !ExitAt(p, rows, t, 2) && ExitAt(p, rows, t, 3);
    var window := rows[1..4];
    assert window == [rows[1], rows[2], rows[3]];
    assert window[..2] == [rows[1], rows[2]];
    assert window[..2][..1] == [rows[1]];
    assert MaxDrawdown(SpreadMode, Long, 5.0, [rows[1]]) == 0.0;
    assert MaxDrawdown(SpreadMode, Long, 5.0, [rows[1], rows[2]]) == 1.0;
    assert MaxDrawdown(SpreadMode, Long, 5.0, window) == 1.0;
    var tr := CloseTrade(p, rows, t, 3);
    assert tr == Trade(1, 20, Long, 1, 3, 19, 1.0, 1.0, None, None);
    assert Step(p, rows, 1, None, []) == (Some(t), []);
    assert Step(p, rows, 2, Some(t), []) == (Some(t), []);
    assert [] + [tr] == [tr];
    assert Step(p, rows, 3, Some(t), []) == (None, [tr]);
    calc {
      SimulateSpec(p, rows);
      Run(p, rows, 2, Some(t), []);
      Run(p, rows, 3, Some(t), []);
      Run(p, rows, 4, None, [tr]);
    }
  }

  /** A trade still open when the table ends is not recorded: LONG opens at
      row 1 and no exit rule fires at row 2, the last row. */
  lemma OpenTradeDropped()
    ensures var rows := [Row(0, 0.0, 0.0, 1.0, 0.0, None), Row(1, 0.0, 0.0, 1.0, -2.5, None),
                         Row(2, 0.0, 0.0, 1.0, -3.0, None)];
      SimulateSpec(Params(RatioMode, 2.0, 1.0), rows) == []
  {
    var rows := [Row(0, 0.0, 0.0, 1.0, 0.0, None), Row(1, 0.0, 0.0, 1.0, -2.5, None),
                 Row(2, 0.0, 0.0, 1.0, -3.0, None)];
    var p := Params(RatioMode, 2.0, 1.0);
    var t := OpenAt(rows, 1, Long);
    assert EntryAt(p, rows, 1) == Some(Long);
    assert !ExitAt(p, rows, t, 2);
    calc {
      SimulateSpec(p, rows);
      Run(p, rows, 2, Some(t), []);
      Run(p, rows, 3, Some(t), []);
    }
  }

  /** A fact about the two signals alone: a z-score move that is an entry
      crossing of a kind is never the exit crossing of the same kind,
      whatever the two thresholds, so on that move the exit rule reduces to
      its time-stop clause. (The loop itself never tests the exit on the
      entry row.) */
  lemma EntryMoveIsNoExitCrossing(prevZ: real, currZ: real, entryZ: real, exitZ: real, kind: Kind, holdingPeriod: int)
    requires EntrySignal(prevZ, currZ, entryZ) == Some(kind)
    ensures ExitSignal(kind, prevZ, currZ, exitZ, holdingPeriod) <==> holdingPeriod >= MaxHoldingDays
  {
  }

  /** Two entry crossings after the same exit, each with none before it, are
      the same row: the first one. */
  lemma FirstEntry(p: Params, rows: seq<Row>, last: int, e1: int, e2: int)
    requires last < e1 && last < e2 && 1 <= e1 < |rows| && 1 <= e2 < |rows|
    requires EntryAt(p, rows, e1).Some? && Quiet(p, rows, last + 1, e1)
    requires EntryAt(p, rows, e2).Some? && Quiet(p, rows, last + 1, e2)
    ensures e1 == e2
  {
  }

  /** Two rows after entry where the exit rule fires for the first time are
      the same row. */
  lemma FirstExit(p: Params, rows: seq<Row>, t: OpenTrade, e: int, x1: int, x2: int)
    requires e < x1 < |rows| && e < x2 < |rows| && 1 <= x1 && 1 <= x2
    requires HeldThrough(p, rows, t, e + 1, x1) && ExitAt(p, rows, t, x1)
    requires HeldThrough(p, rows, t, e + 1, x2) && ExitAt(p, rows, t, x2)
    ensures x1 == x2
  {
  }

  /** Two chains that agree before trade `j` have the same trade `j`. */
  lemma SameNextTrade(p: Params, rows: seq<Row>, a: seq<Trade>, b: seq<Trade>, j: int)
    requires Chain(p, rows, a) && Chain(p, rows, b)
    requires 0 <= j < |a| && j < |b| && PrevExit(a, j) == PrevExit(b, j)
    ensures a[j] == b[j]
  {
    var last := PrevExit(a, j);
    assert PrevExit(b, j) < b[j].entryIndex && Quiet(p, rows, last + 1, b[j].entryIndex);
    var ta, tb := a[j], b[j];
    assert TradeOk(p, rows, ta) && TradeOk(p, rows, tb);
    FirstEntry(p, rows, last, ta.entryIndex, tb.entryIndex);
    var e := ta.entryIndex;
    assert ta.kind == tb.kind;
    var t := OpenAt(rows, e, ta.kind);
    FirstExit(p, rows, t, e, ta.exitIndex, tb.exitIndex);
  }

  /** Two complete results agree on their first `j` trades. */
  lemma {:induction false} CompletePrefixesAgree(p: Params, rows: seq<Row>, a: seq<Trade>, b: seq<Trade>, j: int)
    requires Complete(p, rows, a) && Complete(p, rows, b)
    requires 0 <= j <= |a| && j <= |b|
    ensures forall k | 0 <= k < j :: a[k] == b[k]
    ensures PrevExit(a, j) == PrevExit(b, j)
    decreases j
  {
    if j > 0 {
      CompletePrefixesAgree(p, rows, a, b, j - 1);
      SameNextTrade(p, rows, a, b, j - 1);
    }
  }

  /** A chain that agrees with a complete result before the result's last
      trade has no further trade: its next entry crossing would be the one
      after the result's last exit, and that trade never closes. */
  lemma CompleteHasNoNext(p: Params, rows: seq<Row>, a: seq<Trade>, b: seq<Trade>)
    requires Complete(p, rows, a) && Chain(p, rows, b)
    requires |a| <= |b| && PrevExit(a, |a|) == PrevExit(b, |a|)
    ensures |b| == |a|
  {
    if |a| < |b| {
      assert false;
    }
  }

  /** The rules pin the trades down: there is exactly one complete result. */
  lemma CompleteUnique(p: Params, rows: seq<Row>, a: seq<Trade>, b: seq<Trade>)
    requires Complete(p, rows, a) && Complete(p, rows, b)
    ensures a == b
  {
    var n := if |a| <= |b| then |a| else |b|;
    CompletePrefixesAgree(p, rows, a, b, n);
    if |a| <= |b| {
      CompleteHasNoNext(p, rows, a, b);
    } else {
      CompleteHasNoNext(p, rows, b, a);
    }
    assert a == b;
  }

  /** The loop records exactly the trades the rules describe: a list of
      trades is complete if and only if it is what the loop records. */
  lemma SimulateExactly(p: Params, rows: seq<Row>, trades: seq<Trade>)
    requires ValuesUsable(p.mode, rows)
    ensures Complete(p, rows, trades) <==> trades == SimulateSpec(p, rows)
  {
    SimulateComplete(p, rows);
    if Complete(p, rows, trades) {
      CompleteUnique(p, rows, trades, SimulateSpec(p, rows));
    }
  }
}
