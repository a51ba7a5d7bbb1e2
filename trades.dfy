/** The trade loop that both backtest pages run over their table rows: a
    two-state machine that is either flat or holds one LONG or SHORT trade,
    opens on a z-score crossing of the entry threshold and closes on the
    reverse crossing of the exit threshold or after 15 days. The spread page
    and the ratio page differ only in how a row's value turns into profit and
    drawdown, which `Mode` selects. */
module Trades {
  import opened Wrappers

  /** Spread mode (the dynamic-spread page) or ratio mode (the price-ratio page). */
  datatype Mode = SpreadMode | RatioMode

  datatype Kind = Long | Short

  /** One row of the table the trade loop reads: the date, both closes, the
      traded value (the spread or the ratio), its z-score and, in spread
      mode, the hedge ratio of that bar. */
  datatype Row = Row(date: int, closeA: real, closeB: real, value: real, zScore: real, hedge: Option<real>)

  /** The open trade: where and how it was entered. */
  datatype OpenTrade = OpenTrade(entryDate: int, kind: Kind, entryIndex: int, entryValue: real, entryHedge: Option<real>)

  /** A closed trade as the pages record it. The row indices of entry and exit
      are kept alongside so that properties can be stated about them. */
  datatype Trade = Trade(entryDate: int, exitDate: int, kind: Kind, entryIndex: int, exitIndex: int,
                         holdingPeriod: int, profit: real, maxDrawdown: real,
                         entryHedge: Option<real>, exitHedge: Option<real>)

  /** The user's thresholds and the mode of the page. */
  datatype Params = Params(mode: Mode, entryZ: real, exitZ: real)

  /** The time stop: a trade held this many days or more is closed. */
  const MaxHoldingDays: int := 15

  /** Which trade, if any, a flat book opens on the move `prevZ -> currZ`:
      LONG on a downward cross of `-entryZ`, otherwise SHORT on an upward
      cross of `entryZ`. */
  function EntrySignal(prevZ: real, currZ: real, entryZ: real): (r: Option<Kind>)
    ensures r == Some(Long) <==> prevZ > -entryZ && currZ <= -entryZ
    ensures r == Some(Short) <==> prevZ < entryZ && currZ >= entryZ && !(prevZ > -entryZ && currZ <= -entryZ)
  {
    if prevZ > -entryZ && currZ <= -entryZ then Some(Long)
    else if prevZ < entryZ && currZ >= entryZ then Some(Short)
    else None
  }

  /** Whether an open trade of `kind` held for `holdingPeriod` days closes on
      the move `prevZ -> currZ`. */
  predicate ExitSignal(kind: Kind, prevZ: real, currZ: real, exitZ: real, holdingPeriod: int) {
    (kind == Long && prevZ < -exitZ && currZ >= -exitZ)
    || (kind == Short && prevZ > exitZ && currZ <= exitZ)
    || holdingPeriod >= MaxHoldingDays
  }

  /** The entry signal at row `i`, from the z-scores of rows `i - 1` and `i`. */
  function EntryAt(p: Params, rows: seq<Row>, i: int): Option<Kind>
    requires 1 <= i < |rows|
  {
    EntrySignal(rows[i - 1].zScore, rows[i].zScore, p.entryZ)
  }

  /** Whether the open trade `t` closes at row `i`. */
  predicate ExitAt(p: Params, rows: seq<Row>, t: OpenTrade, i: int)
    requires 1 <= i < |rows|
  {
    ExitSignal(t.kind, rows[i - 1].zScore, rows[i].zScore, p.exitZ, rows[i].date - t.entryDate)
  }

  /** The trade opened at row `i`. */
  function OpenAt(rows: seq<Row>, i: int, kind: Kind): OpenTrade
    requires 0 <= i < |rows|
  {
    OpenTrade(rows[i].date, kind, i, rows[i].value, rows[i].hedge)
  }

  /** An open trade that really was opened at a row before `i`. */
  predicate OpenBefore(rows: seq<Row>, open: Option<OpenTrade>, i: int) {
    open.Some? ==>
      0 <= open.value.entryIndex < i && open.value.entryIndex < |rows|
      && open.value == OpenAt(rows, open.value.entryIndex, open.value.kind)
  }

  /** Ratio mode divides by the value at entry; the page relies on closes
      that are never zero. */
  predicate ValuesUsable(mode: Mode, rows: seq<Row>) {
    mode == RatioMode ==> forall k | 0 <= k < |rows| :: rows[k].value != 0.0
  }

  /** An amount in the unit the page reports it in: price units for the
      spread, percent for the ratio. */
  function Scaled(mode: Mode, x: real): (r: real)
    ensures r > 0.0 <==> x > 0.0
    ensures r >= 0.0 <==> x >= 0.0
  {
    match mode
    case SpreadMode => x
    case RatioMode => 100.0 * x
  }

  /** How far the value has moved in the trade's favour since entry: the
      difference in spread mode, the relative change in ratio mode. */
  function Excursion(mode: Mode, kind: Kind, entry: real, v: real): (r: real)
    requires mode == RatioMode ==> entry != 0.0
    ensures v == entry ==> r == 0.0
  {
    var move := match kind case Long => v - entry case Short => entry - v;
    match mode
    case SpreadMode => move
    case RatioMode => move / entry
  }

  /** No move is no excursion, and a trade is in profit exactly when the value
      moved its way: up for LONG, down for SHORT (reversed in ratio mode for a
      negative entry value, which divides). */
  lemma ExcursionSign(mode: Mode, kind: Kind, entry: real, v: real)
    requires mode == RatioMode ==> entry != 0.0
    ensures v == entry ==> Excursion(mode, kind, entry, v) == 0.0
    ensures kind == Long ==>
      (Excursion(mode, kind, entry, v) > 0.0 <==> (if mode == RatioMode && entry < 0.0 then v < entry else v > entry))
    ensures kind == Short ==>
      (Excursion(mode, kind, entry, v) > 0.0 <==> (if mode == RatioMode && entry < 0.0 then v > entry else v < entry))
  {
    if mode == RatioMode {
      var move := match kind case Long => v - entry case Short => entry - v;
      assert Excursion(mode, kind, entry, v) == move / entry;
      assert move / entry > 0.0 <==> (move > 0.0 && entry > 0.0) || (move < 0.0 && entry < 0.0);
    }
  }

  /** The traded values of some rows. */
  function Values(rows: seq<Row>): (r: seq<real>)
    ensures |r| == |rows| && forall k | 0 <= k < |rows| :: r[k] == rows[k].value
  {
    seq(|rows|, k requires 0 <= k < |rows| => rows[k].value)
  }

  /** `Math.max` over the drawdowns of a window of rows, a drawdown being
      the negated excursion of a row's value: the largest loss the trade saw. */
  function MaxDrawdown(mode: Mode, kind: Kind, entry: real, window: seq<Row>): (r: real)
    requires |window| > 0 && (mode == RatioMode ==> entry != 0.0)
    ensures r >= -Excursion(mode, kind, entry, window[|window| - 1].value)
    ensures window[0].value == entry ==> r >= 0.0
  {
    var n := |window| - 1;
    var d := -Excursion(mode, kind, entry, window[n].value);
    if n == 0 then d
    else
      var rest := MaxDrawdown(mode, kind, entry, window[..n]);
      if rest >= d then rest else d
  }

  /** The maximum drawdown is at least the drawdown at every row of the
      window, and is the drawdown at one of them. */
  lemma {:induction false} MaxDrawdownIsMax(mode: Mode, kind: Kind, entry: real, window: seq<Row>)
    requires |window| > 0 && (mode == RatioMode ==> entry != 0.0)
    ensures forall k | 0 <= k < |window| ::
      -Excursion(mode, kind, entry, window[k].value) <= MaxDrawdown(mode, kind, entry, window)
    ensures exists k | 0 <= k < |window| ::
      MaxDrawdown(mode, kind, entry, window) == -Excursion(mode, kind, entry, window[k].value)
  {
    var n := |window| - 1;
    if n > 0 {
      var front := window[..n];
      MaxDrawdownIsMax(mode, kind, entry, front);
      assert forall k | 0 <= k < n :: front[k] == window[k];
      var j :| 0 <= j < n && MaxDrawdown(mode, kind, entry, front) == -Excursion(mode, kind, entry, front[j].value);
      var d := -Excursion(mode, kind, entry, window[n].value);
      if MaxDrawdown(mode, kind, entry, front) >= d {
        assert MaxDrawdown(mode, kind, entry, window) == -Excursion(mode, kind, entry, window[j].value);
      } else {
        assert MaxDrawdown(mode, kind, entry, window) == -Excursion(mode, kind, entry, window[n].value);
      }
    }
  }

  /** The trade `t` closed at row `i`: profit is the scaled excursion at
      exit, max drawdown the scaled largest loss over rows entry..exit. */
  function CloseTrade(p: Params, rows: seq<Row>, t: OpenTrade, i: int): (r: Trade)
    requires OpenBefore(rows, Some(t), i) && i < |rows|
    requires p.mode == RatioMode ==> t.entryValue != 0.0
    ensures r.entryIndex == t.entryIndex < r.exitIndex == i
  {
    var maxDrawdown := MaxDrawdown(p.mode, t.kind, t.entryValue, rows[t.entryIndex..i + 1]);
    Trade(t.entryDate, rows[i].date, t.kind, t.entryIndex, i, rows[i].date - t.entryDate,
          Scaled(p.mode, Excursion(p.mode, t.kind, t.entryValue, rows[i].value)),
          Scaled(p.mode, maxDrawdown),
          t.entryHedge, rows[i].hedge)
  }

  /** A closed trade's profit is its excursion at exit, in the page's unit,
      and is positive exactly when the excursion is; its drawdown is never
      negative (the entry row loses nothing) and covers the loss at exit. */
  lemma CloseTradeFacts(p: Params, rows: seq<Row>, t: OpenTrade, i: int)
    requires OpenBefore(rows, Some(t), i) && i < |rows|
    requires p.mode == RatioMode ==> t.entryValue != 0.0
    ensures CloseTrade(p, rows, t, i).profit == Scaled(p.mode, Excursion(p.mode, t.kind, t.entryValue, rows[i].value))
    ensures CloseTrade(p, rows, t, i).profit > 0.0 <==> Excursion(p.mode, t.kind, t.entryValue, rows[i].value) > 0.0
    ensures CloseTrade(p, rows, t, i).maxDrawdown >= 0.0
    ensures CloseTrade(p, rows, t, i).maxDrawdown >= -CloseTrade(p, rows, t, i).profit
  {
    var window := rows[t.entryIndex..i + 1];
    MaxDrawdownIsMax(p.mode, t.kind, t.entryValue, window);
    assert window[0].value == t.entryValue && window[|window| - 1] == rows[i];
    ExcursionSign(p.mode, t.kind, t.entryValue, t.entryValue);
    var loss := -Excursion(p.mode, t.kind, t.entryValue, rows[i].value);
    var m := MaxDrawdown(p.mode, t.kind, t.entryValue, window);
    assert 0.0 <= m && loss <= m;
    assert Scaled(p.mode, m) >= Scaled(p.mode, -loss) * -1.0 by {
      match p.mode {
        case SpreadMode =>
        case RatioMode =>
      }
    }
  }

  /** One pass of the loop body at row `i`: flat, open on an entry
      crossing; holding, close and record the trade when its exit rule fires. */
  function Step(p: Params, rows: seq<Row>, i: int, open: Option<OpenTrade>, trades: seq<Trade>)
    : (r: (Option<OpenTrade>, seq<Trade>))
    requires 1 <= i < |rows| && OpenBefore(rows, open, i) && ValuesUsable(p.mode, rows)
    ensures OpenBefore(rows, r.0, i + 1)
    ensures r.1 == trades || (open.Some? && r.0.None? && r.1 == trades + [CloseTrade(p, rows, open.value, i)])
  {
    match open
    case None =>
      (match EntryAt(p, rows, i)
       case None => (None, trades)
       case Some(kind) => (Some(OpenAt(rows, i, kind)), trades))
    case Some(t) =>
      if ExitAt(p, rows, t, i) then (None, trades + [CloseTrade(p, rows, t, i)]) else (open, trades)
  }

  /** The trade loop from row `i` on, with `open` and `trades` the state
      before row `i`. A trade still open after the last row is dropped. */
  function Run(p: Params, rows: seq<Row>, i: int, open: Option<OpenTrade>, trades: seq<Trade>): (r: seq<Trade>)
    requires 1 <= i && OpenBefore(rows, open, i) && ValuesUsable(p.mode, rows)
    ensures trades <= r
    decreases |rows| - i
  {
    if i >= |rows| then trades
    else
      var next := Step(p, rows, i, open, trades);
      Run(p, rows, i + 1, next.0, next.1)
  }

  /** The loop from row `i` is one step at row `i`, then the loop from `i + 1`. */
  lemma RunUnfold(p: Params, rows: seq<Row>, i: int, open: Option<OpenTrade>, trades: seq<Trade>)
    requires 1 <= i < |rows| && OpenBefore(rows, open, i) && ValuesUsable(p.mode, rows)
    ensures Run(p, rows, i, open, trades)
         == Run(p, rows, i + 1, Step(p, rows, i, open, trades).0, Step(p, rows, i, open, trades).1)
  {
  }

  /** The trades of a whole table: the loop runs from row 1, flat. */
  function SimulateSpec(p: Params, rows: seq<Row>): seq<Trade>
    requires ValuesUsable(p.mode, rows)
  {
    Run(p, rows, 1, None, [])
  }

  /** The trade loop of `runBacktest`. */
  method Simulate(p: Params, rows: seq<Row>) returns (trades: seq<Trade>)
    requires ValuesUsable(p.mode, rows)
    ensures trades == SimulateSpec(p, rows)
  {
    trades := [];
    var openTrade: Option<OpenTrade> := None;
    var i := 1;
    while i < |rows|
      invariant 1 <= i && OpenBefore(rows, openTrade, i)
      invariant Run(p, rows, i, openTrade, trades) == SimulateSpec(p, rows)
      decreases |rows| - i
    {
      ghost var before := (openTrade, trades);
      var prevZ := rows[i - 1].zScore;
      var currZ := rows[i].zScore;
      if openTrade.None? {
        if prevZ > -p.entryZ && currZ <= -p.entryZ {
          openTrade := Some(OpenAt(rows, i, Long));
        } else if prevZ < p.entryZ && currZ >= p.entryZ {
          openTrade := Some(OpenAt(rows, i, Short));
        }
        assert (openTrade, trades) == Step(p, rows, i, None, trades);
      } else {
        var t := openTrade.value;
        var holdingPeriod := rows[i].date - t.entryDate;
        var exitCondition :=
          (t.kind == Long && prevZ < -p.exitZ && currZ >= -p.exitZ)
          || (t.kind == Short && prevZ > p.exitZ && currZ <= p.exitZ)
          || holdingPeriod >= MaxHoldingDays;
        if exitCondition {
          trades := trades + [CloseTrade(p, rows, t, i)];
          openTrade := None;
        }
        assert (openTrade, trades) == Step(p, rows, i, Some(t), before.1);
      }
      RunUnfold(p, rows, i, before.0, before.1);
      i := i + 1;
    }
  }
}
