/** The rolling z-score column: for each row, the score routine is applied to
    the trailing window of values ending at that row, and the last score it
    returns is kept. The score routine itself lives in a utility file that is
    not part of this model, so it is a parameter here. */
module RollingZScore {
  import opened Wrappers
  import opened Bars
  import HedgeRatio

  /** `values.slice(max(0, i - w + 1), i + 1)`: the trailing window of at most
      `w` values ending at `i`; empty when `w <= 0`, since the slice start then
      lies past its end. */
  function TrailingWindow(values: seq<real>, i: int, w: int): (r: seq<real>)
    requires 0 <= i < |values|
    ensures |r| == if w <= 0 then 0 else Min(i + 1, w)
    ensures forall k | 0 <= k < |r| :: r[k] == values[i + 1 - |r| + k]
  {
    var lo := HedgeRatio.WindowStart(i, w);
    if lo <= i then values[lo..i + 1] else []
  }

  /** `.pop()` of an array: its last element, or nothing when it is empty. */
  function Last(s: seq<real>): (r: Option<real>)
    ensures r.Some? <==> |s| > 0
    ensures r.Some? ==> r.value == s[|s| - 1]
  {
    if |s| == 0 then None else Some(s[|s| - 1])
  }

  /** The score of every row: the last score of its trailing window. */
  function ZScoresOf(values: seq<real>, w: int, zscore: seq<real> -> seq<real>): (r: seq<Option<real>>)
    ensures |r| == |values|
  {
    seq(|values|, i requires 0 <= i < |values| => Last(zscore(TrailingWindow(values, i, w))))
  }

  /** The z-score loop: one optional score per value. */
  method RollingZScores(values: seq<real>, w: int, zscore: seq<real> -> seq<real>)
    returns (zScores: seq<Option<real>>)
    ensures |zScores| == |values|
    ensures forall i | 0 <= i < |values| :: zScores[i] == Last(zscore(TrailingWindow(values, i, w)))
    ensures zScores == ZScoresOf(values, w, zscore)
  {
    zScores := [];
    var i := 0;
    while i < |values|
      invariant 0 <= i <= |values| && |zScores| == i
      invariant forall k | 0 <= k < i :: zScores[k] == Last(zscore(TrailingWindow(values, k, w)))
    {
      var start := Max(0, i - w + 1);
      var windowData := if start <= i then values[start..i + 1] else [];
      zScores := zScores + [Last(zscore(windowData))];
      i := i + 1;
    }
  }

  /** The window at `i` reads no value after `i`: two value series that agree
      up to `i` give the same window, hence the same score. */
  lemma ZScoreReadsOnlyPast(values: seq<real>, other: seq<real>, i: int, w: int, zscore: seq<real> -> seq<real>)
    requires 0 <= i < |values| && i < |other|
    requires values[..i + 1] == other[..i + 1]
    ensures TrailingWindow(values, i, w) == TrailingWindow(other, i, w)
    ensures Last(zscore(TrailingWindow(values, i, w))) == Last(zscore(TrailingWindow(other, i, w)))
  {
    var a, b := TrailingWindow(values, i, w), TrailingWindow(other, i, w);
    forall k | 0 <= k < |a|
      ensures a[k] == b[k]
    {
      var j := i + 1 - |a| + k;
      assert values[j] == values[..i + 1][j] && other[j] == other[..i + 1][j];
    }
  }

  /** With a window of at least one value, the window ends with the value of
      row `i` itself. */
  lemma WindowEndsAtRow(values: seq<real>, i: int, w: int)
    requires 0 <= i < |values| && w >= 1
    ensures |TrailingWindow(values, i, w)| >= 1
    ensures TrailingWindow(values, i, w)[|TrailingWindow(values, i, w)| - 1] == values[i]
  {
  }
}
