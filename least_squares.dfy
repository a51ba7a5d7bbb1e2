/** Least-squares reading of the rolling hedge ratio: off the fallback, the
    ratio and its intercept are exactly the solution of the two normal
    equations of a regression of A's closes on B's closes over the window. */
module LeastSquares {
  import opened Bars
  import opened HedgeRatio

  /** Off the fallback, the hedge ratio is the ordinary least-squares slope of
      A's closes on B's closes over the window: with the intercept that goes
      with it, the residuals `A_k.close - alpha - beta * B_k.close` sum to 0
      (the first normal equation). */
  lemma ResidualsSumToZero(pricesA: seq<Bar>, pricesB: seq<Bar>, i: int, w: int, alpha: real, beta: real)
    requires 0 <= i < |pricesA| && i < |pricesB|
    requires w > 0 && Denominator(pricesA, pricesB, i, w) != 0.0
    requires alpha == Intercept(pricesA, pricesB, i, w) && beta == HedgeRatioAt(pricesA, pricesB, i, w)
    ensures ResidualSum(pricesA, pricesB, WindowStart(i, w), i + 1, alpha, beta) == 0.0
  {
    var s := SumsAt(pricesA, pricesB, i, w);
    WindowNormalSolution(pricesA, pricesB, i, w, s, alpha, beta);
    ResidualSumAt(pricesA, pricesB, i, w, s, alpha, beta);
  }

  /** With the same line, the residuals are orthogonal to B's closes (the
      second normal equation). */
  lemma ResidualsOrthogonalToB(pricesA: seq<Bar>, pricesB: seq<Bar>, i: int, w: int, alpha: real, beta: real)
    requires 0 <= i < |pricesA| && i < |pricesB|
    requires w > 0 && Denominator(pricesA, pricesB, i, w) != 0.0
    requires alpha == Intercept(pricesA, pricesB, i, w) && beta == HedgeRatioAt(pricesA, pricesB, i, w)
    ensures ResidualCross(pricesA, pricesB, WindowStart(i, w), i + 1, alpha, beta) == 0.0
  {
    var s := SumsAt(pricesA, pricesB, i, w);
    WindowNormalSolution(pricesA, pricesB, i, w, s, alpha, beta);
    ResidualCrossAt(pricesA, pricesB, i, w, s, alpha, beta);
  }

  /** Conversely, a line `alpha + beta * B` whose residuals over the window
      satisfy both normal equations is the hedge ratio with its intercept. */
  lemma NormalEquationsGiveHedgeRatio(pricesA: seq<Bar>, pricesB: seq<Bar>, i: int, w: int, alpha: real, beta: real)
    requires 0 <= i < |pricesA| && i < |pricesB|
    requires w > 0 && Denominator(pricesA, pricesB, i, w) != 0.0
    requires ResidualSum(pricesA, pricesB, WindowStart(i, w), i + 1, alpha, beta) == 0.0
    requires ResidualCross(pricesA, pricesB, WindowStart(i, w), i + 1, alpha, beta) == 0.0
    ensures beta == HedgeRatioAt(pricesA, pricesB, i, w)
    ensures alpha == Intercept(pricesA, pricesB, i, w)
  {
    var s := SumsAt(pricesA, pricesB, i, w);
    ResidualSumAt(pricesA, pricesB, i, w, s, alpha, beta);
    ResidualCrossAt(pricesA, pricesB, i, w, s, alpha, beta);
    WindowSolutionUnique(pricesA, pricesB, i, w, s, alpha, beta);
  }
}
