/** `calculateHedgeRatio` of the spread page: the least-squares slope of A's
    closes on B's closes over the trailing window that ends at a bar. */
module HedgeRatio {
  import opened Bars

  /** First index of the trailing window of `w` bars ending at `i`:
      `max(0, i - w + 1)`. For `w <= 0` it lies past `i`, and the window is empty. */
  function WindowStart(i: int, w: int): int { Max(0, i - w + 1) }

  /** Number of bars in `[lo, hi)`, as the JavaScript number the loop counts. */
  function Count(lo: int, hi: int): real
    decreases hi - lo
  {
    if hi <= lo then 0.0 else Count(lo, hi - 1) + 1.0
  }

  /** Sum of the closes of `bars[lo..hi]`. */
  function SumClose(bars: seq<Bar>, lo: int, hi: int): real
    requires 0 <= lo && (lo < hi ==> hi <= |bars|)
    decreases hi - lo
  {
    if hi <= lo then 0.0 else SumClose(bars, lo, hi - 1) + bars[hi - 1].close
  }

  /** Sum of `a[k].close * b[k].close` over `[lo, hi)`. */
  function SumCross(a: seq<Bar>, b: seq<Bar>, lo: int, hi: int): real
    requires 0 <= lo && (lo < hi ==> hi <= |a| && hi <= |b|)
    decreases hi - lo
  {
    if hi <= lo then 0.0 else SumCross(a, b, lo, hi - 1) + a[hi - 1].close * b[hi - 1].close
  }

  /** One more bar at the end of the window adds its terms to every sum. */
  lemma SumsStep(a: seq<Bar>, b: seq<Bar>, lo: int, hi: int)
    requires 0 <= lo < hi <= |a| && hi <= |b|
    ensures Count(lo, hi) == Count(lo, hi - 1) + 1.0
    ensures SumClose(a, lo, hi) == SumClose(a, lo, hi - 1) + a[hi - 1].close
    ensures SumClose(b, lo, hi) == SumClose(b, lo, hi - 1) + b[hi - 1].close
    ensures SumCross(a, b, lo, hi) == SumCross(a, b, lo, hi - 1) + a[hi - 1].close * b[hi - 1].close
    ensures SumCross(b, b, lo, hi) == SumCross(b, b, lo, hi - 1) + b[hi - 1].close * b[hi - 1].close
  {
  }

  /** The slope from the window's count and sums: 1 when the window is empty
      or `n*SB2 - SB^2` is zero, otherwise `(n*SAB - SA*SB) / (n*SB2 - SB^2)`. */
  function SlopeFromSums(n: real, sumA: real, sumB: real, sumAB: real, sumB2: real): real {
    if n == 0.0 || n * sumB2 - sumB * sumB == 0.0 then 1.0
    else (n * sumAB - sumA * sumB) / (n * sumB2 - sumB * sumB)
  }

  /** The count and the four sums of the window ending at `i`. */
  datatype WindowSums = WindowSums(count: real, sumA: real, sumB: real, sumAB: real, sumB2: real)

  function SumsAt(pricesA: seq<Bar>, pricesB: seq<Bar>, i: int, w: int): WindowSums
    requires 0 <= i < |pricesA| && i < |pricesB|
  {
    var lo := WindowStart(i, w);
    WindowSums(Count(lo, i + 1), SumClose(pricesA, lo, i + 1), SumClose(pricesB, lo, i + 1),
               SumCross(pricesA, pricesB, lo, i + 1), SumCross(pricesB, pricesB, lo, i + 1))
  }

  /** `count * sumB2 - sumB * sumB` over the window ending at `i`. */
  function Denominator(pricesA: seq<Bar>, pricesB: seq<Bar>, i: int, w: int): real
    requires 0 <= i < |pricesA| && i < |pricesB|
  {
    var s := SumsAt(pricesA, pricesB, i, w);
    s.count * s.sumB2 - s.sumB * s.sumB
  }

  /** `count * sumAB - sumA * sumB` over the window ending at `i`. */
  function Numerator(pricesA: seq<Bar>, pricesB: seq<Bar>, i: int, w: int): real
    requires 0 <= i < |pricesA| && i < |pricesB|
  {
    var s := SumsAt(pricesA, pricesB, i, w);
    s.count * s.sumAB - s.sumA * s.sumB
  }

  /** The hedge ratio at bar `i` with window size `w`. */
  function HedgeRatioAt(pricesA: seq<Bar>, pricesB: seq<Bar>, i: int, w: int): (r: real)
    requires 0 <= i < |pricesA| && i < |pricesB|
    ensures w <= 0 ==> r == 1.0
  {
    WindowCount(i, w);
    var s := SumsAt(pricesA, pricesB, i, w);
    SlopeFromSums(s.count, s.sumA, s.sumB, s.sumAB, s.sumB2)
  }

  lemma SlopeFromSumsCases(n: real, sumA: real, sumB: real, sumAB: real, sumB2: real)
    ensures n == 0.0 || n * sumB2 - sumB * sumB == 0.0 ==> SlopeFromSums(n, sumA, sumB, sumAB, sumB2) == 1.0
    ensures n != 0.0 && n * sumB2 - sumB * sumB != 0.0 ==>
      SlopeFromSums(n, sumA, sumB, sumAB, sumB2) == (n * sumAB - sumA * sumB) / (n * sumB2 - sumB * sumB)
  {
  }

  /** An empty window has count and sums 0. */
  lemma EmptyWindow(a: seq<Bar>, b: seq<Bar>, lo: int, hi: int)
    requires 0 <= lo && hi <= lo
    ensures Count(lo, hi) == 0.0 && SumClose(a, lo, hi) == 0.0 && SumClose(b, lo, hi) == 0.0
    ensures SumCross(a, b, lo, hi) == 0.0 && SumCross(b, b, lo, hi) == 0.0
  {
  }

  /** The loop of `calculateHedgeRatio`: accumulate the four sums and the
      count over `[startIdx, currentIndex]`, then divide, with fallback 1. */
  method CalculateHedgeRatio(pricesA: seq<Bar>, pricesB: seq<Bar>, currentIndex: int, windowSize: int)
    returns (beta: real)
    requires 0 <= currentIndex < |pricesA| && currentIndex < |pricesB|
    ensures beta == HedgeRatioAt(pricesA, pricesB, currentIndex, windowSize)
  {
    var startIdx := Max(0, currentIndex - windowSize + 1);
    var endIdx := currentIndex + 1;
    var sumA, sumB, sumAB, sumB2 := 0.0, 0.0, 0.0, 0.0;
    var count := 0.0;
    var i := startIdx;
    while i < endIdx
      invariant startIdx <= i && (i == startIdx || i <= endIdx)
      invariant count == Count(startIdx, i)
      invariant sumA == SumClose(pricesA, startIdx, i)
      invariant sumB == SumClose(pricesB, startIdx, i)
      invariant sumAB == SumCross(pricesA, pricesB, startIdx, i)
      invariant sumB2 == SumCross(pricesB, pricesB, startIdx, i)
      decreases endIdx - i
    {
      SumsStep(pricesA, pricesB, startIdx, i + 1);
      sumA := sumA + pricesA[i].close;
      sumB := sumB + pricesB[i].close;
      sumAB := sumAB + pricesA[i].close * pricesB[i].close;
      sumB2 := sumB2 + pricesB[i].close * pricesB[i].close;
      count := count + 1.0;
      i := i + 1;
    }
    if count == 0.0 || count * sumB2 - sumB * sumB == 0.0 {
      beta := 1.0;
    } else {
      beta := (count * sumAB - sumA * sumB) / (count * sumB2 - sumB * sumB);
    }
    SlopeFromSumsCases(count, sumA, sumB, sumAB, sumB2);
    if i != endIdx {
      EmptyWindow(pricesA, pricesB, startIdx, i);
      EmptyWindow(pricesA, pricesB, startIdx, endIdx);
    }
  }

  lemma {:induction false} CountIsLength(lo: int, hi: int)
    ensures Count(lo, hi) == if lo < hi then (hi - lo) as real else 0.0
    decreases hi - lo
  {
    if lo < hi {
      CountIsLength(lo, hi - 1);
    }
  }

  /** The window ending at `i` holds `min(i + 1, w)` bars, and none when `w <= 0`. */
  lemma WindowCount(i: int, w: int)
    requires 0 <= i
    ensures Count(WindowStart(i, w), i + 1) == if w <= 0 then 0.0 else Min(i + 1, w) as real
  {
    CountIsLength(WindowStart(i, w), i + 1);
  }

  lemma {:induction false} SumClosePrefix(bars: seq<Bar>, other: seq<Bar>, lo: int, hi: int)
    requires 0 <= lo && (lo < hi ==> hi <= |bars| && hi <= |other|)
    requires forall k | lo <= k < hi :: bars[k].close == other[k].close
    ensures SumClose(bars, lo, hi) == SumClose(other, lo, hi)
  {
    if lo < hi {
      SumClosePrefix(bars, other, lo, hi - 1);
    }
  }

  lemma {:induction false} SumCrossPrefix(a: seq<Bar>, b: seq<Bar>, a2: seq<Bar>, b2: seq<Bar>, lo: int, hi: int)
    requires 0 <= lo && (lo < hi ==> hi <= |a| && hi <= |b| && hi <= |a2| && hi <= |b2|)
    requires forall k | lo <= k < hi :: a[k].close == a2[k].close && b[k].close == b2[k].close
    ensures SumCross(a, b, lo, hi) == SumCross(a2, b2, lo, hi)
  {
    if lo < hi {
      SumCrossPrefix(a, b, a2, b2, lo, hi - 1);
    }
  }

  /** The hedge ratio at `i` reads only the bars `max(0, i - w + 1)..i`:
      two pairs of histories whose closes agree there give the same ratio,
      whatever they hold before the window or after `i`. */
  lemma HedgeRatioReadsOnlyWindow(pricesA: seq<Bar>, pricesB: seq<Bar>, otherA: seq<Bar>, otherB: seq<Bar>, i: int, w: int)
    requires 0 <= i < |pricesA| && i < |pricesB| && i < |otherA| && i < |otherB|
    requires forall k | WindowStart(i, w) <= k <= i ::
      pricesA[k].close == otherA[k].close && pricesB[k].close == otherB[k].close
    ensures HedgeRatioAt(pricesA, pricesB, i, w) == HedgeRatioAt(otherA, otherB, i, w)
  {
    var lo := WindowStart(i, w);
    SumClosePrefix(pricesA, otherA, lo, i + 1);
    SumClosePrefix(pricesB, otherB, lo, i + 1);
    SumCrossPrefix(pricesA, pricesB, otherA, otherB, lo, i + 1);
    SumCrossPrefix(pricesB, pricesB, otherB, otherB, lo, i + 1);
  }

  lemma {:induction false} ConstantSums(bars: seq<Bar>, lo: int, hi: int, c: real)
    requires 0 <= lo && (lo < hi ==> hi <= |bars|)
    requires forall k | lo <= k < hi :: bars[k].close == c
    ensures SumClose(bars, lo, hi) == Count(lo, hi) * c
    ensures SumCross(bars, bars, lo, hi) == Count(lo, hi) * (c * c)
  {
    if lo < hi {
      ConstantSums(bars, lo, hi - 1, c);
    }
  }

  /** When B's close is constant over the window the denominator vanishes and
      the ratio falls back to 1; an empty window also gives 1. */
  lemma ConstantBGivesOne(pricesA: seq<Bar>, pricesB: seq<Bar>, i: int, w: int, c: real)
    requires 0 <= i < |pricesA| && i < |pricesB|
    requires forall k | WindowStart(i, w) <= k <= i :: pricesB[k].close == c
    ensures Denominator(pricesA, pricesB, i, w) == 0.0
    ensures HedgeRatioAt(pricesA, pricesB, i, w) == 1.0
  {
    var lo := WindowStart(i, w);
    ConstantSums(pricesB, lo, i + 1, c);
    var n := Count(lo, i + 1);
    assert n * (n * (c * c)) == (n * c) * (n * c);
  }

  /** Two series with the same closes over `[lo, hi)` have the same sums there. */
  lemma {:induction false} EqualSums(a: seq<Bar>, b: seq<Bar>, lo: int, hi: int)
    requires 0 <= lo && (lo < hi ==> hi <= |a| && hi <= |b|)
    requires forall k | lo <= k < hi :: a[k].close == b[k].close
    ensures SumClose(a, lo, hi) == SumClose(b, lo, hi)
    ensures SumCross(a, b, lo, hi) == SumCross(b, b, lo, hi)
    decreases hi - lo
  {
    if lo < hi {
      EqualSums(a, b, lo, hi - 1);
    }
  }

  /** With A's sums equal to B's, the slope is `d / d`, i.e. 1, or the fallback 1. */
  lemma SelfSlope(n: real, sumB: real, sumB2: real)
    ensures SlopeFromSums(n, sumB, sumB, sumB2, sumB2) == 1.0
  {
    var d := n * sumB2 - sumB * sumB;
    if n != 0.0 && d != 0.0 {
      assert d / d == 1.0;
    }
  }

  /** A stock hedged against itself has hedge ratio 1: when A's and B's
      closes agree over the window, the slope is 1, whether or not the
      denominator vanishes. */
  lemma HedgeRatioOfIdenticalPair(pricesA: seq<Bar>, pricesB: seq<Bar>, i: int, w: int)
    requires 0 <= i < |pricesA| && i < |pricesB|
    requires forall k | WindowStart(i, w) <= k <= i :: pricesA[k].close == pricesB[k].close
    ensures HedgeRatioAt(pricesA, pricesB, i, w) == 1.0
  {
    var lo := WindowStart(i, w);
    EqualSums(pricesA, pricesB, lo, i + 1);
    SelfSlope(Count(lo, i + 1), SumClose(pricesB, lo, i + 1), SumCross(pricesB, pricesB, lo, i + 1));
  }

  /** Sum of the residuals `A_k.close - alpha - beta * B_k.close` over `[lo, hi)`. */
  function ResidualSum(a: seq<Bar>, b: seq<Bar>, lo: int, hi: int, alpha: real, beta: real): real
    requires 0 <= lo && (lo < hi ==> hi <= |a| && hi <= |b|)
    decreases hi - lo
  {
    if hi <= lo then 0.0
    else ResidualSum(a, b, lo, hi - 1, alpha, beta) + (a[hi - 1].close - alpha - beta * b[hi - 1].close)
  }

  /** Sum of `B_k.close * (A_k.close - alpha - beta * B_k.close)` over `[lo, hi)`. */
  function ResidualCross(a: seq<Bar>, b: seq<Bar>, lo: int, hi: int, alpha: real, beta: real): real
    requires 0 <= lo && (lo < hi ==> hi <= |a| && hi <= |b|)
    decreases hi - lo
  {
    if hi <= lo then 0.0 else
      ResidualCross(a, b, lo, hi - 1, alpha, beta) + b[hi - 1].close * (a[hi - 1].close - alpha - beta * b[hi - 1].close)
  }

  /** The residual sum in terms of the window's count and sums. */
  lemma {:induction false} ResidualSumClosed(a: seq<Bar>, b: seq<Bar>, lo: int, hi: int, alpha: real, beta: real)
    requires 0 <= lo && (lo < hi ==> hi <= |a| && hi <= |b|)
    ensures ResidualSum(a, b, lo, hi, alpha, beta)
      == SumClose(a, lo, hi) - Count(lo, hi) * alpha - beta * SumClose(b, lo, hi)
    decreases hi - lo
  {
    if lo < hi {
      ResidualSumClosed(a, b, lo, hi - 1, alpha, beta);
      var c := Count(lo, hi - 1);
      assert (c + 1.0) * alpha == c * alpha + alpha;
      assert beta * (SumClose(b, lo, hi - 1) + b[hi - 1].close) == beta * SumClose(b, lo, hi - 1) + beta * b[hi - 1].close;
    }
  }

  lemma Distributes(p: real, q: real, r: real)
    ensures p * (q + r) == p * q + p * r
  {
  }

  /** The residuals weighted by B's closes, in terms of the window's sums. */
  lemma {:induction false} ResidualCrossClosed(a: seq<Bar>, b: seq<Bar>, lo: int, hi: int, alpha: real, beta: real)
    requires 0 <= lo && (lo < hi ==> hi <= |a| && hi <= |b|)
    ensures ResidualCross(a, b, lo, hi, alpha, beta)
      == SumCross(a, b, lo, hi) - alpha * SumClose(b, lo, hi) - beta * SumCross(b, b, lo, hi)
    decreases hi - lo
  {
    if lo < hi {
      ResidualCrossClosed(a, b, lo, hi - 1, alpha, beta);
      var x, y := a[hi - 1].close, b[hi - 1].close;
      var sb, sbb := SumClose(b, lo, hi - 1), SumCross(b, b, lo, hi - 1);
      assert y * (x - alpha - beta * y) == x * y - alpha * y - beta * (y * y);
      assert ResidualCross(a, b, lo, hi, alpha, beta)
        == SumCross(a, b, lo, hi - 1) - alpha * sb - beta * sbb + (x * y - alpha * y - beta * (y * y));
      assert SumClose(b, lo, hi) == sb + y;
      assert SumCross(b, b, lo, hi) == sbb + y * y;
      Distributes(alpha, sb, y);
      Distributes(beta, sbb, y * y);
    }
  }

  /** The intercept of the least-squares line through the window's sums:
      `(sumA - beta*sumB) / n`, and 0 for an empty window. */
  function InterceptFromSums(n: real, sumA: real, sumB: real, beta: real): real {
    if n == 0.0 then 0.0 else (sumA - beta * sumB) / n
  }

  /** With a non-empty window and a non-zero denominator `d`, the slope and
      intercept computed from the sums solve the normal equations
      `sa - n*alpha - beta*sb == 0` and `sab - alpha*sb - beta*sbb == 0`. */
  lemma NormalSolution(n: real, sa: real, sb: real, sab: real, sbb: real, d: real, alpha: real, beta: real)
    requires n != 0.0 && d == n * sbb - sb * sb && d != 0.0
    requires beta == SlopeFromSums(n, sa, sb, sab, sbb) && alpha == InterceptFromSums(n, sa, sb, beta)
    ensures sa - n * alpha - beta * sb == 0.0
    ensures sab - alpha * sb - beta * sbb == 0.0
  {
    var num := n * sab - sa * sb;
    assert beta == num / d;
    assert beta * d == num;
    assert n * alpha == sa - beta * sb;
    NormalIdentity(n, sa, sb, sab, sbb, alpha, beta);
  }

  /** ... and they are its only solution. */
  lemma NormalUnique(n: real, sa: real, sb: real, sab: real, sbb: real, d: real,
                     alpha0: real, beta0: real, alpha: real, beta: real)
    requires n != 0.0 && d == n * sbb - sb * sb && d != 0.0
    requires beta0 == SlopeFromSums(n, sa, sb, sab, sbb) && alpha0 == InterceptFromSums(n, sa, sb, beta0)
    requires sa - n * alpha - beta * sb == 0.0 && sab - alpha * sb - beta * sbb == 0.0
    ensures beta == beta0
    ensures alpha == alpha0
  {
    var num := n * sab - sa * sb;
    NormalIdentity(n, sa, sb, sab, sbb, alpha, beta);
    assert beta * d == num;
    assert alpha * n == sa - beta * sb;
  }

  /** `n` times the second normal equation, in terms of the first one. */
  lemma NormalIdentity(n: real, sa: real, sb: real, sab: real, sbb: real, alpha: real, beta: real)
    ensures n * (sab - alpha * sb - beta * sbb)
      == (n * sab - sa * sb) + (sa - n * alpha - beta * sb) * sb - beta * (n * sbb - sb * sb)
  {
    assert n * (sab - alpha * sb - beta * sbb) == n * sab - n * alpha * sb - n * beta * sbb;
    assert (sa - n * alpha - beta * sb) * sb == sa * sb - n * alpha * sb - beta * (sb * sb);
    assert beta * (n * sbb - sb * sb) == n * beta * sbb - beta * (sb * sb);
  }

  /** The intercept that goes with the hedge ratio at `i`. */
  function Intercept(pricesA: seq<Bar>, pricesB: seq<Bar>, i: int, w: int): real
    requires 0 <= i < |pricesA| && i < |pricesB|
  {
    var s := SumsAt(pricesA, pricesB, i, w);
    InterceptFromSums(s.count, s.sumA, s.sumB, HedgeRatioAt(pricesA, pricesB, i, w))
  }

  /** The window's count, denominator, hedge ratio and intercept in terms of
      its sums `s`. */
  lemma SumsAtFacts(pricesA: seq<Bar>, pricesB: seq<Bar>, i: int, w: int, s: WindowSums)
    requires 0 <= i < |pricesA| && i < |pricesB|
    requires s == SumsAt(pricesA, pricesB, i, w)
    ensures w > 0 ==> s.count != 0.0
    ensures Denominator(pricesA, pricesB, i, w) == s.count * s.sumB2 - s.sumB * s.sumB
    ensures HedgeRatioAt(pricesA, pricesB, i, w) == SlopeFromSums(s.count, s.sumA, s.sumB, s.sumAB, s.sumB2)
    ensures Intercept(pricesA, pricesB, i, w) == InterceptFromSums(s.count, s.sumA, s.sumB, HedgeRatioAt(pricesA, pricesB, i, w))
  {
    WindowCount(i, w);
  }

  /** The window's residual sums in terms of its sums `s`. */
  lemma ResidualSumAt(pricesA: seq<Bar>, pricesB: seq<Bar>, i: int, w: int, s: WindowSums, alpha: real, beta: real)
    requires 0 <= i < |pricesA| && i < |pricesB|
    requires s == SumsAt(pricesA, pricesB, i, w)
    ensures ResidualSum(pricesA, pricesB, WindowStart(i, w), i + 1, alpha, beta) == s.sumA - s.count * alpha - beta * s.sumB
  {
    ResidualSumClosed(pricesA, pricesB, WindowStart(i, w), i + 1, alpha, beta);
  }

  lemma ResidualCrossAt(pricesA: seq<Bar>, pricesB: seq<Bar>, i: int, w: int, s: WindowSums, alpha: real, beta: real)
    requires 0 <= i < |pricesA| && i < |pricesB|
    requires s == SumsAt(pricesA, pricesB, i, w)
    ensures ResidualCross(pricesA, pricesB, WindowStart(i, w), i + 1, alpha, beta) == s.sumAB - alpha * s.sumB - beta * s.sumB2
  {
    ResidualCrossClosed(pricesA, pricesB, WindowStart(i, w), i + 1, alpha, beta);
  }

  /** The hedge ratio and its intercept solve the normal equations of the window's sums. */
  lemma WindowNormalSolution(pricesA: seq<Bar>, pricesB: seq<Bar>, i: int, w: int, s: WindowSums, alpha: real, beta: real)
    requires 0 <= i < |pricesA| && i < |pricesB|
    requires s == SumsAt(pricesA, pricesB, i, w)
    requires w > 0 && Denominator(pricesA, pricesB, i, w) != 0.0
    requires alpha == Intercept(pricesA, pricesB, i, w) && beta == HedgeRatioAt(pricesA, pricesB, i, w)
    ensures s.sumA - s.count * alpha - beta * s.sumB == 0.0
    ensures s.sumAB - alpha * s.sumB - beta * s.sumB2 == 0.0
  {
    SumsAtFacts(pricesA, pricesB, i, w, s);
    NormalSolution(s.count, s.sumA, s.sumB, s.sumAB, s.sumB2, Denominator(pricesA, pricesB, i, w), alpha, beta);
  }

  /** The window's normal equations, written over its sums, have the hedge
      ratio and its intercept as their only solution. */
  lemma WindowSolutionUnique(pricesA: seq<Bar>, pricesB: seq<Bar>, i: int, w: int, s: WindowSums, alpha: real, beta: real)
    requires 0 <= i < |pricesA| && i < |pricesB|
    requires s == SumsAt(pricesA, pricesB, i, w)
    requires w > 0 && Denominator(pricesA, pricesB, i, w) != 0.0
    requires s.sumA - s.count * alpha - beta * s.sumB == 0.0
    requires s.sumAB - alpha * s.sumB - beta * s.sumB2 == 0.0
    ensures beta == HedgeRatioAt(pricesA, pricesB, i, w)
    ensures alpha == Intercept(pricesA, pricesB, i, w)
  {
    SumsAtFacts(pricesA, pricesB, i, w, s);
    var alpha0, beta0 := Intercept(pricesA, pricesB, i, w), HedgeRatioAt(pricesA, pricesB, i, w);
    NormalUnique(s.count, s.sumA, s.sumB, s.sumAB, s.sumB2, Denominator(pricesA, pricesB, i, w), alpha0, beta0, alpha, beta);
  }

  /** The ratio falls back to 1 exactly in the two guarded cases, an empty
      window (`w <= 0`) or a vanishing denominator; otherwise it is the
      least-squares slope `(n*SAB - SA*SB) / (n*SB2 - SB^2)`. */
  lemma HedgeRatioCases(pricesA: seq<Bar>, pricesB: seq<Bar>, i: int, w: int)
    requires 0 <= i < |pricesA| && i < |pricesB|
    ensures w <= 0 || Denominator(pricesA, pricesB, i, w) == 0.0 ==> HedgeRatioAt(pricesA, pricesB, i, w) == 1.0
    ensures w > 0 && Denominator(pricesA, pricesB, i, w) != 0.0 ==>
      HedgeRatioAt(pricesA, pricesB, i, w) == Numerator(pricesA, pricesB, i, w) / Denominator(pricesA, pricesB, i, w)
  {
    WindowCount(i, w);
  }
}
