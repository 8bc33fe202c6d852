/**
 * Ordinary least-squares statistics of paired samples (x, y), over exact reals.
 *
 * Every sum is defined recursively from the back of the sequence, so that a
 * loop which adds element i after elements 0..i-1 keeps its accumulator equal
 * to the sum of the prefix it has seen.
 */
module LeastSquares {
  import opened Algebra

  /** Σ sᵢ */
  function Sum(s: seq<real>): real
  {
    if |s| == 0 then 0.0 else Sum(s[..|s| - 1]) + s[|s| - 1]
  }

  /** The arithmetic mean Σ sᵢ / n. */
  function Mean(s: seq<real>): real
    requires |s| > 0
  {
    Sum(s) / |s| as real
  }

  /** Σ (sᵢ − c)², the squared deviations of s about the centre c. */
  function SumSqDev(s: seq<real>, c: real): (r: real)
    ensures r >= 0.0
  {
    if |s| == 0 then 0.0
    else
      SquareNonNegative(s[|s| - 1] - c);
      SumSqDev(s[..|s| - 1], c) + Sq(s[|s| - 1] - c)
  }

  /** Σ (sᵢ − c), the deviations of s about the centre c. */
  function SumDev(s: seq<real>, c: real): real
  {
    if |s| == 0 then 0.0 else SumDev(s[..|s| - 1], c) + (s[|s| - 1] - c)
  }

  /** Σ (xᵢ − cx)(yᵢ − cy), the cross deviations of x and y about (cx, cy). */
  function SumCrossDev(x: seq<real>, y: seq<real>, cx: real, cy: real): real
    requires |x| == |y|
  {
    if |x| == 0 then 0.0
    else SumCrossDev(x[..|x| - 1], y[..|y| - 1], cx, cy) + Cross(x[|x| - 1] - cx, y[|y| - 1] - cy)
  }

  /** Σ (a·xᵢ + b − yᵢ)², the residual sum of squares of the line y = a·x + b. */
  function Rss(x: seq<real>, y: seq<real>, a: real, b: real): (r: real)
    requires |x| == |y|
    ensures r >= 0.0
  {
    if |x| == 0 then 0.0
    else
      SquareNonNegative(a * x[|x| - 1] + b - y[|y| - 1]);
      Rss(x[..|x| - 1], y[..|y| - 1], a, b) + Sq(a * x[|x| - 1] + b - y[|y| - 1])
  }

  /** Σ (a·xᵢ + b − c)², the squared deviations of the fitted values about c. */
  function Ssr(x: seq<real>, a: real, b: real, c: real): (r: real)
    ensures r >= 0.0
  {
    if |x| == 0 then 0.0
    else
      SquareNonNegative(a * x[|x| - 1] + b - c);
      Ssr(x[..|x| - 1], a, b, c) + Sq(a * x[|x| - 1] + b - c)
  }

  /** Σ (sᵢ − s̄)²: Sxx for the predictor, Syy for the response. */
  function CentredSumSq(s: seq<real>): real
    requires |s| > 0
  {
    SumSqDev(s, Mean(s))
  }

  /** Sxy = Σ (xᵢ − x̄)(yᵢ − ȳ). */
  function CentredCross(x: seq<real>, y: seq<real>): real
    requires |x| == |y| > 0
  {
    SumCrossDev(x, y, Mean(x), Mean(y))
  }

  /** The inputs on which every statistic of the fit is defined. */
  predicate WellPosed(x: seq<real>, y: seq<real>)
  {
    |x| == |y| && |x| >= 3 && CentredSumSq(x) != 0.0 && CentredSumSq(y) != 0.0
  }

  /** The least-squares slope Sxy / Sxx. */
  function FitSlope(x: seq<real>, y: seq<real>): real
    requires |x| == |y| > 0 && CentredSumSq(x) != 0.0
  {
    CentredCross(x, y) / CentredSumSq(x)
  }

  /** The least-squares intercept ȳ − slope·x̄. */
  function FitIntercept(x: seq<real>, y: seq<real>): real
    requires |x| == |y| > 0 && CentredSumSq(x) != 0.0
  {
    Mean(y) - FitSlope(x, y) * Mean(x)
  }

  /** RSS of the fitted line. */
  function FitRss(x: seq<real>, y: seq<real>): real
    requires |x| == |y| > 0 && CentredSumSq(x) != 0.0
  {
    Rss(x, y, FitSlope(x, y), FitIntercept(x, y))
  }

  /** SSR of the fitted line: the fitted values' squared deviations about ȳ. */
  function FitSsr(x: seq<real>, y: seq<real>): real
    requires |x| == |y| > 0 && CentredSumSq(x) != 0.0
  {
    Ssr(x, FitSlope(x, y), FitIntercept(x, y), Mean(y))
  }

  /** The coefficient of determination SSR / Syy. */
  function FitR2(x: seq<real>, y: seq<real>): real
    requires WellPosed(x, y)
  {
    FitSsr(x, y) / CentredSumSq(y)
  }

  /** The residual variance RSS / (n − 2). */
  function ResidualVariance(x: seq<real>, y: seq<real>): real
    requires WellPosed(x, y)
  {
    FitRss(x, y) / (|x| - 2) as real
  }

  /** The estimated variance of the slope, the square of its standard error. */
  function SlopeVariance(x: seq<real>, y: seq<real>): real
    requires WellPosed(x, y)
  {
    ResidualVariance(x, y) / CentredSumSq(x)
  }

  /** The estimated variance of the intercept, the square of its standard error. */
  function InterceptVariance(x: seq<real>, y: seq<real>): real
    requires WellPosed(x, y)
  {
    ResidualVariance(x, y) / |x| as real + Mean(x) * Mean(x) * SlopeVariance(x, y)
  }


  // ---------------------------------------------------------------------------
  // Expansions about arbitrary centres
  // ---------------------------------------------------------------------------

  /** Each sum over a non-empty sample is the sum over all but its last element plus that element's term. */
  lemma LastTerms(x: seq<real>, y: seq<real>, a: real, b: real, cx: real, cy: real)
    requires |x| == |y| > 0
    ensures SumSqDev(x, cx) == SumSqDev(x[..|x| - 1], cx) + Sq(x[|x| - 1] - cx)
    ensures SumSqDev(y, cy) == SumSqDev(y[..|y| - 1], cy) + Sq(y[|y| - 1] - cy)
    ensures SumDev(x, cx) == SumDev(x[..|x| - 1], cx) + (x[|x| - 1] - cx)
    ensures SumDev(y, cy) == SumDev(y[..|y| - 1], cy) + (y[|y| - 1] - cy)
    ensures SumCrossDev(x, y, cx, cy)
            == SumCrossDev(x[..|x| - 1], y[..|y| - 1], cx, cy) + Cross(x[|x| - 1] - cx, y[|y| - 1] - cy)
    ensures Rss(x, y, a, b) == Rss(x[..|x| - 1], y[..|y| - 1], a, b) + Sq(a * x[|x| - 1] + b - y[|y| - 1])
  {
  }

  /** The RSS and SSR of a prefix one sample longer add that sample's squared residual and fitted deviation. */
  lemma ResidualSumsExtend(x: seq<real>, y: seq<real>, i: nat, a: real, b: real, c: real)
    requires |x| == |y| && i < |x|
    ensures Rss(x[..i + 1], y[..i + 1], a, b) == Rss(x[..i], y[..i], a, b) + Sq(a * x[i] + b - y[i])
    ensures Ssr(x[..i + 1], a, b, c) == Ssr(x[..i], a, b, c) + Sq(a * x[i] + b - c)
  {
    var x', y' := x[..i + 1], y[..i + 1];
    assert x'[..|x'| - 1] == x[..i] && y'[..|y'| - 1] == y[..i];
    assert x'[|x'| - 1] == x[i] && y'[|y'| - 1] == y[i];
  }

  /**
   * The RSS of any line (a, b), expanded about any centres (cx, cy): each
   * residual is a·(xᵢ − cx) − (yᵢ − cy) + (a·cx + b − cy).
   */
  lemma {:induction false} RssExpansion(x: seq<real>, y: seq<real>, a: real, b: real, cx: real, cy: real)
    requires |x| == |y|
    decreases |x|
    ensures Rss(x, y, a, b)
            == RssPoly(a, a * cx + b - cy, |x| as real, SumSqDev(x, cx), SumCrossDev(x, y, cx, cy),
                       SumSqDev(y, cy), SumDev(x, cx), SumDev(y, cy))
  {
    if |x| > 0 {
      var x', y' := x[..|x| - 1], y[..|y| - 1];
      RssExpansion(x', y', a, b, cx, cy);
      LastTerms(x, y, a, b, cx, cy);
      ResidualStep(a, b, cx, cy, x[|x| - 1], y[|y| - 1], |x'| as real, |x| as real,
                   SumSqDev(x', cx), SumCrossDev(x', y', cx, cy), SumSqDev(y', cy),
                   SumDev(x', cx), SumDev(y', cy), Rss(x', y', a, b),
                   SumSqDev(x, cx), SumCrossDev(x, y, cx, cy), SumSqDev(y, cy),
                   SumDev(x, cx), SumDev(y, cy), Rss(x, y, a, b));
    } else {
      RssPolyDef(a, a * cx + b - cy, 0.0, 0.0, 0.0, 0.0, 0.0, 0.0);
    }
  }

  /** The SSR of any line (a, b) about cy, expanded about any predictor centre cx. */
  lemma {:induction false} SsrExpansion(x: seq<real>, a: real, b: real, cx: real, cy: real)
    decreases |x|
    ensures Ssr(x, a, b, cy) == SsrPoly(a, a * cx + b - cy, |x| as real, SumSqDev(x, cx), SumDev(x, cx))
  {
    if |x| > 0 {
      var x' := x[..|x| - 1];
      SsrExpansion(x', a, b, cx, cy);
      RegressionStep(a, b, cx, cy, x[|x| - 1], |x'| as real, |x| as real,
                     SumSqDev(x', cx), SumDev(x', cx), Ssr(x', a, b, cy),
                     SumSqDev(x, cx), SumDev(x, cx), Ssr(x, a, b, cy));
    } else {
      SsrPolyDef(a, a * cx + b - cy, 0.0, 0.0, 0.0);
    }
  }

  /** The deviations about c add up to Σ sᵢ − n·c. */
  lemma {:induction false} SumDevValue(s: seq<real>, c: real)
    decreases |s|
    ensures SumDev(s, c) == Sum(s) - |s| as real * c
  {
    if |s| > 0 {
      var s' := s[..|s| - 1];
      SumDevValue(s', c);
      CentredStep(s[|s| - 1], c, |s'| as real, Sum(s'), SumDev(s', c), |s| as real, Sum(s), SumDev(s, c));
    }
  }

  /** Deviations about the mean sum to zero. */
  lemma MeanBalances(s: seq<real>)
    requires |s| > 0
    ensures SumDev(s, Mean(s)) == 0.0
  {
    SumDevValue(s, Mean(s));
    MeanTimesCount(Sum(s), |s| as real);
  }

  /**
   * About the means the linear terms of the expansion vanish: the RSS of any
   * line (a, b) is a²·Sxx − 2a·Sxy + Syy + n·c², where c = a·x̄ + b − ȳ.
   */
  lemma RssAboutMeans(x: seq<real>, y: seq<real>, a: real, b: real)
    requires |x| == |y| > 0
    ensures Rss(x, y, a, b)
            == RssPoly(a, a * Mean(x) + b - Mean(y), |x| as real,
                       CentredSumSq(x), CentredCross(x, y), CentredSumSq(y), 0.0, 0.0)
  {
    RssExpansion(x, y, a, b, Mean(x), Mean(y));
    MeanBalances(x);
    MeanBalances(y);
  }

  /** About x̄, the SSR of any line (a, b) about cy is a²·Sxx + n·c², where c = a·x̄ + b − cy. */
  lemma SsrAboutMeans(x: seq<real>, a: real, b: real, cy: real)
    requires |x| > 0
    ensures Ssr(x, a, b, cy) == SsrPoly(a, a * Mean(x) + b - cy, |x| as real, CentredSumSq(x), 0.0)
  {
    SsrExpansion(x, a, b, Mean(x), cy);
    MeanBalances(x);
  }

  // ---------------------------------------------------------------------------
  // Properties of the fitted line
  // ---------------------------------------------------------------------------

  /** The fitted line passes through the centre (x̄, ȳ). */
  lemma FitThroughMeans(x: seq<real>, y: seq<real>)
    requires |x| == |y| > 0 && CentredSumSq(x) != 0.0
    ensures FitSlope(x, y) * Mean(x) + FitIntercept(x, y) == Mean(y)
  {
  }

  /** The RSS of the fitted line is Syy − slope·Sxy; its SSR is slope·Sxy = slope²·Sxx. */
  lemma FitSumsOfSquares(x: seq<real>, y: seq<real>)
    requires |x| == |y| > 0 && CentredSumSq(x) != 0.0
    ensures FitRss(x, y) == CentredSumSq(y) - FitSlope(x, y) * CentredCross(x, y)
    ensures FitSsr(x, y) == FitSlope(x, y) * CentredCross(x, y)
    ensures FitSsr(x, y) == Sq(FitSlope(x, y)) * CentredSumSq(x)
  {
    var s, b := FitSlope(x, y), FitIntercept(x, y);
    var n, sxx, sxy, syy := |x| as real, CentredSumSq(x), CentredCross(x, y), CentredSumSq(y);
    assert s * Mean(x) + b - Mean(y) == 0.0 by {
      FitThroughMeans(x, y);
    }
    assert FitRss(x, y) == RssPoly(s, 0.0, n, sxx, sxy, syy, 0.0, 0.0) by {
      RssAboutMeans(x, y, s, b);
    }
    assert FitSsr(x, y) == SsrPoly(s, 0.0, n, sxx, 0.0) by {
      SsrAboutMeans(x, s, b, Mean(y));
    }
    AtSlope(s, n, sxx, sxy, syy);
  }

  /** The fitted line splits the response's variation: RSS + SSR = Syy. */
  lemma SumOfSquaresDecomposition(x: seq<real>, y: seq<real>)
    requires |x| == |y| > 0 && CentredSumSq(x) != 0.0
    ensures FitRss(x, y) + FitSsr(x, y) == CentredSumSq(y)
  {
    FitSumsOfSquares(x, y);
  }

  /**
   * Any line (a, b) exceeds the fitted line's RSS by Sxx·(a − slope)² plus
   * n·(a·x̄ + b − ȳ)², the squared distance by which it misses the centre.
   */
  lemma RssExcess(x: seq<real>, y: seq<real>, a: real, b: real)
    requires |x| == |y| > 0 && CentredSumSq(x) != 0.0
    ensures Rss(x, y, a, b)
            == FitRss(x, y) + CentredSumSq(x) * Sq(a - FitSlope(x, y)) + |x| as real * Sq(a * Mean(x) + b - Mean(y))
  {
    RssAboutMeans(x, y, a, b);
    FitSumsOfSquares(x, y);
    CompleteSquare(a, FitSlope(x, y), a * Mean(x) + b - Mean(y), |x| as real,
                   CentredSumSq(x), CentredCross(x, y), CentredSumSq(y));
  }

  /**
   * The fitted line minimises the residual sum of squares: every line (a, b)
   * has an RSS at least as large, and equal only for the fitted line itself.
   */
  lemma FitMinimisesRss(x: seq<real>, y: seq<real>, a: real, b: real)
    requires |x| == |y| > 0 && CentredSumSq(x) != 0.0
    ensures Rss(x, y, a, b) >= FitRss(x, y)
    ensures Rss(x, y, a, b) == FitRss(x, y) <==> a == FitSlope(x, y) && b == FitIntercept(x, y)
  {
    var s, c := FitSlope(x, y), a * Mean(x) + b - Mean(y);
    assert Rss(x, y, a, b) >= FitRss(x, y) && (Rss(x, y, a, b) == FitRss(x, y) <==> a - s == 0.0 && c == 0.0) by {
      RssExcess(x, y, a, b);
      WeightedSquaresZero(CentredSumSq(x), a - s, |x| as real, c);
    }
    assert a == s && c == 0.0 <==> a == s && b == FitIntercept(x, y);
  }

  /** A line with zero RSS passes through every sample. */
  lemma {:induction false} RssZeroOnlyIfExact(x: seq<real>, y: seq<real>, a: real, b: real)
    requires |x| == |y| && Rss(x, y, a, b) == 0.0
    decreases |x|
    ensures forall i :: 0 <= i < |x| ==> a * x[i] + b == y[i]
  {
    if |x| > 0 {
      var x', y' := x[..|x| - 1], y[..|y| - 1];
      SquareZero(a * x[|x| - 1] + b - y[|y| - 1]);
      RssZeroOnlyIfExact(x', y', a, b);
      forall i | 0 <= i < |x| ensures a * x[i] + b == y[i] {
        if i < |x| - 1 {
          assert x'[i] == x[i] && y'[i] == y[i];
        }
      }
    }
  }

  /** A line through every sample has zero RSS. */
  lemma {:induction false} ExactHasZeroRss(x: seq<real>, y: seq<real>, a: real, b: real)
    requires |x| == |y| && forall i :: 0 <= i < |x| ==> a * x[i] + b == y[i]
    decreases |x|
    ensures Rss(x, y, a, b) == 0.0
  {
    if |x| > 0 {
      var x', y' := x[..|x| - 1], y[..|y| - 1];
      assert forall i :: 0 <= i < |x'| ==> x'[i] == x[i] && y'[i] == y[i];
      ExactHasZeroRss(x', y', a, b);
      SquareZero(a * x[|x| - 1] + b - y[|y| - 1]);
    }
  }

  /** A line has zero RSS exactly when it passes through every sample. */
  lemma RssZeroIffExact(x: seq<real>, y: seq<real>, a: real, b: real)
    requires |x| == |y|
    ensures Rss(x, y, a, b) == 0.0 <==> forall i :: 0 <= i < |x| ==> a * x[i] + b == y[i]
  {
    if Rss(x, y, a, b) == 0.0 {
      RssZeroOnlyIfExact(x, y, a, b);
    }
    if forall i :: 0 <= i < |x| ==> a * x[i] + b == y[i] {
      ExactHasZeroRss(x, y, a, b);
    }
  }

  /** The coefficient of determination lies in [0, 1]. */
  lemma R2InUnitInterval(x: seq<real>, y: seq<real>)
    requires WellPosed(x, y)
    ensures 0.0 <= FitR2(x, y) <= 1.0
  {
    SumOfSquaresDecomposition(x, y);
    UnitRatio(FitSsr(x, y), CentredSumSq(y));
  }

  /** R² is 1 exactly when the fitted line passes through every sample. */
  lemma R2OneIffPerfectFit(x: seq<real>, y: seq<real>, a: real, b: real)
    requires WellPosed(x, y) && a == FitSlope(x, y) && b == FitIntercept(x, y)
    ensures FitR2(x, y) == 1.0 <==> forall i :: 0 <= i < |x| ==> a * x[i] + b == y[i]
  {
    SumOfSquaresDecomposition(x, y);
    UnitRatio(FitSsr(x, y), CentredSumSq(y));
    RssZeroIffExact(x, y, a, b);
  }

  /** R² is 0 exactly when the fitted line is flat. */
  lemma R2ZeroIffFlat(x: seq<real>, y: seq<real>)
    requires WellPosed(x, y)
    ensures FitR2(x, y) == 0.0 <==> FitSlope(x, y) == 0.0
  {
    SumOfSquaresDecomposition(x, y);
    FitSumsOfSquares(x, y);
    UnitRatio(FitSsr(x, y), CentredSumSq(y));
    ScaledSquareZero(FitSlope(x, y), CentredSumSq(x));
  }

  /** The three facts about R², stated for the stored values of a fit. */
  lemma R2Meaning(x: seq<real>, y: seq<real>, a: real, b: real, r: real)
    requires WellPosed(x, y) && a == FitSlope(x, y) && b == FitIntercept(x, y) && r == FitR2(x, y)
    ensures 0.0 <= r <= 1.0
    ensures r == 1.0 <==> forall i :: 0 <= i < |x| ==> a * x[i] + b == y[i]
    ensures r == 0.0 <==> a == 0.0
  {
    R2InUnitInterval(x, y);
    R2OneIffPerfectFit(x, y, a, b);
    R2ZeroIffFlat(x, y);
  }

  /** The residual and both coefficient variances are non-negative, so their square roots exist. */
  lemma VariancesNonNegative(x: seq<real>, y: seq<real>)
    requires WellPosed(x, y)
    ensures ResidualVariance(x, y) >= 0.0
    ensures SlopeVariance(x, y) >= 0.0
    ensures InterceptVariance(x, y) >= 0.0
  {
  }

  /** Three samples on the line y = 2x: slope 2, intercept 0, R² = 1 and both variances 0. */
  lemma ExactThreePointFit()
    ensures WellPosed([1.0, 2.0, 3.0], [2.0, 4.0, 6.0])
    ensures FitSlope([1.0, 2.0, 3.0], [2.0, 4.0, 6.0]) == 2.0
    ensures FitIntercept([1.0, 2.0, 3.0], [2.0, 4.0, 6.0]) == 0.0
    ensures FitR2([1.0, 2.0, 3.0], [2.0, 4.0, 6.0]) == 1.0
    ensures SlopeVariance([1.0, 2.0, 3.0], [2.0, 4.0, 6.0]) == 0.0
    ensures InterceptVariance([1.0, 2.0, 3.0], [2.0, 4.0, 6.0]) == 0.0
  {
    var x, y := [1.0, 2.0, 3.0], [2.0, 4.0, 6.0];
    var x1, x2, y1, y2 := [1.0], [1.0, 2.0], [2.0], [2.0, 4.0];
    assert x[..2] == x2 && x2[..1] == x1 && x1[..0] == [];
    assert y[..2] == y2 && y2[..1] == y1 && y1[..0] == [];
    assert Sum(x) == 6.0 && Sum(y) == 12.0;
    SquareDef(1.0 - 2.0);
    SquareDef(2.0 - 2.0);
    SquareDef(3.0 - 2.0);
    SquareDef(2.0 - 4.0);
    SquareDef(4.0 - 4.0);
    SquareDef(6.0 - 4.0);
    assert Mean(x) == 2.0 && Mean(y) == 4.0;
    assert CentredSumSq(x) == 2.0 && CentredSumSq(y) == 8.0 && CentredCross(x, y) == 4.0;
    FitSumsOfSquares(x, y);
    assert FitSsr(x, y) == 8.0 && FitRss(x, y) == 0.0;
  }

  /**
   * Three samples off any line: slope 1/2, intercept 2/3 and R² = 3/4,
   * strictly between a flat and a perfect fit.
   */
  lemma InexactThreePointFit()
    ensures WellPosed([1.0, 2.0, 3.0], [1.0, 2.0, 2.0])
    ensures FitSlope([1.0, 2.0, 3.0], [1.0, 2.0, 2.0]) == 0.5
    ensures FitIntercept([1.0, 2.0, 3.0], [1.0, 2.0, 2.0]) == 2.0 / 3.0
    ensures FitR2([1.0, 2.0, 3.0], [1.0, 2.0, 2.0]) == 0.75
    ensures 0.0 < FitR2([1.0, 2.0, 3.0], [1.0, 2.0, 2.0]) < 1.0
    ensures SlopeVariance([1.0, 2.0, 3.0], [1.0, 2.0, 2.0]) == 1.0 / 12.0
    ensures InterceptVariance([1.0, 2.0, 3.0], [1.0, 2.0, 2.0]) == 7.0 / 18.0
  {
    var x, y := [1.0, 2.0, 3.0], [1.0, 2.0, 2.0];
    var x1, x2, y1, y2 := [1.0], [1.0, 2.0], [1.0], [1.0, 2.0];
    assert x[..2] == x2 && x2[..1] == x1 && x1[..0] == [];
    assert y[..2] == y2 && y2[..1] == y1 && y1[..0] == [];
    assert Sum(x) == 6.0 && Sum(y) == 5.0;
    assert Mean(x) == 2.0 && Mean(y) == 5.0 / 3.0;
    SquareDef(1.0 - 2.0);
    SquareDef(2.0 - 2.0);
    SquareDef(3.0 - 2.0);
    SquareDef(1.0 - 5.0 / 3.0);
    SquareDef(2.0 - 5.0 / 3.0);
    assert CentredSumSq(x) == 2.0 && CentredSumSq(y) == 2.0 / 3.0 && CentredCross(x, y) == 1.0;
    FitSumsOfSquares(x, y);
    SquareDef(0.5);
    assert FitSsr(x, y) == 0.5 && FitRss(x, y) == 1.0 / 6.0;
  }
}
