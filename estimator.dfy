/**
 * The salary estimator: a simple linear regression of salary (the response
 * y) on years of experience (the predictor x). Construction fits the
 * least-squares line in three passes over the samples and stores the slope,
 * the intercept, the coefficient of determination and the two coefficient
 * variances; the queries only read what was stored.
 */
module Estimator {
  import opened Algebra
  import opened LeastSquares

  /** The one failure construction reports: the sample arrays differ in length. */
  datatype FitError = ArrayLengthsNotEqual

  datatype Result<T> = Ok(value: T) | Err(error: FitError)

  // ---------------------------------------------------------------------------
  // One iteration of each pass of the fit, in terms of the array prefixes
  // ---------------------------------------------------------------------------

  /** The first pass adds x[i] and y[i] to the totals of the prefixes before i. */
  lemma SumPassStep(x: array<real>, y: array<real>, i: nat)
    requires x.Length == y.Length && i < x.Length
    ensures Sum(x[..i + 1]) == Sum(x[..i]) + x[i]
    ensures Sum(y[..i + 1]) == Sum(y[..i]) + y[i]
  {
    assert x[..i + 1][..i] == x[..i] && y[..i + 1][..i] == y[..i];
  }

  /** The second pass adds the i-th sample's squared and cross deviations to the centred sums. */
  lemma CentredSumsStep(x: array<real>, y: array<real>, i: nat, cx: real, cy: real)
    requires x.Length == y.Length && i < x.Length
    ensures SumSqDev(x[..i + 1], cx) == SumSqDev(x[..i], cx) + Sq(x[i] - cx)
    ensures SumSqDev(y[..i + 1], cy) == SumSqDev(y[..i], cy) + Sq(y[i] - cy)
    ensures SumCrossDev(x[..i + 1], y[..i + 1], cx, cy) == SumCrossDev(x[..i], y[..i], cx, cy) + (x[i] - cx) * (y[i] - cy)
  {
    assert x[..i + 1][..i] == x[..i] && y[..i + 1][..i] == y[..i];
    CrossDef(x[i] - cx, y[i] - cy);
  }

  /**
   * The third pass adds the squares of the i-th residual fit − y[i] and of
   * the i-th fitted deviation fit − c, where fit is the line's value at x[i].
   */
  lemma ResidualSumsStep(x: array<real>, y: array<real>, i: nat, a: real, b: real, c: real, fit: real)
    requires x.Length == y.Length && i < x.Length && fit == a * x[i] + b
    ensures Rss(x[..i + 1], y[..i + 1], a, b) == Rss(x[..i], y[..i], a, b) + Sq(fit - y[i])
    ensures Ssr(x[..i + 1], a, b, c) == Ssr(x[..i], a, b, c) + Sq(fit - c)
  {
    ResidualSumsExtend(x[..], y[..], i, a, b, c);
    assert x[..][..i + 1] == x[..i + 1] && x[..][..i] == x[..i];
    assert y[..][..i + 1] == y[..i + 1] && y[..][..i] == y[..i];
    SquareEqual(fit - y[i], a * x[..][i] + b - y[..][i]);
    SquareEqual(fit - c, a * x[..][i] + b - c);
  }

  /** The intercept variance, assembled as the constructor assembles it from the residual and slope variances. */
  lemma InterceptVarianceIs(x: seq<real>, y: seq<real>, svar: real, nr: real, m: real, sv1: real)
    requires WellPosed(x, y) && svar == ResidualVariance(x, y) && nr == |x| as real && m == Mean(x)
    requires sv1 == SlopeVariance(x, y)
    ensures svar / nr + m * m * sv1 == InterceptVariance(x, y)
  {
  }

  class SalaryEstimator {
    /** The samples the line was fitted to. */
    ghost const xs: seq<real>
    ghost const ys: seq<real>

    const intercept: real
    const slope: real
    const r2: real
    /** The squares of the intercept's and the slope's standard errors. */
    const svar0: real
    const svar1: real

    /** Every stored statistic is the least-squares statistic of the samples. */
    ghost predicate Valid()
    {
      && WellPosed(xs, ys)
      && slope == FitSlope(xs, ys)
      && intercept == FitIntercept(xs, ys)
      && r2 == FitR2(xs, ys)
      && svar0 == InterceptVariance(xs, ys)
      && svar1 == SlopeVariance(xs, ys)
    }

    /**
     * Fits the line to the samples (x[i], y[i]). The first pass sums the
     * samples to get their means, the second accumulates the centred sums of
     * squares and cross products that give the slope and the intercept, and
     * the third accumulates the residual and the regression sums of squares
     * of the fitted line, from which R² and the variances follow.
     */
    constructor (x: array<real>, y: array<real>)
      requires WellPosed(x[..], y[..])
      ensures Valid() && xs == x[..] && ys == y[..]
    {
      var n := x.Length;
      var sumx, sumy := SumPass(x, y);
      var xbar := sumx / n as real;
      var ybar := sumy / n as real;
      assert xbar == Mean(x[..]) && ybar == Mean(y[..]);
      var xxbar, yybar, xybar := CentredPass(x, y, xbar, ybar);
      var s := xybar / xxbar;
      var b := ybar - s * xbar;
      assert s == FitSlope(x[..], y[..]) && b == FitIntercept(x[..], y[..]);
      var rss, ssr := ResidualPass(x, y, s, b, ybar);
      var degreesOfFreedom := n - 2;
      var svar := rss / degreesOfFreedom as real;
      assert svar == ResidualVariance(x[..], y[..]);
      var slopeVar := svar / xxbar;
      InterceptVarianceIs(x[..], y[..], svar, n as real, xbar, slopeVar);
      xs, ys := x[..], y[..];
      slope, intercept := s, b;
      r2 := ssr / yybar;
      svar1 := slopeVar;
      svar0 := svar / n as real + xbar * xbar * slopeVar;
    }

    /** The first pass: the totals Σx and Σy. */
    static method SumPass(x: array<real>, y: array<real>) returns (sumx: real, sumy: real)
      requires x.Length == y.Length
      ensures sumx == Sum(x[..]) && sumy == Sum(y[..])
    {
      sumx, sumy := 0.0, 0.0;
      for i := 0 to x.Length
        invariant sumx == Sum(x[..i]) && sumy == Sum(y[..i])
      {
        SumPassStep(x, y, i);
        sumx := sumx + x[i];
        sumy := sumy + y[i];
      }
      assert x[..] == x[..x.Length] && y[..] == y[..y.Length];
    }

    /** The second pass: Σ(x − x̄)², Σ(y − ȳ)² and Σ(x − x̄)(y − ȳ) about the given centres. */
    static method CentredPass(x: array<real>, y: array<real>, xbar: real, ybar: real)
      returns (xxbar: real, yybar: real, xybar: real)
      requires x.Length == y.Length
      ensures xxbar == SumSqDev(x[..], xbar) && yybar == SumSqDev(y[..], ybar)
      ensures xybar == SumCrossDev(x[..], y[..], xbar, ybar)
    {
      xxbar, yybar, xybar := 0.0, 0.0, 0.0;
      for i := 0 to x.Length
        invariant xxbar == SumSqDev(x[..i], xbar) && yybar == SumSqDev(y[..i], ybar)
        invariant xybar == SumCrossDev(x[..i], y[..i], xbar, ybar)
      {
        CentredSumsStep(x, y, i, xbar, ybar);
        xxbar := xxbar + Sq(x[i] - xbar);
        yybar := yybar + Sq(y[i] - ybar);
        xybar := xybar + (x[i] - xbar) * (y[i] - ybar);
      }
      assert x[..] == x[..x.Length] && y[..] == y[..y.Length];
    }

    /** The third pass: the residual and regression sums of squares of the line (s, b), the latter about ybar. */
    static method ResidualPass(x: array<real>, y: array<real>, s: real, b: real, ybar: real)
      returns (rss: real, ssr: real)
      requires x.Length == y.Length
      ensures rss == Rss(x[..], y[..], s, b) && ssr == Ssr(x[..], s, b, ybar)
    {
      rss, ssr := 0.0, 0.0;
      for i := 0 to x.Length
        invariant rss == Rss(x[..i], y[..i], s, b) && ssr == Ssr(x[..i], s, b, ybar)
      {
        var fit := s * x[i] + b;
        ResidualSumsStep(x, y, i, s, b, ybar, fit);
        rss := rss + Sq(fit - y[i]);
        ssr := ssr + Sq(fit - ybar);
      }
      assert x[..] == x[..x.Length] && y[..] == y[..y.Length];
    }

    /**
     * Construction that reports mismatched arrays instead of throwing: it fails
     * exactly when the lengths differ, and otherwise yields the fitted model.
     */
    static method Create(x: array<real>, y: array<real>) returns (r: Result<SalaryEstimator>)
      requires x.Length == y.Length ==> WellPosed(x[..], y[..])
      ensures r.Err? <==> x.Length != y.Length
      ensures r.Err? ==> r.error == ArrayLengthsNotEqual
      ensures r.Ok? ==> fresh(r.value) && r.value.Valid() && r.value.xs == x[..] && r.value.ys == y[..]
    {
      if x.Length != y.Length {
        return Err(ArrayLengthsNotEqual);
      }
      var e := new SalaryEstimator(x, y);
      return Ok(e);
    }

    /** The slope solves the normal equation Sxx·slope = Sxy. */
    function Slope(): (r: real)
      requires Valid()
      ensures r * CentredSumSq(xs) == CentredCross(xs, ys)
      ensures r == FitSlope(xs, ys)
    {
      slope
    }

    /** The intercept puts the mean sample (x̄, ȳ) on the line. */
    function Intercept(): (r: real)
      requires Valid()
      ensures Slope() * Mean(xs) + r == Mean(ys)
      ensures r == FitIntercept(xs, ys)
    {
      FitThroughMeans(xs, ys);
      intercept
    }

    /**
     * R² lies in [0, 1]; it is 1 exactly when the line passes through every
     * sample and 0 exactly when the line is flat.
     */
    function R2(): (r: real)
      requires Valid()
      ensures r == FitR2(xs, ys)
      ensures 0.0 <= r <= 1.0
      ensures r == 1.0 <==> forall i :: 0 <= i < |xs| ==> slope * xs[i] + intercept == ys[i]
      ensures r == 0.0 <==> slope == 0.0
    {
      R2Meaning(xs, ys, slope, intercept, r2);
      r2
    }

    /** The square of interceptStdErr: non-negative, so its square root exists. */
    function InterceptStdErrSquared(): (r: real)
      requires Valid()
      ensures r >= 0.0
      ensures r == ResidualVariance(xs, ys) / |xs| as real + Mean(xs) * Mean(xs) * SlopeVariance(xs, ys)
    {
      VariancesNonNegative(xs, ys);
      svar0
    }

    /** The square of slopeStdErr: non-negative, so its square root exists. */
    function SlopeStdErrSquared(): (r: real)
      requires Valid()
      ensures r >= 0.0
      ensures r * CentredSumSq(xs) == FitRss(xs, ys) / (|xs| - 2) as real
    {
      VariancesNonNegative(xs, ys);
      svar1
    }

    /** The response the line expects at v; at the mean predictor it is the mean response. */
    function Predict(v: real): (r: real)
      requires Valid()
      ensures r == Mean(ys) + slope * (v - Mean(xs))
      ensures v == Mean(xs) ==> r == Mean(ys)
    {
      FitThroughMeans(xs, ys);
      slope * v + intercept
    }

    /**
     * No line fits the samples better than the stored one: every line (a, b)
     * has at least its residual sum of squares, and only the stored line has
     * exactly that much.
     */
    lemma MinimisesSquaredResiduals(a: real, b: real)
      requires Valid()
      ensures Rss(xs, ys, a, b) >= Rss(xs, ys, slope, intercept)
      ensures Rss(xs, ys, a, b) == Rss(xs, ys, slope, intercept) <==> a == slope && b == intercept
    {
      FitMinimisesRss(xs, ys, a, b);
    }
  }
}
