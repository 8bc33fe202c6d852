/**
 * How the least-squares fit depends on its samples as a whole: it does not
 * depend on the order in which the pairs (xᵢ, yᵢ) are given, and measuring the
 * response in other units scales the line and leaves R² alone.
 */
module Invariance {
  import opened Algebra
  import opened LeastSquares

  // ---------------------------------------------------------------------------
  // Reordering the samples
  // ---------------------------------------------------------------------------

  /** s with its elements at i and i + 1 exchanged. */
  function Swap(s: seq<real>, i: nat): (r: seq<real>)
    requires i + 1 < |s|
    ensures |r| == |s| && r[i] == s[i + 1] && r[i + 1] == s[i]
    ensures forall j :: 0 <= j < |s| && j != i && j != i + 1 ==> r[j] == s[j]
  {
    s[..i] + [s[i + 1], s[i]] + s[i + 2..]
  }

  /**
   * Dropping the last element of a swapped sequence: further back than the
   * swap, it is the swap of the shorter sequence; at the swap, what is left
   * two places from the end is the untouched front of s.
   */
  lemma SwapLast(s: seq<real>, i: nat)
    requires i + 1 < |s|
    ensures i + 2 < |s| ==> Swap(s, i)[..|s| - 1] == Swap(s[..|s| - 1], i)
    ensures i + 2 == |s| ==> Swap(s, i)[..|s| - 1][..|s| - 2] == s[..|s| - 1][..|s| - 2]
  {
    var t, s' := Swap(s, i), s[..|s| - 1];
    if i + 2 < |s| {
      var u, w := t[..|s| - 1], Swap(s', i);
      assert forall j :: 0 <= j < |u| ==> u[j] == w[j];
    } else {
      var u, w := t[..|s| - 1][..|s| - 2], s'[..|s| - 2];
      assert forall j :: 0 <= j < |u| ==> u[j] == w[j];
    }
  }

  lemma {:induction false} SumSwap(s: seq<real>, i: nat)
    requires i + 1 < |s|
    decreases |s|
    ensures Sum(Swap(s, i)) == Sum(s)
  {
    SwapLast(s, i);
    if i + 2 < |s| {
      SumSwap(s[..|s| - 1], i);
    }
  }

  lemma {:induction false} SumSqDevSwap(s: seq<real>, i: nat, c: real)
    requires i + 1 < |s|
    decreases |s|
    ensures SumSqDev(Swap(s, i), c) == SumSqDev(s, c)
  {
    SwapLast(s, i);
    if i + 2 < |s| {
      SumSqDevSwap(s[..|s| - 1], i, c);
    }
  }

  lemma {:induction false} SumCrossDevSwap(x: seq<real>, y: seq<real>, i: nat, cx: real, cy: real)
    requires |x| == |y| && i + 1 < |x|
    decreases |x|
    ensures SumCrossDev(Swap(x, i), Swap(y, i), cx, cy) == SumCrossDev(x, y, cx, cy)
  {
    SwapLast(x, i);
    SwapLast(y, i);
    if i + 2 < |x| {
      SumCrossDevSwap(x[..|x| - 1], y[..|y| - 1], i, cx, cy);
    }
  }

  /** Exchanging two neighbouring samples leaves the means and the centred sums alone. */
  lemma CentredSumsSwap(x: seq<real>, y: seq<real>, i: nat)
    requires |x| == |y| && i + 1 < |x|
    ensures Mean(Swap(x, i)) == Mean(x) && Mean(Swap(y, i)) == Mean(y)
    ensures CentredSumSq(Swap(x, i)) == CentredSumSq(x) && CentredSumSq(Swap(y, i)) == CentredSumSq(y)
    ensures CentredCross(Swap(x, i), Swap(y, i)) == CentredCross(x, y)
  {
    SumSwap(x, i);
    SumSwap(y, i);
    SumSqDevSwap(x, i, Mean(x));
    SumSqDevSwap(y, i, Mean(y));
    SumCrossDevSwap(x, y, i, Mean(x), Mean(y));
  }

  /**
   * Exchanging two neighbouring samples leaves the RSS of every line alone:
   * the RSS depends on the samples only through their means and centred sums.
   */
  lemma RssSwap(x: seq<real>, y: seq<real>, i: nat, a: real, b: real)
    requires |x| == |y| && i + 1 < |x|
    ensures Rss(Swap(x, i), Swap(y, i), a, b) == Rss(x, y, a, b)
  {
    var x', y' := Swap(x, i), Swap(y, i);
    CentredSumsSwap(x, y, i);
    assert a * Mean(x') + b - Mean(y') == a * Mean(x) + b - Mean(y);
    RssAboutMeans(x', y', a, b);
    RssAboutMeans(x, y, a, b);
  }

  /** Exchanging two neighbouring predictor values leaves the SSR of every line alone. */
  lemma SsrSwap(x: seq<real>, i: nat, a: real, b: real, c: real)
    requires i + 1 < |x|
    ensures Ssr(Swap(x, i), a, b, c) == Ssr(x, a, b, c)
  {
    var x' := Swap(x, i);
    SumSwap(x, i);
    SumSqDevSwap(x, i, Mean(x));
    assert a * Mean(x') + b - c == a * Mean(x) + b - c;
    SsrAboutMeans(x', a, b, c);
    SsrAboutMeans(x, a, b, c);
  }

  /**
   * Exchanging two neighbouring samples, each pair (xᵢ, yᵢ) kept together,
   * changes none of the statistics of the fit. Every reordering of the
   * samples is a series of such exchanges.
   */
  lemma FitIgnoresOrder(x: seq<real>, y: seq<real>, i: nat)
    requires WellPosed(x, y) && i + 1 < |x|
    ensures WellPosed(Swap(x, i), Swap(y, i))
    ensures FitSlope(Swap(x, i), Swap(y, i)) == FitSlope(x, y)
    ensures FitIntercept(Swap(x, i), Swap(y, i)) == FitIntercept(x, y)
    ensures FitR2(Swap(x, i), Swap(y, i)) == FitR2(x, y)
    ensures ResidualVariance(Swap(x, i), Swap(y, i)) == ResidualVariance(x, y)
    ensures SlopeVariance(Swap(x, i), Swap(y, i)) == SlopeVariance(x, y)
    ensures InterceptVariance(Swap(x, i), Swap(y, i)) == InterceptVariance(x, y)
  {
    var x', y' := Swap(x, i), Swap(y, i);
    CentredSumsSwap(x, y, i);
    assert FitSlope(x', y') == FitSlope(x, y) && FitIntercept(x', y') == FitIntercept(x, y);
    assert FitRss(x', y') == FitRss(x, y) by {
      RssSwap(x, y, i, FitSlope(x, y), FitIntercept(x, y));
    }
    assert FitSsr(x', y') == FitSsr(x, y) by {
      SsrSwap(x, i, FitSlope(x, y), FitIntercept(x, y), Mean(y));
    }
    assert ResidualVariance(x', y') == ResidualVariance(x, y);
    assert SlopeVariance(x', y') == SlopeVariance(x, y);
  }

  /** s with the neighbouring exchanges at swaps[0], swaps[1], … applied in turn. */
  function SwapAll(s: seq<real>, swaps: seq<nat>): (r: seq<real>)
    requires forall j :: 0 <= j < |swaps| ==> swaps[j] + 1 < |s|
    decreases |swaps|
    ensures |r| == |s|
  {
    if |swaps| == 0 then s else SwapAll(Swap(s, swaps[0]), swaps[1..])
  }

  /**
   * Any series of neighbouring exchanges, applied to the predictors and the
   * responses alike, changes none of the statistics of the fit.
   */
  lemma {:induction false} FitIgnoresReordering(x: seq<real>, y: seq<real>, swaps: seq<nat>)
    requires WellPosed(x, y) && forall j :: 0 <= j < |swaps| ==> swaps[j] + 1 < |x|
    decreases |swaps|
    ensures WellPosed(SwapAll(x, swaps), SwapAll(y, swaps))
    ensures FitSlope(SwapAll(x, swaps), SwapAll(y, swaps)) == FitSlope(x, y)
    ensures FitIntercept(SwapAll(x, swaps), SwapAll(y, swaps)) == FitIntercept(x, y)
    ensures FitR2(SwapAll(x, swaps), SwapAll(y, swaps)) == FitR2(x, y)
    ensures ResidualVariance(SwapAll(x, swaps), SwapAll(y, swaps)) == ResidualVariance(x, y)
    ensures SlopeVariance(SwapAll(x, swaps), SwapAll(y, swaps)) == SlopeVariance(x, y)
    ensures InterceptVariance(SwapAll(x, swaps), SwapAll(y, swaps)) == InterceptVariance(x, y)
  {
    if |swaps| > 0 {
      FitIgnoresOrder(x, y, swaps[0]);
      FitIgnoresReordering(Swap(x, swaps[0]), Swap(y, swaps[0]), swaps[1..]);
    }
  }

  // ---------------------------------------------------------------------------
  // Rescaling the response
  // ---------------------------------------------------------------------------

  /** Every element of s multiplied by k. */
  function Scale(s: seq<real>, k: real): (r: seq<real>)
    ensures |r| == |s|
  {
    seq(|s|, j requires 0 <= j < |s| => k * s[j])
  }

  lemma ScaleLast(s: seq<real>, k: real, n: nat)
    requires |s| == n + 1
    ensures Scale(s, k)[..n] == Scale(s[..n], k)
    ensures Scale(s, k)[n] == k * s[n]
  {
    var u, w := Scale(s, k)[..n], Scale(s[..n], k);
    assert forall j :: 0 <= j < |u| ==> u[j] == w[j];
  }

  lemma {:induction false} SumScale(s: seq<real>, k: real)
    decreases |s|
    ensures Sum(Scale(s, k)) == k * Sum(s)
  {
    if |s| > 0 {
      ScaleLast(s, k, |s| - 1);
      SumScale(s[..|s| - 1], k);
      Distributes(k, Sum(s[..|s| - 1]), s[|s| - 1]);
    }
  }

  lemma {:induction false} SumSqDevScale(s: seq<real>, k: real, c: real, ct: real)
    requires ct == k * c
    decreases |s|
    ensures SumSqDev(Scale(s, k), ct) == Sq(k) * SumSqDev(s, c)
  {
    if |s| > 0 {
      var s', t := s[..|s| - 1], Scale(s, k);
      ScaleLast(s, k, |s| - 1);
      SumSqDevScale(s', k, c, ct);
      ScaledSquaresStep(k, s[|s| - 1] - c, t[|t| - 1] - ct, SumSqDev(s', c), SumSqDev(t[..|t| - 1], ct),
                        SumSqDev(s, c), SumSqDev(t, ct));
    }
  }

  lemma {:induction false} SumCrossDevScale(x: seq<real>, y: seq<real>, k: real, cx: real, cy: real, ct: real)
    requires |x| == |y| && ct == k * cy
    decreases |x|
    ensures SumCrossDev(x, Scale(y, k), cx, ct) == k * SumCrossDev(x, y, cx, cy)
  {
    if |x| > 0 {
      ScaleLast(y, k, |y| - 1);
      var x', y', t := x[..|x| - 1], y[..|y| - 1], Scale(y, k);
      SumCrossDevScale(x', y', k, cx, cy, ct);
      var d, e, f := x[|x| - 1] - cx, t[|t| - 1] - ct, y[|y| - 1] - cy;
      ScaledCrossStep(k, d, e, f, SumCrossDev(x', y', cx, cy), SumCrossDev(x', t[..|t| - 1], cx, ct));
    }
  }

  /** The SSR of a non-empty sample is that of all but its last element plus that element's term. */
  lemma SsrLast(x: seq<real>, a: real, b: real, c: real)
    requires |x| > 0
    ensures Ssr(x, a, b, c) == Ssr(x[..|x| - 1], a, b, c) + Sq(a * x[|x| - 1] + b - c)
  {
  }

  /**
   * Scaling a line and the centre of its fitted values by k scales their SSR
   * by k²: a', b' and c' are a, b and c scaled by k.
   */
  lemma {:induction false} SsrScale(x: seq<real>, k: real, a: real, b: real, c: real, a': real, b': real, c': real)
    requires a' == k * a && b' == k * b && c' == k * c
    decreases |x|
    ensures Ssr(x, a', b', c') == Sq(k) * Ssr(x, a, b, c)
  {
    if |x| > 0 {
      var x' := x[..|x| - 1];
      SsrLast(x, a, b, c);
      SsrLast(x, a', b', c');
      SsrScale(x', k, a, b, c, a', b', c');
      FittedScaled(k, a, b, c, a', b', c', x[|x| - 1]);
      ScaledSquaresStep(k, a * x[|x| - 1] + b - c, a' * x[|x| - 1] + b' - c',
                        Ssr(x', a, b, c), Ssr(x', a', b', c'), Ssr(x, a, b, c), Ssr(x, a', b', c'));
    }
  }

  lemma MeanScale(s: seq<real>, k: real)
    requires |s| > 0
    ensures Mean(Scale(s, k)) == k * Mean(s)
  {
    SumScale(s, k);
    ScaledQuotient(k, Sum(s), Sum(Scale(s, k)), |s| as real);
  }

  /** Scaling the response by k scales Syy by k². */
  lemma CentredSumSqScale(y: seq<real>, k: real)
    requires |y| > 0
    ensures CentredSumSq(Scale(y, k)) == Sq(k) * CentredSumSq(y)
  {
    MeanScale(y, k);
    SumSqDevScale(y, k, Mean(y), Mean(Scale(y, k)));
  }

  /** Scaling the response by k scales Sxy by k. */
  lemma CentredCrossScale(x: seq<real>, y: seq<real>, k: real)
    requires |x| == |y| > 0
    ensures CentredCross(x, Scale(y, k)) == k * CentredCross(x, y)
  {
    MeanScale(y, k);
    SumCrossDevScale(x, y, k, Mean(x), Mean(y), Mean(Scale(y, k)));
  }

  /** Scaling the response by k ≠ 0 keeps the samples well posed and scales the slope by k. */
  lemma FitSlopeScale(x: seq<real>, y: seq<real>, k: real)
    requires WellPosed(x, y) && k != 0.0
    ensures WellPosed(x, Scale(y, k))
    ensures FitSlope(x, Scale(y, k)) == k * FitSlope(x, y)
  {
    var y' := Scale(y, k);
    assert CentredSumSq(y') != 0.0 by {
      CentredSumSqScale(y, k);
      SquareZero(k);
      ProductNonZero(Sq(k), CentredSumSq(y));
    }
    assert CentredCross(x, y') == k * CentredCross(x, y) by {
      CentredCrossScale(x, y, k);
    }
    ScaledQuotient(k, CentredCross(x, y), CentredCross(x, y'), CentredSumSq(x));
  }

  /** Scaling the response by k ≠ 0 scales SSR and Syy alike by k², so R² stays. */
  lemma R2Scale(x: seq<real>, y: seq<real>, k: real)
    requires WellPosed(x, y) && k != 0.0
    ensures WellPosed(x, Scale(y, k))
    ensures FitR2(x, Scale(y, k)) == FitR2(x, y)
  {
    var y' := Scale(y, k);
    FitSlopeScale(x, y, k);
    MeanScale(y, k);
    var s, b, m := FitSlope(x, y), FitIntercept(x, y), Mean(y);
    var s', b', m' := FitSlope(x, y'), FitIntercept(x, y'), Mean(y');
    ScaledDifference(k, m, s, Mean(x), m', s');
    SsrScale(x, k, s, b, m, s', b', m');
    CentredSumSqScale(y, k);
    SquareZero(k);
    CancelRatio(Sq(k), FitSsr(x, y), FitSsr(x, y'), CentredSumSq(y), CentredSumSq(y'));
  }

  /**
   * Measuring the response in units k times smaller (k ≠ 0) multiplies the
   * slope and the intercept by k and leaves R² unchanged.
   */
  lemma FitScalesWithResponse(x: seq<real>, y: seq<real>, k: real)
    requires WellPosed(x, y) && k != 0.0
    ensures WellPosed(x, Scale(y, k))
    ensures FitSlope(x, Scale(y, k)) == k * FitSlope(x, y)
    ensures FitIntercept(x, Scale(y, k)) == k * FitIntercept(x, y)
    ensures FitR2(x, Scale(y, k)) == FitR2(x, y)
  {
    FitSlopeScale(x, y, k);
    MeanScale(y, k);
    R2Scale(x, y, k);
    ScaledDifference(k, Mean(y), FitSlope(x, y), Mean(x), Mean(Scale(y, k)), FitSlope(x, Scale(y, k)));
  }
}
