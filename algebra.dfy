/**
 * Facts of real arithmetic used by the least-squares proofs. Each is stated
 * over plain real variables, so that the solver meets one non-linear step at
 * a time, away from the recursive sums it is later applied to.
 */
module Algebra {

  /**
   * e², the square of a deviation or residual.
   *
   * Sq, Cross, RssPoly and SsrPoly below are each defined through a
   * companion function (Power, CrossAt, RssPolyAt, SsrPolyAt) that counts an
   * argument k down to 0 before it yields the value. The guard is not part
   * of the model: it only keeps the verifier from multiplying these
   * polynomials out in every proof that mentions them. Each has a lemma
   * (SquareDef, CrossDef, RssPolyDef, SsrPolyDef) that states its value and
   * is called where that is needed.
   */
  function Sq(e: real): real
  {
    Power(e, 2, 1.0)
  }

  /** acc · eᵏ, by k multiplications; Sq uses it only with k = 2 and acc = 1. */
  function Power(e: real, k: nat, acc: real): real
  {
    if k == 0 then acc else Power(e, k - 1, acc * e)
  }

  lemma SquareDef(e: real)
    ensures Sq(e) == e * e
  {
    assert Power(e, 1, e) == Power(e, 0, e * e);
  }

  /** d·e, the product of two deviations. */
  function Cross(d: real, e: real): real
  {
    CrossAt(2, d, e)
  }

  function CrossAt(k: nat, d: real, e: real): real
  {
    if k == 0 then d * e else CrossAt(k - 1, d, e)
  }

  lemma CrossDef(d: real, e: real)
    ensures Cross(d, e) == d * e
  {
    assert CrossAt(1, d, e) == CrossAt(0, d, e);
  }

  /** A product of two non-negative reals is non-negative. */
  lemma ProductNonNegative(p: real, q: real)
    requires p >= 0.0 && q >= 0.0
    ensures p * q >= 0.0
  {
  }

  /** A product is zero only when one of its factors is. */
  lemma ProductZero(p: real, q: real)
    requires p * q == 0.0
    ensures p == 0.0 || q == 0.0
  {
  }

  lemma SquareNonNegative(e: real)
    ensures Sq(e) >= 0.0
  {
    SquareDef(e);
  }

  /** A square is zero exactly at zero. */
  lemma SquareZero(e: real)
    ensures Sq(e) >= 0.0
    ensures Sq(e) == 0.0 <==> e == 0.0
  {
    SquareDef(e);
    if e * e == 0.0 {
      ProductZero(e, e);
    }
  }

  /** Equal reals have equal squares. */
  lemma SquareEqual(p: real, q: real)
    requires p == q
    ensures Sq(p) == Sq(q)
  {
  }

  /** p·d² + q·c² with positive weights is non-negative, and zero only when d = c = 0. */
  lemma WeightedSquaresZero(p: real, d: real, q: real, c: real)
    requires p > 0.0 && q > 0.0
    ensures p * Sq(d) + q * Sq(c) >= 0.0
    ensures p * Sq(d) + q * Sq(c) == 0.0 <==> d == 0.0 && c == 0.0
  {
    SquareZero(d);
    SquareZero(c);
    ProductNonNegative(p, Sq(d));
    ProductNonNegative(q, Sq(c));
    if p * Sq(d) + q * Sq(c) == 0.0 {
      assert p * Sq(d) == 0.0 && q * Sq(c) == 0.0;
      ProductZero(p, Sq(d));
      ProductZero(q, Sq(c));
    }
  }

  /** s²·q is zero for positive q exactly when s is. */
  lemma ScaledSquareZero(s: real, q: real)
    requires q > 0.0
    ensures Sq(s) * q == 0.0 <==> s == 0.0
  {
    SquareZero(s);
    if Sq(s) * q == 0.0 {
      ProductZero(Sq(s), q);
    }
  }

  /** A running total minus n copies of a centre, one element further on. */
  lemma CentredStep(t: real, c: real, n: real, total: real, dev: real,
                    n': real, total': real, dev': real)
    requires dev == total - n * c
    requires n' == n + 1.0 && total' == total + t && dev' == dev + (t - c)
    ensures dev' == total' - n' * c
  {
  }

  /** n copies of the mean total / n add up to the total. */
  lemma MeanTimesCount(total: real, n: real)
    requires n != 0.0
    ensures total - n * (total / n) == 0.0
  {
  }

  // ---------------------------------------------------------------------------
  // Sums of squares as polynomials in the line's coefficients
  // ---------------------------------------------------------------------------

  /**
   * The residual sum of squares of the line y = a·x + b over n samples,
   * expanded about centres (cx, cy): sxx, sxy and syy are the sums of squared
   * and cross deviations, lx and ly the sums of deviations, and
   * c = a·cx + b − cy is how far the line passes from the centre. It is
   * guarded like Sq and multiplied out only where RssPolyDef is called.
   */
  function RssPoly(a: real, c: real, n: real, sxx: real, sxy: real, syy: real, lx: real, ly: real): real
  {
    RssPolyAt(2, a, c, n, sxx, sxy, syy, lx, ly)
  }

  function RssPolyAt(k: nat, a: real, c: real, n: real, sxx: real, sxy: real, syy: real, lx: real, ly: real): real
  {
    if k == 0 then Sq(a) * sxx - 2.0 * a * sxy + syy + 2.0 * c * (a * lx - ly) + n * Sq(c)
    else RssPolyAt(k - 1, a, c, n, sxx, sxy, syy, lx, ly)
  }

  lemma RssPolyDef(a: real, c: real, n: real, sxx: real, sxy: real, syy: real, lx: real, ly: real)
    ensures RssPoly(a, c, n, sxx, sxy, syy, lx, ly)
            == Sq(a) * sxx - 2.0 * a * sxy + syy + 2.0 * c * (a * lx - ly) + n * Sq(c)
  {
    assert RssPolyAt(1, a, c, n, sxx, sxy, syy, lx, ly) == RssPolyAt(0, a, c, n, sxx, sxy, syy, lx, ly);
  }

  /** The fitted values' sum of squares about cy, expanded and guarded in the same way. */
  function SsrPoly(a: real, c: real, n: real, sxx: real, lx: real): real
  {
    SsrPolyAt(2, a, c, n, sxx, lx)
  }

  function SsrPolyAt(k: nat, a: real, c: real, n: real, sxx: real, lx: real): real
  {
    if k == 0 then Sq(a) * sxx + 2.0 * a * c * lx + n * Sq(c)
    else SsrPolyAt(k - 1, a, c, n, sxx, lx)
  }

  lemma SsrPolyDef(a: real, c: real, n: real, sxx: real, lx: real)
    ensures SsrPoly(a, c, n, sxx, lx) == Sq(a) * sxx + 2.0 * a * c * lx + n * Sq(c)
  {
    assert SsrPolyAt(1, a, c, n, sxx, lx) == SsrPolyAt(0, a, c, n, sxx, lx);
  }

  /** The square of a residual a·u − v + c, multiplied out. */
  lemma SquareOfResidual(a: real, u: real, v: real, c: real)
    ensures Sq(a * u - v + c) == Sq(a) * Sq(u) - 2.0 * a * (u * v) + Sq(v) + 2.0 * c * (a * u - v) + Sq(c)
  {
    SquareDef(a * u - v + c);
    SquareDef(a);
    SquareDef(u);
    SquareDef(v);
    SquareDef(c);
  }

  /** The square of a fitted deviation a·u + c, multiplied out. */
  lemma SquareOfFitted(a: real, u: real, c: real)
    ensures Sq(a * u + c) == Sq(a) * Sq(u) + 2.0 * a * c * u + Sq(c)
  {
    SquareDef(a * u + c);
    SquareDef(a);
    SquareDef(u);
    SquareDef(c);
  }

  /** One more residual r = a·u − v + c, with deviations u, v, added to the expanded RSS. */
  lemma RssPolyStep(a: real, c: real, u: real, v: real, r: real,
                    n: real, sxx: real, sxy: real, syy: real, lx: real, ly: real,
                    n': real, sxx': real, sxy': real, syy': real, lx': real, ly': real)
    requires r == a * u - v + c
    requires n' == n + 1.0 && sxx' == sxx + Sq(u) && sxy' == sxy + u * v && syy' == syy + Sq(v)
    requires lx' == lx + u && ly' == ly + v
    ensures RssPoly(a, c, n, sxx, sxy, syy, lx, ly) + Sq(r) == RssPoly(a, c, n', sxx', sxy', syy', lx', ly')
  {
    SquareOfResidual(a, u, v, c);
    RssPolyDef(a, c, n, sxx, sxy, syy, lx, ly);
    RssPolyDef(a, c, n', sxx', sxy', syy', lx', ly');
  }

  /** One more fitted deviation r = a·u + c, with predictor deviation u, added to the expanded SSR. */
  lemma SsrPolyStep(a: real, c: real, u: real, r: real, n: real, sxx: real, lx: real,
                    n': real, sxx': real, lx': real)
    requires r == a * u + c
    requires n' == n + 1.0 && sxx' == sxx + Sq(u) && lx' == lx + u
    ensures SsrPoly(a, c, n, sxx, lx) + Sq(r) == SsrPoly(a, c, n', sxx', lx')
  {
    SquareOfFitted(a, u, c);
    SsrPolyDef(a, c, n, sxx, lx);
    SsrPolyDef(a, c, n', sxx', lx');
  }

  /** One more sample (t, w) added to the expanded RSS of the line (a, b) about (cx, cy). */
  lemma ResidualStep(a: real, b: real, cx: real, cy: real, t: real, w: real, n: real, n': real,
                     sxx: real, sxy: real, syy: real, lx: real, ly: real, rss: real,
                     sxx': real, sxy': real, syy': real, lx': real, ly': real, rss': real)
    requires rss == RssPoly(a, a * cx + b - cy, n, sxx, sxy, syy, lx, ly)
    requires n' == n + 1.0
    requires sxx' == sxx + Sq(t - cx) && sxy' == sxy + Cross(t - cx, w - cy) && syy' == syy + Sq(w - cy)
    requires lx' == lx + (t - cx) && ly' == ly + (w - cy) && rss' == rss + Sq(a * t + b - w)
    ensures rss' == RssPoly(a, a * cx + b - cy, n', sxx', sxy', syy', lx', ly')
  {
    CrossDef(t - cx, w - cy);
    RssPolyStep(a, a * cx + b - cy, t - cx, w - cy, a * t + b - w, n, sxx, sxy, syy, lx, ly,
                n', sxx', sxy', syy', lx', ly');
  }

  /** One more predictor value t added to the expanded SSR of the line (a, b) about cy. */
  lemma RegressionStep(a: real, b: real, cx: real, cy: real, t: real, n: real, n': real,
                       sxx: real, lx: real, ssr: real, sxx': real, lx': real, ssr': real)
    requires ssr == SsrPoly(a, a * cx + b - cy, n, sxx, lx)
    requires n' == n + 1.0
    requires sxx' == sxx + Sq(t - cx) && lx' == lx + (t - cx) && ssr' == ssr + Sq(a * t + b - cy)
    ensures ssr' == SsrPoly(a, a * cx + b - cy, n', sxx', lx')
  {
    SsrPolyStep(a, a * cx + b - cy, t - cx, a * t + b - cy, n, sxx, lx, n', sxx', lx');
  }

  /** Once the linear terms vanish, the expanded RSS is a²·sxx − 2a·sxy + syy + n·c². */
  lemma RssPolyCentred(a: real, c: real, n: real, sxx: real, sxy: real, syy: real)
    ensures RssPoly(a, c, n, sxx, sxy, syy, 0.0, 0.0) == Sq(a) * sxx - 2.0 * a * sxy + syy + n * Sq(c)
  {
    RssPolyDef(a, c, n, sxx, sxy, syy, 0.0, 0.0);
  }

  /** Once the linear term vanishes, the expanded SSR is a²·sxx + n·c². */
  lemma SsrPolyCentred(a: real, c: real, n: real, sxx: real)
    ensures SsrPoly(a, c, n, sxx, 0.0) == Sq(a) * sxx + n * Sq(c)
  {
    SsrPolyDef(a, c, n, sxx, 0.0);
  }

  /** At the slope s = sxy / sxx and offset 0, the expanded RSS is syy − s·sxy and the SSR s·sxy = s²·sxx. */
  lemma AtSlope(s: real, n: real, sxx: real, sxy: real, syy: real)
    requires sxx != 0.0 && s == sxy / sxx
    ensures RssPoly(s, 0.0, n, sxx, sxy, syy, 0.0, 0.0) == syy - s * sxy
    ensures SsrPoly(s, 0.0, n, sxx, 0.0) == s * sxy
    ensures SsrPoly(s, 0.0, n, sxx, 0.0) == Sq(s) * sxx
  {
    RssPolyCentred(s, 0.0, n, sxx, sxy, syy);
    SsrPolyCentred(s, 0.0, n, sxx);
    SquareDef(s);
    SquareDef(0.0);
    assert s * sxx == sxy;
    assert s * s * sxx == s * sxy;
  }

  /** Completing the square: the slope a exceeds s = sxy / sxx by sxx·(a − s)². */
  lemma CompleteSquare(a: real, s: real, c: real, n: real, sxx: real, sxy: real, syy: real)
    requires sxx != 0.0 && s == sxy / sxx
    ensures RssPoly(a, c, n, sxx, sxy, syy, 0.0, 0.0) == (syy - s * sxy) + sxx * Sq(a - s) + n * Sq(c)
  {
    RssPolyCentred(a, c, n, sxx, sxy, syy);
    SquareDef(a);
    SquareDef(a - s);
    assert s * sxx == sxy;
    assert a * sxy == a * s * sxx;
    assert s * sxy == s * s * sxx;
    assert sxx * ((a - s) * (a - s)) == a * a * sxx - 2.0 * a * s * sxx + s * s * sxx;
  }

  /** A ratio of a part to a positive whole. */
  lemma UnitRatio(p: real, q: real)
    requires q > 0.0 && 0.0 <= p <= q
    ensures 0.0 <= p / q <= 1.0
    ensures p / q == 1.0 <==> p == q
    ensures p / q == 0.0 <==> p == 0.0
  {
  }

  // ---------------------------------------------------------------------------
  // Scaling the response
  // ---------------------------------------------------------------------------

  /**
   * One more squared term of a sum whose every term is scaled by k: when the
   * new term e' is k·e, the scaled total stot' stays k² times the total tot'.
   */
  lemma ScaledSquaresStep(k: real, e: real, e': real, tot: real, stot: real, tot': real, stot': real)
    requires e' == k * e && stot == Sq(k) * tot
    requires tot' == tot + Sq(e) && stot' == stot + Sq(e')
    ensures stot' == Sq(k) * tot'
  {
    SquareDef(e');
    SquareDef(k);
    SquareDef(e);
  }

  /** A fitted deviation a·u + b − c with a, b and c all scaled by k is scaled by k. */
  lemma FittedScaled(k: real, a: real, b: real, c: real, a': real, b': real, c': real, u: real)
    requires a' == k * a && b' == k * b && c' == k * c
    ensures a' * u + b' - c' == k * (a * u + b - c)
  {
  }

  /**
   * One more cross deviation d·e whose second factor e is k times f keeps
   * the scaled total k times the total.
   */
  lemma ScaledCrossStep(k: real, d: real, e: real, f: real, tot: real, stot: real)
    requires e == k * f && stot == k * tot
    ensures stot + Cross(d, e) == k * (tot + Cross(d, f))
  {
    CrossDef(d, e);
    CrossDef(d, f);
  }

  /** Multiplication by q distributes over a sum. */
  lemma Distributes(q: real, p: real, t: real)
    ensures q * p + q * t == q * (p + t)
  {
  }

  /** k·m − (k·s)·c is k·(m − s·c), with the scaled values given as m' and s'. */
  lemma ScaledDifference(k: real, m: real, s: real, c: real, m': real, s': real)
    requires m' == k * m && s' == k * s
    ensures m' - s' * c == k * (m - s * c)
  {
  }

  /** A factor of the dividend may be taken outside the quotient. */
  lemma ScaledQuotient(k: real, p: real, p': real, q: real)
    requires q != 0.0 && p' == k * p
    ensures p' / q == k * (p / q)
  {
  }

  /** A product of two non-zero reals is non-zero. */
  lemma ProductNonZero(p: real, q: real)
    requires p != 0.0 && q != 0.0
    ensures p * q != 0.0
  {
  }

  /** A ratio is unchanged when both its terms are scaled by q ≠ 0, the scaled values given as p' and r'. */
  lemma CancelRatio(q: real, p: real, p': real, r: real, r': real)
    requires q != 0.0 && r != 0.0 && p' == q * p && r' == q * r
    ensures p' / r' == p / r
  {
  }
}
