# SalaryEstimator — a verified model of its least-squares fit

SalaryEstimator fits a simple linear regression of salary (the response `y`) on
years of experience (the predictor `x`). The Java constructor
`SalaryEstimator(double[] x, double[] y)` checks that the two arrays have the same
length and then makes three passes over the samples:

1. it sums `x` and `y` to get the means `xbar` and `ybar`;
2. it accumulates the centred sums `xxbar = Σ(xᵢ − x̄)²`, `yybar = Σ(yᵢ − ȳ)²` and
   `xybar = Σ(xᵢ − x̄)(yᵢ − ȳ)`, which give `slope = xybar / xxbar` and
   `intercept = ȳ − slope·x̄`;
3. it accumulates the residual sum of squares `rss = Σ(fitᵢ − yᵢ)²` and the
   regression sum of squares `ssr = Σ(fitᵢ − ȳ)²` of the fitted values.

From these it stores `r2 = ssr / yybar` and the coefficient variances
`svar1 = svar / xxbar` and `svar0 = svar / n + x̄²·svar1`, where
`svar = rss / (n − 2)`. The accessors return the stored values, the standard
errors as their square roots, and `predict(v)` returns `slope·v + intercept`.

The model is written over Dafny's exact `real` numbers and has four modules.

- `Algebra` (`algebra.dfy`) holds facts about real polynomials:
  - squares;
  - the residual sum of squares of a line, expanded in terms of the centred sums;
  - completing the square;
  - the signs of ratios.
- `LeastSquares` (`least_squares.dfy`) holds the statistics as recursive functions
  on `seq<real>`:
  - sums and means;
  - centred sums of squares and the cross sum;
  - RSS and SSR of any line;
  - the fitted slope, intercept, R² and variances.

  It also proves what the class documentation promises:
  - the fitted line minimises the sum of squared residuals;
  - RSS + SSR = Syy;
  - R² lies in [0, 1], equals 1 exactly for a perfect fit, and equals 0 exactly
    for a flat line;
  - the variances are non-negative, so the standard errors exist.
- `Invariance` (`invariance.dfy`) proves how the fit depends on the samples as a whole:
  - exchanging two neighbouring pairs (xᵢ, yᵢ) changes none of the statistics, and
    neither does any series of such exchanges; every reordering of the samples is
    such a series, although the model does not prove that last fact;
  - multiplying every response by k ≠ 0 multiplies the slope and the intercept by k and
    leaves R² unchanged.
- `Estimator` (`estimator.dfy`) holds the class `SalaryEstimator`.
  - Its constructor runs the three passes as `for` loops over the input arrays, with
    invariants that tie each accumulator to the sum over the array prefix.
  - It stores the results in `const` fields.
  - `Valid()` states that every stored field is the least-squares statistic of the
    samples.
  - The accessors are functions whose contracts carry the documented properties.
  - `Create` returns an error result where the Java code throws
    `IllegalArgumentException`.

## Model

| member | source | states |
|---|---|---|
| Estimator.SalaryEstimator.constructor | src/SalaryEstimator.java:73-113 | on well-posed samples the constructed estimator is `Valid()`: slope, intercept, r2, svar0 and svar1 are the least-squares statistics of the samples it keeps |
| Estimator.SalaryEstimator.Create | src/SalaryEstimator.java:74-76 | construction fails with `ArrayLengthsNotEqual` exactly when the array lengths differ; otherwise it yields a fresh, valid estimator of the given samples |
| Estimator.SalaryEstimator.SumPass | src/SalaryEstimator.java:80-87 | the first loop leaves `sumx = Σx` and `sumy = Σy`, so `xbar` and `ybar` are the arithmetic means |
| Estimator.SalaryEstimator.CentredPass | src/SalaryEstimator.java:90-95 | the second loop leaves the sums of squared deviations of x and y and the sum of cross deviations about the given centres |
| Estimator.SalaryEstimator.ResidualPass | src/SalaryEstimator.java:100-106 | the third loop leaves the residual sum of squares of the line (slope, intercept) and its regression sum of squares about ȳ |
| Estimator.SumPassStep | src/SalaryEstimator.java:81-85 | one iteration of the first loop extends each prefix total by the next sample |
| Estimator.CentredSumsStep | src/SalaryEstimator.java:91-95 | one iteration of the second loop extends each centred sum by the next sample's term |
| Estimator.ResidualSumsStep | src/SalaryEstimator.java:102-106 | one iteration of the third loop extends RSS by (fit − yᵢ)² and SSR by (fit − ȳ)² |
| Estimator.SalaryEstimator.Slope | src/SalaryEstimator.java:96 | the slope solves the normal equation Sxx·slope = Sxy |
| Estimator.SalaryEstimator.Intercept | src/SalaryEstimator.java:97 | slope·x̄ + intercept = ȳ: the line passes through the mean sample |
| Estimator.SalaryEstimator.R2 | src/SalaryEstimator.java:135-148 | 0 ≤ R² ≤ 1; R² = 1 exactly when the line passes through every sample; R² = 0 exactly when the slope is 0 |
| Estimator.SalaryEstimator.InterceptStdErrSquared | src/SalaryEstimator.java:112 | the intercept variance is non-negative and equals svar/n + x̄²·svar1, so interceptStdErr's square root exists |
| Estimator.SalaryEstimator.SlopeStdErrSquared | src/SalaryEstimator.java:111 | the slope variance is non-negative and equals RSS/(n − 2)/Sxx, so slopeStdErr's square root exists |
| Estimator.SalaryEstimator.Predict | src/SalaryEstimator.java:174-176 | the prediction at v is ȳ + slope·(v − x̄); at v = x̄ it is ȳ |
| Estimator.SalaryEstimator.MinimisesSquaredResiduals | src/SalaryEstimator.java:10-12 | every line (a, b) has RSS at least that of the stored line, with equality only for the stored line |
| LeastSquares.FitMinimisesRss | src/SalaryEstimator.java:10-12 | the least-squares line minimises Σ(a·xᵢ + b − yᵢ)² over all (a, b), uniquely |
| LeastSquares.RssExcess | src/SalaryEstimator.java:100-106 | any line's RSS exceeds the fitted RSS by Sxx·(a − slope)² + n·(a·x̄ + b − ȳ)² |
| LeastSquares.RssExpansion | src/SalaryEstimator.java:100-106 | the RSS of any line expands into the sums of squares, cross sums and deviations about any centres |
| LeastSquares.SsrExpansion | src/SalaryEstimator.java:100-106 | the SSR of any line expands into the sums of squares and deviations about any centre |
| LeastSquares.RssAboutMeans | src/SalaryEstimator.java:100-106 | about the means, any line's RSS is a²·Sxx − 2a·Sxy + Syy + n·(a·x̄ + b − ȳ)² |
| LeastSquares.SsrAboutMeans | src/SalaryEstimator.java:100-106 | about x̄, any line's SSR is a²·Sxx + n·(a·x̄ + b − c)² |
| LeastSquares.FitSumsOfSquares | src/SalaryEstimator.java:100-106 | the fitted line's RSS is Syy − slope·Sxy and its SSR is slope·Sxy = slope²·Sxx |
| LeastSquares.SumOfSquaresDecomposition | src/SalaryEstimator.java:100-109 | the fitted line's RSS + SSR = Syy |
| LeastSquares.FitThroughMeans | src/SalaryEstimator.java:97 | the fitted line passes through (x̄, ȳ) |
| LeastSquares.SumDevValue | src/SalaryEstimator.java:80-87 | the deviations about c sum to Σs − n·c |
| LeastSquares.MeanBalances | src/SalaryEstimator.java:86-87 | the deviations about the mean sum to zero |
| LeastSquares.RssZeroOnlyIfExact | src/SalaryEstimator.java:102-106 | a line with zero RSS passes through every sample |
| LeastSquares.ExactHasZeroRss | src/SalaryEstimator.java:102-106 | a line through every sample has zero RSS |
| LeastSquares.RssZeroIffExact | src/SalaryEstimator.java:102-106 | RSS is zero exactly when the line passes through every sample |
| LeastSquares.R2InUnitInterval | src/SalaryEstimator.java:135-142 | R² lies in [0, 1] |
| LeastSquares.R2OneIffPerfectFit | src/SalaryEstimator.java:135-142 | R² = 1 exactly when the fitted line passes through every sample |
| LeastSquares.R2ZeroIffFlat | src/SalaryEstimator.java:135-142 | R² = 0 exactly when the fitted slope is zero |
| LeastSquares.R2Meaning | src/SalaryEstimator.java:135-142 | for the fitted slope and intercept, R² lies in [0, 1], is 1 exactly when the line passes through every sample and is 0 exactly when the slope is zero |
| LeastSquares.VariancesNonNegative | src/SalaryEstimator.java:108-112 | the residual, slope and intercept variances are all non-negative |
| LeastSquares.ExactThreePointFit | src/SalaryEstimator.java:73-113 | for x = [1, 2, 3] and y = [2, 4, 6] the fit gives slope 2, intercept 0, R² = 1 and both variances 0 |
| LeastSquares.InexactThreePointFit | src/SalaryEstimator.java:73-113 | for x = [1, 2, 3] and y = [1, 2, 2] the fit gives slope 1/2, intercept 2/3, R² = 3/4 (strictly between 0 and 1), slope variance 1/12 and intercept variance 7/18 |
| Invariance.Swap | src/SalaryEstimator.java:81-106 | exchanging the elements at i and i + 1 keeps the length, swaps those two and leaves every other element in place |
| Invariance.SumSwap | src/SalaryEstimator.java:81-85 | the first loop's totals do not depend on the order of two neighbouring samples |
| Invariance.SumSqDevSwap | src/SalaryEstimator.java:92-93 | a sum of squared deviations does not depend on the order of two neighbouring samples |
| Invariance.SumCrossDevSwap | src/SalaryEstimator.java:94 | the cross sum does not depend on the order of two neighbouring pairs |
| Invariance.RssSwap | src/SalaryEstimator.java:104 | the RSS of any line does not depend on the order of two neighbouring pairs |
| Invariance.SsrSwap | src/SalaryEstimator.java:105 | the SSR of any line does not depend on the order of two neighbouring samples |
| Invariance.CentredSumsSwap | src/SalaryEstimator.java:86-95 | exchanging two neighbouring pairs leaves x̄, ȳ, Sxx, Syy and Sxy unchanged |
| Invariance.FitIgnoresOrder | src/SalaryEstimator.java:73-113 | exchanging two neighbouring pairs keeps the samples well posed and leaves slope, intercept, R² and all three variances unchanged |
| Invariance.FitIgnoresReordering | src/SalaryEstimator.java:73-113 | any series of neighbouring exchanges, applied to both samples alike, keeps the samples well posed and leaves the slope, the intercept, R² and the three variances unchanged |
| Invariance.SumScale | src/SalaryEstimator.java:84 | scaling every response by k scales Σy by k |
| Invariance.MeanScale | src/SalaryEstimator.java:87 | scaling every response by k scales ȳ by k |
| Invariance.SumSqDevScale | src/SalaryEstimator.java:93 | scaling the samples and the centre by k scales the sum of squared deviations by k² |
| Invariance.SumCrossDevScale | src/SalaryEstimator.java:94 | scaling the responses and their centre by k scales the cross sum by k |
| Invariance.SsrScale | src/SalaryEstimator.java:105 | scaling a line and the centre of its fitted values by k scales the SSR by k² |
| Invariance.CentredSumSqScale | src/SalaryEstimator.java:93 | scaling every response by k scales Syy by k² |
| Invariance.CentredCrossScale | src/SalaryEstimator.java:94 | scaling every response by k scales Sxy by k |
| Invariance.FitSlopeScale | src/SalaryEstimator.java:96 | scaling every response by k ≠ 0 keeps the samples well posed and scales the slope by k |
| Invariance.R2Scale | src/SalaryEstimator.java:109 | scaling every response by k ≠ 0 leaves R² unchanged |
| Invariance.FitScalesWithResponse | src/SalaryEstimator.java:96-109 | scaling every response by k ≠ 0 scales the slope and the intercept by k and leaves R² unchanged |
| LeastSquares.SumSqDev | src/SalaryEstimator.java:92-93 | a sum of squared deviations is non-negative |
| LeastSquares.Rss | src/SalaryEstimator.java:104 | a residual sum of squares is non-negative |
| LeastSquares.Ssr | src/SalaryEstimator.java:105 | a regression sum of squares is non-negative |

## Left out

- `salaryData()` (src/SalaryEstimator.java:34-61) is not modelled. It reads a CSV file from a fixed path into two static 30-element arrays. That is file I/O and number parsing.
- `main` (src/SalaryEstimator.java:197-217) and `toString()` (src/SalaryEstimator.java:183-189) are not modelled. They are console I/O and decimal formatting.
- Estimator.SalaryEstimator.InterceptStdErrSquared: the square root is not modelled. `Math.sqrt` is a foreign floating-point call, so the model gives the squared standard error `svar0` and proves it non-negative, which is what makes the root exist.
- Estimator.SalaryEstimator.SlopeStdErrSquared: the square root is left out for the same reason. The model gives `svar1` and proves it non-negative.
- IEEE-754 rounding, NaN and infinity are not modelled. All arithmetic is exact over `real`.
- The constructor is modelled only on well-posed inputs. Besides arrays of equal length, these need:
  - at least three samples;
  - x values that are not all equal;
  - y values that are not all equal.

  The Java constructor checks only the lengths (lines 74-76), and `Create` models that check. It does not check the other three conditions; on inputs that break them it divides by zero in floating point (lines 86-87, 96, 109-110).
- The Java constructor raises no error for degenerate input. The model makes well-posedness a precondition of the constructor and of `Create`.
- The unused accumulator `sumx2` (src/SalaryEstimator.java:80, 83) is dropped. No output depends on it.
- Throwing `IllegalArgumentException` becomes the error result `Err(ArrayLengthsNotEqual)` of `Create`.
- The loop updates write each square as `Sq(e)` where the source writes `e * e`. `Sq(e)` is defined as `Power(e, 2, 1.0)`, and the lemma `SquareDef` proves that it equals e·e. In the same way `SumCrossDev` adds each cross deviation as `Cross(d, e)`, and the lemma `CrossDef` proves that it equals d·e; the second loop's own update is still the plain product. The indirection only keeps the verifier from multiplying squares and products out where no proof needs it.
