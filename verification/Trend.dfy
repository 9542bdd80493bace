/** Least-squares slope and volatility of a metric series (pkg/automation/failure_prediction.go, lines
    530-560 and 596-632), over exact reals. */
module Trend {

  function SumX(n: nat): real {
    if n == 0 then 0.0 else SumX(n - 1) + (n - 1) as real
  }

  function SumXX(n: nat): real {
    if n == 0 then 0.0 else SumXX(n - 1) + (n - 1) as real * (n - 1) as real
  }

  function SumY(y: seq<real>, n: nat): real
    requires n <= |y|
  {
    if n == 0 then 0.0 else SumY(y, n - 1) + y[n - 1]
  }

  function SumYY(y: seq<real>, n: nat): real
    requires n <= |y|
  {
    if n == 0 then 0.0 else SumYY(y, n - 1) + y[n - 1] * y[n - 1]
  }

  function SumXY(y: seq<real>, n: nat): real
    requires n <= |y|
  {
    if n == 0 then 0.0 else SumXY(y, n - 1) + (n - 1) as real * y[n - 1]
  }

  /** Determinant of the normal equations. */
  function Det(m: real, x: real, xx: real): real {
    m * xx - x * x
  }

  function Cross(m: real, x: real, sy: real, sxy: real): real {
    m * sxy - x * sy
  }

  function Denominator(n: nat): real {
    Det(n as real, SumX(n), SumXX(n))
  }

  function Numerator(y: seq<real>, n: nat): real
    requires n <= |y|
  {
    Cross(n as real, SumX(n), SumY(y, n), SumXY(y, n))
  }

  // --- The denominator ----------------------------------------------------------------------

  lemma {:induction false} ClosedForms(n: nat)
    ensures 2.0 * SumX(n) == n as real * (n as real - 1.0)
    ensures 6.0 * SumXX(n) == n as real * (n as real - 1.0) * (2.0 * n as real - 1.0)
  {
    if n > 0 {
      ClosedForms(n - 1);
      ClosedFormsStep((n - 1) as real);
    }
  }

  lemma ClosedFormsStep(m: real)
    ensures m * (m - 1.0) + 2.0 * m == (m + 1.0) * m
    ensures m * (m - 1.0) * (2.0 * m - 1.0) + 6.0 * (m * m) == (m + 1.0) * m * (2.0 * m + 1.0)
  {
    var q := m * m;
    assert m * (m - 1.0) == q - m;
    assert (q - m) * (2.0 * m - 1.0) == 2.0 * (q * m) - 3.0 * q + m;
    assert (m + 1.0) * m == q + m;
    assert (q + m) * (2.0 * m + 1.0) == 2.0 * (q * m) + 3.0 * q + m;
  }

  /** The denominator is n^2 (n^2 - 1) / 12, so the zero branch is unreachable for n >= 2. */
  lemma {:induction false} DenominatorClosedForm(n: nat)
    ensures 12.0 * Denominator(n) == (n as real * n as real) * (n as real * n as real - 1.0)
    ensures n >= 2 ==> Denominator(n) > 0.0
  {
    ClosedForms(n);
    DenominatorAlgebra(n as real, SumX(n), SumXX(n));
    if n >= 2 {
      var q := n as real * n as real;
      assert q >= 4.0 by {
        assert n as real >= 2.0;
        assert (n as real - 2.0) * (n as real + 2.0) >= 0.0;
      }
      assert q * (q - 1.0) > 0.0;
    }
  }

  lemma {:induction false} DenominatorPositive(n: nat)
    requires n >= 2
    ensures Denominator(n) > 0.0
  {
    DenominatorClosedForm(n);
  }

  lemma DenominatorAlgebra(m: real, x: real, xx: real)
    requires 2.0 * x == m * (m - 1.0) && 6.0 * xx == m * (m - 1.0) * (2.0 * m - 1.0)
    ensures 12.0 * (m * xx - x * x) == (m * m) * (m * m - 1.0)
  {
    var q := m * m;
    var p := m * (m - 1.0);
    assert p == q - m;
    assert 12.0 * (m * xx) == 2.0 * (m * (6.0 * xx));
    assert 12.0 * (x * x) == 3.0 * (p * p) by {
      assert (2.0 * x) * (2.0 * x) == p * p;
      assert (2.0 * x) * (2.0 * x) == 4.0 * (x * x);
    }
    assert p * (2.0 * m - 1.0) == 2.0 * (q * m) - 3.0 * q + m;
    assert m * (2.0 * (q * m) - 3.0 * q + m) == 2.0 * (q * q) - 3.0 * (q * m) + q by {
      assert m * (q * m) == q * q;
      assert m * q == q * m;
    }
    assert p * p == q * q - 2.0 * (q * m) + q;
  }

  // --- Linear data --------------------------------------------------------------------------

  function LineAt(a: real, b: real, x: real): real {
    a * x + b
  }

  predicate IsLine(y: seq<real>, a: real, b: real) {
    forall i :: 0 <= i < |y| ==> y[i] == LineAt(a, b, i as real)
  }

  /** The sums of data a*i + b. */
  predicate OnLine(a: real, b: real, m: real, x: real, xx: real, sy: real, sxy: real) {
    sy == a * x + b * m && sxy == a * xx + b * x
  }

  lemma {:induction false} LinearSums(y: seq<real>, a: real, b: real, n: nat)
    requires n <= |y| && IsLine(y, a, b)
    ensures OnLine(a, b, n as real, SumX(n), SumXX(n), SumY(y, n), SumXY(y, n))
  {
    if n == 0 {
      OnLineAtStart(a, b);
    } else {
      LinearSums(y, a, b, n - 1);
      OnLineStep(a, b, (n - 1) as real, y[n - 1], SumX(n - 1), SumXX(n - 1), SumY(y, n - 1), SumXY(y, n - 1),
                 n as real, SumX(n), SumXX(n), SumY(y, n), SumXY(y, n));
    }
  }

  lemma OnLineAtStart(a: real, b: real)
    ensures OnLine(a, b, 0.0, 0.0, 0.0, 0.0, 0.0)
  {
  }

  lemma OnLineStep(a: real, b: real, m: real, v: real, x: real, xx: real, sy: real, sxy: real,
                   m': real, x': real, xx': real, sy': real, sxy': real)
    requires OnLine(a, b, m, x, xx, sy, sxy) && v == LineAt(a, b, m)
    requires m' == m + 1.0 && x' == x + m && xx' == xx + m * m && sy' == sy + v && sxy' == sxy + m * v
    ensures OnLine(a, b, m', x', xx', sy', sxy')
  {
    assert m * (a * m + b) == a * (m * m) + b * m;
  }

  lemma ProductNonNegative(a: real, b: real)
    requires a >= 0.0 && b >= 0.0
    ensures a * b >= 0.0
  {
  }

  lemma SignOfFactor(v: real, d: real)
    requires d > 0.0
    ensures v < 0.0 ==> v * d < 0.0
  {
  }

  lemma CancelFactor(u: real, v: real, d: real)
    requires d != 0.0 && u * d == v * d
    ensures u == v
  {
    assert (u - v) * d == 0.0;
  }

  // --- Monotone data ------------------------------------------------------------------------

  predicate NonDecreasing(y: seq<real>) {
    forall i, j :: 0 <= i < j < |y| ==> y[i] <= y[j]
  }

  /** What the numerator gains from a sample of value `v` at place `m`, over the first `k` samples. */
  function Gain(k: real, m: real, v: real, x: real, sy: real, sxy: real): real {
    sxy + k * (m * v) - m * sy - x * v
  }

  lemma GainStep(i: real, m: real, v: real, w: real, x: real, sy: real, sxy: real,
                 k: real, x': real, sy': real, sxy': real)
    requires i <= m && w <= v && k == i + 1.0 && x' == x + i && sy' == sy + w && sxy' == sxy + i * w
    ensures Gain(k, m, v, x', sy', sxy') >= Gain(i, m, v, x, sy, sxy)
  {
    ProductNonNegative(m - i, v - w);
    assert (m - i) * (v - w) == m * v - m * w - i * v + i * w;
    assert (i + 1.0) * (m * v) == i * (m * v) + m * v;
    assert m * (sy + w) == m * sy + m * w;
    assert (x + i) * v == x * v + i * v;
  }

  /** That gain is a sum of products of gaps of equal sign. */
  lemma {:induction false} GapsNonNegative(y: seq<real>, n: nat, k: nat)
    requires NonDecreasing(y) && k <= n < |y|
    ensures Gain(k as real, n as real, y[n], SumX(k), SumY(y, k), SumXY(y, k)) >= 0.0
  {
    if k > 0 {
      GapsNonNegative(y, n, k - 1);
      GainStep((k - 1) as real, n as real, y[n], y[k - 1], SumX(k - 1), SumY(y, k - 1), SumXY(y, k - 1),
               k as real, SumX(k), SumY(y, k), SumXY(y, k));
    }
  }

  /** Chebyshev's sum inequality for the index sequence. */
  lemma {:induction false} NumeratorNonNegative(y: seq<real>, n: nat)
    requires NonDecreasing(y) && n <= |y|
    ensures Numerator(y, n) >= 0.0
  {
    if n > 0 {
      NumeratorNonNegative(y, n - 1);
      GapsNonNegative(y, n - 1, n - 1);
      NumeratorStep((n - 1) as real, y[n - 1], SumX(n - 1), SumY(y, n - 1), SumXY(y, n - 1),
                    n as real, SumX(n), SumY(y, n), SumXY(y, n));
    }
  }

  lemma NumeratorStep(m: real, v: real, x: real, sy: real, sxy: real, k: real, x': real, sy': real, sxy': real)
    requires k == m + 1.0 && x' == x + m && sy' == sy + v && sxy' == sxy + m * v
    ensures Cross(k, x', sy', sxy') == Cross(m, x, sy, sxy) + Gain(m, m, v, x, sy, sxy)
  {
    assert (m + 1.0) * (sxy + m * v) == m * sxy + m * (m * v) + sxy + m * v;
    assert (x + m) * (sy + v) == x * sy + x * v + m * sy + m * v;
  }

  /** What makes a number the least-squares slope of a series. */
  predicate IsSlope(y: seq<real>, slope: real) {
    if |y| < 2 then slope == 0.0 else Solves(slope, Denominator(|y|), Numerator(y, |y|))
  }

  predicate Solves(slope: real, den: real, num: real) {
    slope * den == num
  }

  /** `calculateLinearSlope`. */
  method LinearSlope(y: seq<real>) returns (slope: real)
    ensures IsSlope(y, slope)
  {
    if |y| < 2 {
      return 0.0;
    }
    var sumX, sumY, sumXY, sumXX := 0.0, 0.0, 0.0, 0.0;
    var i := 0;
    while i < |y|
      invariant 0 <= i <= |y|
      invariant sumX == SumX(i) && sumY == SumY(y, i) && sumXY == SumXY(y, i) && sumXX == SumXX(i)
    {
      var x := i as real;
      sumX := sumX + x;
      sumY := sumY + y[i];
      sumXY := sumXY + x * y[i];
      sumXX := sumXX + x * x;
      i := i + 1;
    }
    slope := Quotient(y, sumX, sumY, sumXY, sumXX);
  }

  /** The last lines of `calculateLinearSlope`, where the denominator cannot be zero. */
  method Quotient(y: seq<real>, sumX: real, sumY: real, sumXY: real, sumXX: real) returns (slope: real)
    requires |y| >= 2
    requires sumX == SumX(|y|) && sumY == SumY(y, |y|) && sumXY == SumXY(y, |y|) && sumXX == SumXX(|y|)
    ensures Solves(slope, Denominator(|y|), Numerator(y, |y|))
  {
    var nFloat := |y| as real;
    var denominator := nFloat * sumXX - sumX * sumX;
    DenominatorPositive(|y|);
    assert denominator == Denominator(|y|);
    slope := (nFloat * sumXY - sumX * sumY) / denominator;
    DivideBack(nFloat * sumXY - sumX * sumY, denominator, slope);
  }

  lemma DivideBack(a: real, d: real, r: real)
    requires d != 0.0 && r == a / d
    ensures r * d == a
  {
  }

  /** There is only one slope, and on data a*i + b it is a. */
  lemma {:induction false} SlopeOfLine(y: seq<real>, slope: real, a: real, b: real)
    requires |y| >= 2 && IsSlope(y, slope) && IsLine(y, a, b)
    ensures slope == a
  {
    LinearSums(y, a, b, |y|);
    SlopeFromSums(y, |y|, slope, a, b);
  }

  lemma {:induction false} SlopeFromSums(y: seq<real>, n: nat, slope: real, a: real, b: real)
    requires 2 <= n <= |y| && Solves(slope, Denominator(n), Numerator(y, n))
    requires OnLine(a, b, n as real, SumX(n), SumXX(n), SumY(y, n), SumXY(y, n))
    ensures slope == a
  {
    DenominatorPositive(n);
    LineAlgebra(n as real, SumX(n), SumXX(n), SumY(y, n), SumXY(y, n), Denominator(n), Numerator(y, n), a, b, slope);
  }

  lemma LineAlgebra(m: real, x: real, xx: real, sy: real, sxy: real,
                    den: real, num: real, a: real, b: real, slope: real)
    requires OnLine(a, b, m, x, xx, sy, sxy)
    requires den == Det(m, x, xx) && num == Cross(m, x, sy, sxy)
    requires Solves(slope, den, num) && den > 0.0
    ensures slope == a
  {
    assert m * sxy == a * (m * xx) + b * (m * x);
    assert x * sy == a * (x * x) + b * (m * x);
    assert num == a * den;
    CancelFactor(slope, a, den);
  }

  /** On a non-decreasing series the slope is never negative. */
  lemma {:induction false} SlopeOfRisingSeries(y: seq<real>, slope: real)
    requires IsSlope(y, slope) && NonDecreasing(y)
    ensures slope >= 0.0
  {
    if |y| >= 2 {
      DenominatorClosedForm(|y|);
      NumeratorNonNegative(y, |y|);
      SignOfFactor(slope, Denominator(|y|));
    }
  }

  // --- Volatility ---------------------------------------------------------------------------

  lemma {:induction false} SpreadNonNegative(y: seq<real>, v: real, k: nat)
    requires k <= |y|
    ensures SumYY(y, k) + k as real * (v * v) - 2.0 * (SumY(y, k) * v) >= 0.0
  {
    if k > 0 {
      SpreadNonNegative(y, v, k - 1);
      var w := y[k - 1];
      assert (w - v) * (w - v) >= 0.0;
      assert (w - v) * (w - v) == w * w - 2.0 * (w * v) + v * v;
      assert k as real * (v * v) == (k - 1) as real * (v * v) + v * v;
      assert SumY(y, k) * v == SumY(y, k - 1) * v + w * v;
    }
  }

  /** The number under the square root is the variance, which is never negative. */
  lemma {:induction false} VarianceNonNegative(y: seq<real>, n: nat)
    requires n <= |y|
    ensures n as real * SumYY(y, n) - SumY(y, n) * SumY(y, n) >= 0.0
  {
    if n > 0 {
      VarianceNonNegative(y, n - 1);
      SpreadNonNegative(y, y[n - 1], n - 1);
      var m, q, s, v := (n - 1) as real, SumYY(y, n - 1), SumY(y, n - 1), y[n - 1];
      assert (m + 1.0) * (q + v * v) == m * q + m * (v * v) + q + v * v;
      assert (s + v) * (s + v) == s * s + 2.0 * (s * v) + v * v;
    }
  }

  function MeanOf(y: seq<real>): real
    requires y != []
  {
    SumY(y, |y|) / |y| as real
  }

  function VarianceOf(y: seq<real>): real
    requires y != []
  {
    SumYY(y, |y|) / |y| as real - MeanOf(y) * MeanOf(y)
  }

  /** The square root in `calculateVolatility` is never taken of a negative number, on any series. */
  lemma {:induction false} VarianceOfNonNegative(y: seq<real>)
    requires y != []
    ensures VarianceOf(y) >= 0.0
  {
    var n := |y| as real;
    VarianceAlgebra(n, SumY(y, |y|), SumYY(y, |y|), MeanOf(y), VarianceOf(y));
    VarianceNonNegative(y, |y|);
    assert n * n > 0.0;
    SignOfFactor(VarianceOf(y), n * n);
  }

  /** `calculateVolatility` with a square root that is defined on non-negative numbers only. */
  method Volatility(y: seq<real>, sqrt: real --> real) returns (v: real)
    requires forall x :: x >= 0.0 ==> sqrt.requires(x)
    ensures |y| < 2 || MeanOf(y) == 0.0 ==> v == 0.0
    ensures |y| >= 2 && MeanOf(y) != 0.0 ==> VarianceOf(y) >= 0.0 && v == sqrt(VarianceOf(y)) / MeanOf(y)
  {
    if |y| < 2 {
      return 0.0;
    }
    var sum, sumSquares := 0.0, 0.0;
    var i := 0;
    while i < |y|
      invariant 0 <= i <= |y|
      invariant sum == SumY(y, i) && sumSquares == SumYY(y, i)
    {
      sum := sum + y[i];
      sumSquares := sumSquares + y[i] * y[i];
      i := i + 1;
    }
    var n := |y| as real;
    var mean := sum / n;
    var variance := sumSquares / n - mean * mean;
    assert mean == MeanOf(y);
    assert variance == VarianceOf(y);
    VarianceOfNonNegative(y);
    if mean == 0.0 {
      return 0.0;
    }
    v := sqrt(variance) / mean;
  }

  lemma VarianceAlgebra(n: real, sum: real, squares: real, mean: real, variance: real)
    requires n > 0.0 && mean == sum / n && variance == squares / n - mean * mean
    ensures mean * n == sum
    ensures variance * (n * n) == n * squares - sum * sum
  {
    var sq := squares / n;
    assert sq * n == squares;
    assert (mean * n) * (mean * n) == (mean * mean) * (n * n);
    assert (sq - mean * mean) * (n * n) == sq * (n * n) - (mean * mean) * (n * n);
    assert sq * (n * n) == (sq * n) * n;
  }

  // --- Least squares ------------------------------------------------------------------------

  function Square(x: real): real {
    x * x
  }

  /** The squared distance of two series on the first `n` samples. */
  function SquaredError(y: seq<real>, z: seq<real>, n: nat): real
    requires n <= |y| && n <= |z|
  {
    if n == 0 then 0.0 else SquaredError(y, z, n - 1) + Square(y[n - 1] - z[n - 1])
  }

  function SumProduct(y: seq<real>, z: seq<real>, n: nat): real
    requires n <= |y| && n <= |z|
  {
    if n == 0 then 0.0 else SumProduct(y, z, n - 1) + y[n - 1] * z[n - 1]
  }

  lemma SquareOfDifference(v: real, w: real)
    ensures Square(v - w) == v * v - 2.0 * (v * w) + w * w && Square(v - w) >= 0.0
  {
    var d := v - w;
    assert d * d == v * d - w * d;
    assert v * d == v * v - v * w && w * d == w * v - w * w;
  }

  lemma {:induction false} ErrorExpands(y: seq<real>, z: seq<real>, n: nat)
    requires n <= |y| && n <= |z|
    ensures SquaredError(y, z, n) == SumYY(y, n) - 2.0 * SumProduct(y, z, n) + SumYY(z, n)
    ensures SquaredError(y, z, n) >= 0.0
  {
    if n > 0 {
      ErrorExpands(y, z, n - 1);
      SquareOfDifference(y[n - 1], z[n - 1]);
    }
  }

  lemma {:induction false} ProductWithItself(y: seq<real>, n: nat)
    requires n <= |y|
    ensures SumProduct(y, y, n) == SumYY(y, n)
  {
    if n > 0 {
      ProductWithItself(y, n - 1);
    }
  }

  /** The value of a combination of two sums. */
  function Combined(a: real, b: real, sxy: real, sy: real): real {
    a * sxy + b * sy
  }

  lemma CombinedStep(a: real, b: real, i: real, v: real, w: real, sxy: real, sy: real, sxy': real, sy': real)
    requires w == LineAt(a, b, i) && sxy' == sxy + i * v && sy' == sy + v
    ensures Combined(a, b, sxy', sy') == Combined(a, b, sxy, sy) + v * w
  {
    assert v * (a * i + b) == a * (i * v) + b * v;
    assert a * (sxy + i * v) == a * sxy + a * (i * v);
    assert b * (sy + v) == b * sy + b * v;
  }

  /** Against a line, only two sums of a series matter. */
  lemma {:induction false} ProductWithLine(y: seq<real>, z: seq<real>, a: real, b: real, n: nat)
    requires n <= |y| && n <= |z| && IsLine(z, a, b)
    ensures SumProduct(y, z, n) == Combined(a, b, SumXY(y, n), SumY(y, n))
  {
    if n > 0 {
      ProductWithLine(y, z, a, b, n - 1);
      CombinedStep(a, b, (n - 1) as real, y[n - 1], z[n - 1],
                   SumXY(y, n - 1), SumY(y, n - 1), SumXY(y, n), SumY(y, n));
    }
  }

  /** The intercept that goes with a slope. */
  predicate FitsIntercept(c: real, s: real, m: real, x: real, sy: real) {
    c * m == sy - s * x
  }

  /** The normal equations: the fitted line has the sums of the series. */
  lemma NormalEquations(s: real, c: real, m: real, x: real, xx: real, sy: real, sxy: real,
                        den: real, num: real, ty: real, txy: real)
    requires m > 0.0 && den == Det(m, x, xx) && num == Cross(m, x, sy, sxy) && Solves(s, den, num)
    requires FitsIntercept(c, s, m, x, sy) && OnLine(s, c, m, x, xx, ty, txy)
    ensures ty == sy && txy == sxy
  {
    assert txy * m == s * (m * xx) + x * (c * m);
    assert x * (sy - s * x) == x * sy - s * (x * x);
    assert s * (m * xx - x * x) == s * (m * xx) - s * (x * x);
    assert txy * m == sxy * m;
    CancelFactor(txy, sxy, m);
  }

  lemma FittedSums(y: seq<real>, t: seq<real>, n: nat, slope: real, intercept: real)
    requires 2 <= n <= |y| && n <= |t| && Solves(slope, Denominator(n), Numerator(y, n)) && IsLine(t, slope, intercept)
    requires FitsIntercept(intercept, slope, n as real, SumX(n), SumY(y, n))
    ensures SumY(t, n) == SumY(y, n) && SumXY(t, n) == SumXY(y, n)
  {
    LinearSums(t, slope, intercept, n);
    NormalEquations(slope, intercept, n as real, SumX(n), SumXX(n), SumY(y, n), SumXY(y, n),
                    Denominator(n), Numerator(y, n), SumY(t, n), SumXY(t, n));
  }

  /** The slope is the least-squares slope: with the intercept that goes with it, no other line is closer
      to the series. */
  lemma SlopeIsLeastSquares(y: seq<real>, t: seq<real>, slope: real, intercept: real, z: seq<real>, a: real, b: real)
    requires |y| >= 2 && IsSlope(y, slope) && FitsIntercept(intercept, slope, |y| as real, SumX(|y|), SumY(y, |y|))
    requires |t| == |y| && IsLine(t, slope, intercept) && |z| == |y| && IsLine(z, a, b)
    ensures SquaredError(y, t, |y|) <= SquaredError(y, z, |y|)
  {
    var n := |y|;
    FittedSums(y, t, n, slope, intercept);
    ProductWithLine(y, z, a, b, n);
    ProductWithLine(t, z, a, b, n);
    ProductWithLine(y, t, slope, intercept, n);
    ProductWithLine(t, t, slope, intercept, n);
    ProductWithItself(t, n);
    ErrorExpands(y, z, n);
    ErrorExpands(y, t, n);
    ErrorExpands(t, z, n);
  }

  lemma {:induction false} ConstantSums(z: seq<real>, c: real, y: seq<real>, n: nat)
    requires n <= |z| && n <= |y| && forall i :: 0 <= i < |z| ==> z[i] == c
    ensures SumProduct(y, z, n) == c * SumY(y, n) && SumYY(z, n) == n as real * (c * c)
  {
    if n > 0 {
      ConstantSums(z, c, y, n - 1);
      assert c * (SumY(y, n - 1) + y[n - 1]) == c * SumY(y, n - 1) + y[n - 1] * c;
      assert n as real * (c * c) == (n - 1) as real * (c * c) + c * c;
    }
  }

  function Deviation(m: real, sy: real, syy: real, c: real): real {
    syy - 2.0 * (c * sy) + m * (c * c)
  }

  lemma DeviationFrom(y: seq<real>, z: seq<real>, c: real, n: nat)
    requires n <= |z| && n <= |y| && forall i :: 0 <= i < |z| ==> z[i] == c
    ensures SquaredError(y, z, n) == Deviation(n as real, SumY(y, n), SumYY(y, n), c)
  {
    ErrorExpands(y, z, n);
    ConstantSums(z, c, y, n);
  }

  /** What is under the square root is the mean squared deviation from the mean. */
  lemma VarianceIsMeanSquaredDeviation(y: seq<real>, z: seq<real>, mean: real, variance: real)
    requires y != [] && |z| == |y| && mean == MeanOf(y) && variance == VarianceOf(y)
    requires forall i :: 0 <= i < |z| ==> z[i] == mean
    ensures IsShareOf(variance, |y| as real, SquaredError(y, z, |y|))
  {
    DeviationFrom(y, z, mean, |y|);
    DeviationAlgebra(|y| as real, SumY(y, |y|), SumYY(y, |y|), mean, variance);
  }

  /** `part` is one of `n` equal parts of `whole`. */
  predicate IsShareOf(part: real, n: real, whole: real) {
    part * n == whole
  }

  lemma DeviationAlgebra(m: real, sy: real, syy: real, mean: real, variance: real)
    requires m > 0.0 && mean == sy / m && variance == syy / m - mean * mean
    ensures IsShareOf(variance, m, Deviation(m, sy, syy, mean))
  {
    var sq := syy / m;
    assert mean * m == sy && sq * m == syy;
    assert mean * sy == m * (mean * mean);
    assert (sq - mean * mean) * m == sq * m - m * (mean * mean);
  }
}
