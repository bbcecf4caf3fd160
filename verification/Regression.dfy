/**
 The trend line and the two forecasts of the metrics calculator, over real numbers.
 */
module Regression {
  import opened Options

  // ---- The sums of the fit ----

  function Square(e: real): real {
    e * e
  }

  /** A value weighted by its abscissa. */
  function Weighted(i: nat, e: real): real {
    i as real * e
  }

  function SumX(n: nat): real {
    if n == 0 then 0.0 else SumX(n - 1) + (n - 1) as real
  }

  function SumXX(n: nat): real {
    if n == 0 then 0.0 else SumXX(n - 1) + Square((n - 1) as real)
  }

  function SumY(y: seq<real>): real {
    if y == [] then 0.0 else SumY(y[..|y| - 1]) + y[|y| - 1]
  }

  function SumXY(y: seq<real>): real {
    if y == [] then 0.0 else SumXY(y[..|y| - 1]) + Weighted(|y| - 1, y[|y| - 1])
  }

  function DenominatorOf(n: real, sumX: real, sumX2: real): real {
    n * sumX2 - sumX * sumX
  }

  function Denominator(n: nat): real {
    DenominatorOf(n as real, SumX(n), SumXX(n))
  }

  function SlopeOf(n: real, sumX: real, sumY: real, sumXY: real, denom: real): real
    requires denom != 0.0
  {
    (n * sumXY - sumX * sumY) / denom
  }

  function InterceptOf(n: real, sumX: real, sumY: real, slope: real): real
    requires n != 0.0
  {
    (sumY - slope * sumX) / n
  }

  /** calculator.go, LinearRegression: slope and intercept. */
  function Fit(y: seq<real>): (real, real) {
    if |y| < 2 then (0.0, 0.0)
    else
      DenominatorAtLeastOne(|y|);
      var n := |y| as real;
      var slope := SlopeOf(n, SumX(|y|), SumY(y), SumXY(y), Denominator(|y|));
      (slope, InterceptOf(n, SumX(|y|), SumY(y), slope))
  }

  /** The point of the line with slope c and intercept d over the abscissa i. */
  function LineAt(c: real, d: real, i: nat): real {
    c * i as real + d
  }

  lemma LineAtValue(c: real, d: real, i: nat)
    ensures LineAt(c, d, i) == c * i as real + d
  {
  }

  lemma LineAtSum(a: real, b: real, c: real, d: real, i: nat)
    ensures LineAt(a + c, b + d, i) == LineAt(a, b, i) + LineAt(c, d, i)
  {
    var x := i as real;
    assert (a + c) * x == a * x + c * x;
  }

  lemma NextOnLine(c: real, d: real, i: nat)
    ensures LineAt(c, d, i + 1) == LineAt(c, d, i) + c
  {
    var x := i as real;
    assert (i + 1) as real == x + 1.0;
    assert c * (x + 1.0) == c * x + c;
  }

  // ---- Closed forms ----

  lemma {:induction false} SumXClosed(n: nat)
    ensures 2.0 * SumX(n) == n as real * (n as real - 1.0)
  {
    if n > 0 {
      SumXClosed(n - 1);
      assert n as real == (n - 1) as real + 1.0;
    }
  }

  lemma {:induction false} SumXXClosed(n: nat)
    ensures 6.0 * SumXX(n) == n as real * (n as real - 1.0) * (2.0 * n as real - 1.0)
  {
    if n > 0 {
      SumXXClosed(n - 1);
      var x := (n - 1) as real;
      assert n as real == x + 1.0;
      assert 6.0 * SumXX(n) == x * (x - 1.0) * (2.0 * x - 1.0) + 6.0 * (x * x);
    }
  }

  /** The sum of (x - m)^2 over x = 0, 1, ..., n - 1. */
  function Spread(n: nat, m: real): real {
    if n == 0 then 0.0 else Spread(n - 1, m) + Square((n - 1) as real - m)
  }

  lemma {:induction false} SpreadSums(n: nat, m: real)
    ensures Spread(n, m) == SumXX(n) - 2.0 * m * SumX(n) + n as real * (m * m)
  {
    if n > 0 {
      SpreadSums(n - 1, m);
      var x := (n - 1) as real;
      assert n as real == x + 1.0;
      assert (x - m) * (x - m) == x * x - 2.0 * m * x + m * m;
      assert 2.0 * m * SumX(n) == 2.0 * m * SumX(n - 1) + 2.0 * m * x;
      assert n as real * (m * m) == x * (m * m) + m * m;
    }
  }

  /** The closed form of S_xx in forecastCI is the spread of the abscissas around their mean. */
  lemma SxxClosedForm(n: nat)
    ensures Spread(n, (n as real - 1.0) / 2.0) == n as real * (n as real * n as real - 1.0) / 12.0
    ensures Denominator(n) == n as real * Spread(n, (n as real - 1.0) / 2.0)
  {
    hide SumX, SumXX, Spread;
    SumXClosed(n);
    SumXXClosed(n);
    SpreadSums(n, (n as real - 1.0) / 2.0);
    SxxArithmetic(n as real, SumX(n), SumXX(n), Spread(n, (n as real - 1.0) / 2.0));
  }

  lemma SxxArithmetic(n: real, sx: real, sxx: real, spread: real)
    requires 2.0 * sx == n * (n - 1.0) && 6.0 * sxx == n * (n - 1.0) * (2.0 * n - 1.0)
    requires spread == sxx - 2.0 * ((n - 1.0) / 2.0) * sx + n * (((n - 1.0) / 2.0) * ((n - 1.0) / 2.0))
    ensures spread == n * (n * n - 1.0) / 12.0
    ensures n * sxx - sx * sx == n * spread
  {
    assert sx == n * (n - 1.0) / 2.0;
    assert sxx == n * (n - 1.0) * (2.0 * n - 1.0) / 6.0;
    assert sx * sx == n * n * (n - 1.0) * (n - 1.0) / 4.0;
  }

  /** The denominator of the slope is never near zero, so the degenerate branch is not taken from two points on. */
  lemma {:induction false} DenominatorAtLeastOne(n: nat)
    requires n >= 2
    ensures Denominator(n) >= 1.0
  {
    hide SumX, SumXX, Spread;
    SxxClosedForm(n);
    DenominatorArithmetic(n as real, Denominator(n), Spread(n, (n as real - 1.0) / 2.0));
  }

  lemma DenominatorArithmetic(n: real, denom: real, spread: real)
    requires n >= 2.0 && spread == n * (n * n - 1.0) / 12.0 && denom == n * spread
    ensures denom >= 1.0
  {
    var q := n * n;
    assert q >= 4.0;
    assert denom == q * (q - 1.0) / 12.0;
    assert q * (q - 1.0) >= 4.0 * (q - 1.0);
  }

  // ---- Squared residuals ----

  /** The sum of squared residuals of the line a * x + b. */
  function Squares(y: seq<real>, a: real, b: real): (r: real)
    ensures r >= 0.0
  {
    if y == [] then 0.0
    else
      var e := y[|y| - 1] - LineAt(a, b, |y| - 1);
      SquareNonnegative(e);
      Squares(y[..|y| - 1], a, b) + Square(e)
  }

  lemma SquareNonnegative(e: real)
    ensures Square(e) >= 0.0
    ensures e != 0.0 ==> Square(e) > 0.0
  {
    if e != 0.0 {
      var m := if e < 0.0 then -e else e;
      MirroredSquare(e);
      PositiveSquare(m);
    }
  }

  lemma MirroredSquare(e: real)
    ensures Square(-e) == Square(e)
  {
  }

  lemma PositiveSquare(e: real)
    requires e > 0.0
    ensures Square(e) > 0.0
  {
    PositiveProduct(e, e, Square(e));
  }

  lemma PositiveProduct(a: real, b: real, product: real)
    requires a > 0.0 && b > 0.0 && product == a * b
    ensures product > 0.0
  {
  }

  function Residuals(y: seq<real>, a: real, b: real): real {
    if y == [] then 0.0
    else Residuals(y[..|y| - 1], a, b) + (y[|y| - 1] - LineAt(a, b, |y| - 1))
  }

  function WeightedResiduals(y: seq<real>, a: real, b: real): real {
    if y == [] then 0.0
    else WeightedResiduals(y[..|y| - 1], a, b) + Weighted(|y| - 1, y[|y| - 1] - LineAt(a, b, |y| - 1))
  }

  function ResidualForm(sy: real, sx: real, n: real, a: real, b: real): real {
    sy - a * sx - b * n
  }

  lemma {:induction false} ResidualSums(y: seq<real>, a: real, b: real)
    ensures Residuals(y, a, b) == ResidualForm(SumY(y), SumX(|y|), |y| as real, a, b)
    ensures WeightedResiduals(y, a, b) == ResidualForm(SumXY(y), SumXX(|y|), SumX(|y|), a, b)
  {
    hide ResidualForm, LineAt, Square, Weighted;
    if y == [] {
      ZeroForm(a, b);
    } else {
      var front, n, v := y[..|y| - 1], |y| - 1, y[|y| - 1];
      ResidualSums(front, a, b);
      ResidualStep(a, b, n, v, SumX(n), SumXX(n), SumY(front), SumXY(front));
    }
  }

  lemma ZeroForm(a: real, b: real)
    ensures ResidualForm(0.0, 0.0, 0.0, a, b) == 0.0
  {
  }

  lemma ResidualStep(a: real, b: real, n: nat, v: real, sx: real, sxx: real, sy: real, sxy: real)
    ensures var x, e := n as real, v - LineAt(a, b, n);
            && ResidualForm(sy + v, sx + x, (n + 1) as real, a, b) == ResidualForm(sy, sx, x, a, b) + e
            && ResidualForm(sxy + Weighted(n, v), sxx + Square(x), sx + x, a, b)
                == ResidualForm(sxy, sxx, sx, a, b) + Weighted(n, e)
  {
    var x := n as real;
    assert (n + 1) as real == x + 1.0;
    assert b * (x + 1.0) == b * x + b;
    assert a * (sx + x) == a * sx + a * x;
    assert x * (v - (a * x + b)) == x * v - a * (x * x) - b * x;
    assert a * (sxx + x * x) == a * sxx + a * (x * x);
    assert b * (sx + x) == b * sx + b * x;
  }

  /** The sum of (p * x + q)^2 over x = 0, 1, ..., n - 1: how far two lines are apart. */
  function Gap(n: nat, p: real, q: real): (r: real)
    ensures r >= 0.0
  {
    if n == 0 then 0.0
    else
      var g := LineAt(p, q, n - 1);
      SquareNonnegative(g);
      Gap(n - 1, p, q) + Square(g)
  }

  lemma {:induction false} GapPositive(n: nat, p: real, q: real)
    requires n >= 2 && (p != 0.0 || q != 0.0)
    ensures Gap(n, p, q) > 0.0
  {
    hide LineAt, Square;
    if n == 2 {
      assert Gap(2, p, q) == Gap(0, p, q) + Square(LineAt(p, q, 0)) + Square(LineAt(p, q, 1));
      LineAtValue(p, q, 0);
      NextOnLine(p, q, 0);
      SquareNonnegative(q);
      SquareNonnegative(p + q);
    } else {
      GapPositive(n - 1, p, q);
      SquareNonnegative(LineAt(p, q, n - 1));
    }
  }

  function MovedForm(squares: real, weighted: real, residuals: real, gap: real, p: real, q: real): real {
    squares - 2.0 * p * weighted - 2.0 * q * residuals + gap
  }

  /** Moving the line by p * x + q changes the squares by the two residual sums and the gap. */
  lemma {:induction false} MovedLine(y: seq<real>, a: real, b: real, p: real, q: real)
    ensures Squares(y, a + p, b + q)
         == MovedForm(Squares(y, a, b), WeightedResiduals(y, a, b), Residuals(y, a, b), Gap(|y|, p, q), p, q)
  {
    hide MovedForm, LineAt, Square, Weighted;
    if y == [] {
      ZeroMoved(p, q);
    } else {
      var front, n := y[..|y| - 1], |y| - 1;
      var e := y[n] - LineAt(a, b, n);
      MovedLine(front, a, b, p, q);
      LineAtSum(a, b, p, q, n);
      MovedStep(e, p, q, n, Squares(front, a, b), WeightedResiduals(front, a, b), Residuals(front, a, b), Gap(n, p, q));
    }
  }

  lemma ZeroMoved(p: real, q: real)
    ensures MovedForm(0.0, 0.0, 0.0, 0.0, p, q) == 0.0
  {
  }

  lemma MovedStep(e: real, p: real, q: real, n: nat, s: real, w: real, r: real, gap: real)
    ensures var g := LineAt(p, q, n);
            MovedForm(s + Square(e), w + Weighted(n, e), r + e, gap + Square(g), p, q)
                == MovedForm(s, w, r, gap, p, q) + Square(e - g)
  {
    var x, g := n as real, LineAt(p, q, n);
    assert (e - g) * (e - g) == e * e - 2.0 * (g * e) + g * g;
    assert g * e == p * (x * e) + q * e;
    assert p * (w + x * e) == p * w + p * (x * e);
    assert q * (r + e) == q * r + q * e;
  }

  /** The one line with the least sum of squared residuals. */
  ghost predicate IsBestFit(y: seq<real>, slope: real, intercept: real) {
    forall a, b ::
      && Squares(y, slope, intercept) <= Squares(y, a, b)
      && (Squares(y, a, b) == Squares(y, slope, intercept) ==> a == slope && b == intercept)
  }

  lemma NormalEquations(n: real, sx: real, sy: real, sxy: real, sxx: real, slope: real, intercept: real)
    requires n != 0.0 && n * sxx - sx * sx != 0.0
    requires slope == (n * sxy - sx * sy) / (n * sxx - sx * sx) && intercept == (sy - slope * sx) / n
    ensures sy - slope * sx - intercept * n == 0.0
    ensures sxy - slope * sxx - intercept * sx == 0.0
  {
    assert intercept * n == sy - slope * sx;
    var d := n * sxx - sx * sx;
    assert slope * d == n * sxy - sx * sy;
    assert slope * d == n * (slope * sxx) - slope * sx * sx;
    assert (intercept * n) * sx == sy * sx - slope * sx * sx;
    assert n * (sxy - slope * sxx - intercept * sx) == 0.0;
    ZeroFactor(n, sxy - slope * sxx - intercept * sx);
  }

  lemma ZeroFactor(n: real, z: real)
    requires n != 0.0 && n * z == 0.0
    ensures z == 0.0
  {
  }

  /** Least squares: from two points on, the fitted line is the unique minimiser of the squared residuals. */
  lemma FitIsBest(y: seq<real>)
    requires |y| >= 2
    ensures IsBestFit(y, Fit(y).0, Fit(y).1)
  {
    hide Squares, Gap, SumX, SumXX, SumXY, SumY, Residuals, WeightedResiduals;
    var (slope, intercept) := Fit(y);
    DenominatorAtLeastOne(|y|);
    NormalEquations(|y| as real, SumX(|y|), SumY(y), SumXY(y), SumXX(|y|), slope, intercept);
    ResidualSums(y, slope, intercept);
    forall a, b
      ensures Squares(y, slope, intercept) <= Squares(y, a, b)
      ensures Squares(y, a, b) == Squares(y, slope, intercept) ==> a == slope && b == intercept
    {
      var p, q := a - slope, b - intercept;
      MovedLine(y, slope, intercept, p, q);
      assert a == slope + p && b == intercept + q;
      assert Squares(y, a, b) == Squares(y, slope, intercept) + Gap(|y|, p, q);
      if p != 0.0 || q != 0.0 {
        GapPositive(|y|, p, q);
      }
    }
  }

  // ---- Adding a line to a series ----

  /** The series with the line c * x + d added to it. */
  function AddLine(y: seq<real>, c: real, d: real): (r: seq<real>)
    ensures |r| == |y| && forall i :: 0 <= i < |y| ==> r[i] == y[i] + LineAt(c, d, i)
  {
    seq(|y|, i requires 0 <= i < |y| => y[i] + LineAt(c, d, i))
  }

  lemma {:induction false} SquaresOfAddLine(y: seq<real>, c: real, d: real, a: real, b: real)
    ensures Squares(AddLine(y, c, d), a + c, b + d) == Squares(y, a, b)
  {
    if y != [] {
      hide LineAt, Square;
      var front, z, n := y[..|y| - 1], AddLine(y, c, d), |y| - 1;
      SquaresOfAddLine(front, c, d, a, b);
      assert z[..n] == AddLine(front, c, d);
      LineAtSum(a, b, c, d, n);
    }
  }

  /** The fit follows a line added to the series. */
  lemma FitOfAddLine(y: seq<real>, c: real, d: real)
    requires |y| >= 2
    ensures Fit(AddLine(y, c, d)) == (Fit(y).0 + c, Fit(y).1 + d)
  {
    hide Fit, Squares, AddLine;
    var z := AddLine(y, c, d);
    FitIsBest(y);
    FitIsBest(z);
    var (s, t) := Fit(z);
    SquaresOfAddLine(y, c, d, Fit(y).0, Fit(y).1);
    SquaresOfAddLine(y, c, d, s - c, t - d);
    assert s == (s - c) + c && t == (t - d) + d;
    assert Squares(z, s, t) <= Squares(z, Fit(y).0 + c, Fit(y).1 + d);
    assert Squares(y, Fit(y).0, Fit(y).1) <= Squares(y, s - c, t - d);
  }

  // ---- Holt's method ----

  function HoltLevel(alpha: real, v: real, level: real, trend: real): real {
    alpha * v + (1.0 - alpha) * (level + trend)
  }

  function HoltTrend(beta: real, next: real, level: real, trend: real): real {
    beta * (next - level) + (1.0 - beta) * trend
  }

  /** One step of the method: the level and trend after a further value. */
  function HoltNext(alpha: real, beta: real, v: real, level: real, trend: real): (real, real) {
    var next := HoltLevel(alpha, v, level, trend);
    (next, HoltTrend(beta, next, level, trend))
  }

  /** Level and trend after the points y[0..i + 1]. */
  function Holt(y: seq<real>, alpha: real, beta: real, i: nat): (real, real)
    requires i < |y| && |y| >= 2
  {
    if i == 0 then (y[0], y[1] - y[0])
    else HoltNext(alpha, beta, y[i], Holt(y, alpha, beta, i - 1).0, Holt(y, alpha, beta, i - 1).1)
  }

  function HoltForecast(y: seq<real>, alpha: real, beta: real): Option<real> {
    if |y| < 2 || alpha <= 0.0 || alpha > 1.0 || beta < 0.0 || beta > 1.0 then None
    else
      var (level, trend) := Holt(y, alpha, beta, |y| - 1);
      Some(level + trend)
  }

  lemma {:induction false} HoltOfAddLine(y: seq<real>, c: real, d: real, alpha: real, beta: real, i: nat)
    requires i < |y| && |y| >= 2
    ensures var before, after := Holt(y, alpha, beta, i), Holt(AddLine(y, c, d), alpha, beta, i);
            after == (before.0 + LineAt(c, d, i), before.1 + c)
  {
    hide LineAt, HoltNext, AddLine;
    if i > 0 {
      HoltOfAddLine(y, c, d, alpha, beta, i - 1);
      var before := Holt(y, alpha, beta, i - 1);
      NextOnLine(c, d, i - 1);
      HoltStep(alpha, beta, y[i], before.0, before.1, LineAt(c, d, i - 1), c);
    } else {
      NextOnLine(c, d, 0);
    }
  }

  lemma HoltStep(alpha: real, beta: real, v: real, level: real, trend: real, line: real, c: real)
    ensures var before := HoltNext(alpha, beta, v, level, trend);
            HoltNext(alpha, beta, v + (line + c), level + line, trend + c) == (before.0 + (line + c), before.1 + c)
  {
    hide HoltLevel, HoltTrend;
    LevelStep(alpha, v, level, trend, line, c);
    TrendStep(beta, HoltLevel(alpha, v, level, trend), level, trend, line, c);
  }

  lemma LevelStep(alpha: real, v: real, level: real, trend: real, line: real, c: real)
    ensures HoltLevel(alpha, v + (line + c), level + line, trend + c) == HoltLevel(alpha, v, level, trend) + (line + c)
  {
    var next := line + c;
    assert (1.0 - alpha) * (level + line + (trend + c)) == (1.0 - alpha) * (level + trend) + next - alpha * next;
    assert alpha * (v + next) == alpha * v + alpha * next;
  }

  lemma TrendStep(beta: real, next: real, level: real, trend: real, line: real, c: real)
    ensures HoltTrend(beta, next + (line + c), level + line, trend + c) == HoltTrend(beta, next, level, trend) + c
  {
    assert beta * (next + (line + c) - (level + line)) == beta * (next - level) + beta * c;
    assert (1.0 - beta) * (trend + c) == (1.0 - beta) * trend + c - beta * c;
  }

  /**
   The step as a correction: the level moves from what was predicted towards the value by alpha of
   the error, and the trend by beta of what the level moved.
   */
  lemma HoltCorrects(alpha: real, beta: real, v: real, level: real, trend: real)
    ensures var predicted := level + trend;
            var moved := Share(alpha, v - predicted);
            HoltNext(alpha, beta, v, level, trend) == (predicted + moved, trend + Share(beta, moved))
  {
    hide HoltLevel, HoltTrend, Share;
    LevelCorrects(alpha, v, level + trend, level, trend);
    TrendCorrects(beta, Share(alpha, v - (level + trend)), level, trend);
  }

  function Share(part: real, whole: real): real {
    part * whole
  }

  lemma LevelCorrects(alpha: real, v: real, predicted: real, level: real, trend: real)
    requires predicted == level + trend
    ensures HoltLevel(alpha, v, level, trend) == predicted + Share(alpha, v - predicted)
  {
    assert (1.0 - alpha) * predicted == predicted - alpha * predicted;
    assert alpha * (v - predicted) == alpha * v - alpha * predicted;
  }

  lemma TrendCorrects(beta: real, x: real, level: real, trend: real)
    ensures HoltTrend(beta, level + trend + x, level, trend) == trend + Share(beta, x)
  {
    assert beta * (trend + x) == beta * trend + beta * x;
    assert (1.0 - beta) * trend == trend - beta * trend;
  }

  /** Without smoothing the forecast goes on by the last difference. */
  lemma HoltUnsmoothed(y: seq<real>)
    requires |y| >= 2
    ensures HoltForecast(y, 1.0, 1.0) == Some(y[|y| - 1] + (y[|y| - 1] - y[|y| - 2]))
  {
    hide HoltNext;
    UnsmoothedState(y, |y| - 1);
  }

  lemma {:induction false} UnsmoothedState(y: seq<real>, i: nat)
    requires 1 <= i < |y|
    ensures Holt(y, 1.0, 1.0, i) == (y[i], y[i] - y[i - 1])
  {
    hide HoltNext;
    if i > 1 {
      UnsmoothedState(y, i - 1);
    }
    var (level, trend) := Holt(y, 1.0, 1.0, i - 1);
    UnsmoothedNext(y[i], level, trend);
    assert level == y[i - 1];
  }

  lemma UnsmoothedNext(v: real, level: real, trend: real)
    ensures HoltNext(1.0, 1.0, v, level, trend) == (v, v - level)
  {
  }

  // ---- The seasonally adjusted forecast ----

  function Detrended(y: seq<real>, slope: real, intercept: real): (r: seq<real>)
    ensures |r| == |y| && forall i :: 0 <= i < |y| ==> r[i] == y[i] - LineAt(slope, intercept, i)
  {
    seq(|y|, i requires 0 <= i < |y| => y[i] - LineAt(slope, intercept, i))
  }

  function PhaseSum(v: seq<real>, period: nat, phase: nat): real
    requires period > 0
  {
    if v == [] then 0.0
    else PhaseSum(v[..|v| - 1], period, phase) + if (|v| - 1) % period == phase then v[|v| - 1] else 0.0
  }

  function PhaseCount(n: nat, period: nat, phase: nat): (count: nat)
    requires period > 0
    ensures n > phase && phase < period ==> count > 0
  {
    if n == 0 then 0 else PhaseCount(n - 1, period, phase) + if (n - 1) % period == phase then 1 else 0
  }

  /** The mean of the values in one phase, 0 for a phase without values. */
  function PhaseMean(v: seq<real>, period: nat, phase: nat): real
    requires period > 0
  {
    var count := PhaseCount(|v|, period, phase);
    if count > 0 then PhaseSum(v, period, phase) / count as real else PhaseSum(v, period, phase)
  }

  function SeasonalForecast(y: seq<real>, period: int, slope: real): Option<real> {
    if |y| < period || period < 1 then None
    else
      var intercept := Fit(y).1;
      Some(LineAt(slope, intercept, |y|) + PhaseMean(Detrended(y, slope, intercept), period, |y| % period))
  }

  lemma {:induction false} PeriodicSum(v: seq<real>, c: seq<real>, phase: nat)
    requires phase < |c| && forall i :: 0 <= i < |v| ==> v[i] == c[i % |c|]
    ensures PhaseSum(v, |c|, phase) == PhaseCount(|v|, |c|, phase) as real * c[phase]
    decreases |v|
  {
    hide PhaseCount;
    PhaseCountStep(|v|, |c|, phase);
    if v != [] {
      PeriodicSum(v[..|v| - 1], c, phase);
      OneMore(PhaseCount(|v| - 1, |c|, phase), c[phase]);
    } else {
      assert (0 as real) * c[phase] == 0.0;
    }
  }

  lemma PhaseCountStep(n: nat, period: nat, phase: nat)
    requires period > 0
    ensures PhaseCount(n, period, phase)
         == if n == 0 then 0 else PhaseCount(n - 1, period, phase) + if (n - 1) % period == phase then 1 else 0
  {
  }

  lemma OneMore(n: nat, x: real)
    ensures (n + 1) as real * x == n as real * x + x
  {
  }

  /** A series that repeats has its repeated values as the means of its phases. */
  lemma PeriodicMean(v: seq<real>, c: seq<real>, phase: nat)
    requires phase < |c| && phase < |v| && forall i :: 0 <= i < |v| ==> v[i] == c[i % |c|]
    ensures PhaseMean(v, |c|, phase) == c[phase]
  {
    hide PhaseSum, PhaseCount;
    PeriodicSum(v, c, phase);
    Divided(PhaseCount(|v|, |c|, phase), c[phase]);
  }

  lemma Divided(n: nat, x: real)
    requires n > 0
    ensures n as real * x / n as real == x
  {
  }

  /**
   A line with a repeating pattern on top: the seasonally adjusted forecast is the line's next point
   with the pattern's next value on top.
   */
  lemma ForecastOfPattern(y: seq<real>, slope: real, c: seq<real>)
    requires 1 <= |c| <= |y|
    requires forall i :: 0 <= i < |y| ==> y[i] == LineAt(slope, Fit(y).1, i) + c[i % |c|]
    ensures SeasonalForecast(y, |c|, slope) == Some(LineAt(slope, Fit(y).1, |y|) + c[|y| % |c|])
  {
    hide Fit, PhaseMean, LineAt;
    PeriodicMean(Detrended(y, slope, Fit(y).1), c, |y| % |c|);
  }

  /** Which forecasts are refused. */
  lemma Refusals(y: seq<real>, alpha: real, beta: real, period: int, slope: real)
    ensures HoltForecast(y, alpha, beta).Some? <==> |y| >= 2 && 0.0 < alpha <= 1.0 && 0.0 <= beta <= 1.0
    ensures SeasonalForecast(y, period, slope).Some? <==> 1 <= period <= |y|
  {
  }

  /** Both forecasts follow a line added to the series: they move by the line's next point. */
  lemma ForecastsOfAddLine(y: seq<real>, c: real, d: real, period: int, slope: real, alpha: real, beta: real)
    ensures var next := LineAt(c, d, |y|);
            && (match HoltForecast(y, alpha, beta)
                case None => HoltForecast(AddLine(y, c, d), alpha, beta) == None
                case Some(f) => HoltForecast(AddLine(y, c, d), alpha, beta) == Some(f + next))
            && (match SeasonalForecast(y, period, slope)
                case None => SeasonalForecast(AddLine(y, c, d), period, slope + c) == None
                case Some(f) => SeasonalForecast(AddLine(y, c, d), period, slope + c) == Some(f + next))
  {
    hide AddLine, Fit, PhaseMean, Holt, LineAt;
    var z, n := AddLine(y, c, d), |y|;
    if n >= 2 {
      HoltOfAddLine(y, c, d, alpha, beta, n - 1);
      NextOnLine(c, d, n - 1);
    }
    if 1 <= period <= n {
      if n >= 2 {
        FitOfAddLine(y, c, d);
        DetrendedOfAddLine(y, c, d, slope, Fit(y).1);
        LineAtSum(slope, Fit(y).1, c, d, n);
      } else {
        OnePoint(y, slope);
        OnePoint(z, slope + c);
        LineAtValue(c, d, 0);
        NextOnLine(c, d, 0);
      }
    }
  }

  lemma DetrendedOfAddLine(y: seq<real>, c: real, d: real, slope: real, intercept: real)
    ensures Detrended(AddLine(y, c, d), slope + c, intercept + d) == Detrended(y, slope, intercept)
  {
    hide LineAt;
    var z := AddLine(y, c, d);
    forall i | 0 <= i < |y|
      ensures Detrended(z, slope + c, intercept + d)[i] == Detrended(y, slope, intercept)[i]
    {
      LineAtSum(slope, intercept, c, d, i);
    }
  }

  lemma OnePoint(y: seq<real>, slope: real)
    requires |y| == 1
    ensures SeasonalForecast(y, 1, slope) == Some(y[0] + slope)
  {
    var v := Detrended(y, slope, 0.0);
    assert v[..0] == [];
    assert PhaseSum(v, 1, 0) == PhaseSum(v[..0], 1, 0) + v[0];
    assert PhaseCount(1, 1, 0) == PhaseCount(0, 1, 0) + 1;
    assert PhaseMean(v, 1, 0) == v[0];
    assert slope * 0.0 == 0.0;
  }

  predicate OnLine(y: seq<real>, c: real, d: real) {
    forall i :: 0 <= i < |y| ==> y[i] == LineAt(c, d, i)
  }

  lemma {:induction false} ZeroSeries(y: seq<real>)
    requires forall i :: 0 <= i < |y| ==> y[i] == 0.0
    ensures SumY(y) == 0.0 && SumXY(y) == 0.0
  {
    if y != [] {
      ZeroSeries(y[..|y| - 1]);
    }
  }

  lemma {:induction false} ZeroPhases(v: seq<real>, period: nat, phase: nat)
    requires period > 0 && forall i :: 0 <= i < |v| ==> v[i] == 0.0
    ensures PhaseSum(v, period, phase) == 0.0
  {
    if v != [] {
      ZeroPhases(v[..|v| - 1], period, phase);
    }
  }

  lemma {:induction false} ZeroHolt(y: seq<real>, alpha: real, beta: real, i: nat)
    requires i < |y| && |y| >= 2 && forall k :: 0 <= k < |y| ==> y[k] == 0.0
    ensures Holt(y, alpha, beta, i) == (0.0, 0.0)
  {
    hide HoltNext;
    if i > 0 {
      ZeroHolt(y, alpha, beta, i - 1);
      HoltAtRest(alpha, beta);
    }
  }

  lemma HoltAtRest(alpha: real, beta: real)
    ensures HoltNext(alpha, beta, 0.0, 0.0, 0.0) == (0.0, 0.0)
  {
  }

  lemma ZeroForecasts(y: seq<real>, period: int, alpha: real, beta: real)
    requires |y| >= 2 && forall i :: 0 <= i < |y| ==> y[i] == 0.0
    requires 1 <= period <= |y| && 0.0 < alpha <= 1.0 && 0.0 <= beta <= 1.0
    ensures Fit(y) == (0.0, 0.0)
    ensures HoltForecast(y, alpha, beta) == Some(0.0) && SeasonalForecast(y, period, 0.0) == Some(0.0)
  {
    hide SumX, SumXX, SumXY, SumY, Denominator, PhaseSum, PhaseCount, Holt;
    ZeroSeries(y);
    DenominatorAtLeastOne(|y|);
    ZeroHolt(y, alpha, beta, |y| - 1);
    ZeroPhases(Detrended(y, 0.0, 0.0), period, |y| % period);
  }

  /**
   On an exactly linear series the fit is the line itself, and the linear, Holt and seasonally
   adjusted forecasts all give the line's next point.
   */
  lemma ForecastsOnLine(y: seq<real>, c: real, d: real, period: int, alpha: real, beta: real)
    requires |y| >= 2 && OnLine(y, c, d)
    requires 1 <= period <= |y| && 0.0 < alpha <= 1.0 && 0.0 <= beta <= 1.0
    ensures Fit(y) == (c, d)
    ensures LineAt(Fit(y).0, Fit(y).1, |y|) == LineAt(c, d, |y|)
    ensures HoltForecast(y, alpha, beta) == Some(LineAt(c, d, |y|))
    ensures SeasonalForecast(y, period, Fit(y).0) == Some(LineAt(c, d, |y|))
  {
    hide Fit, HoltForecast, SeasonalForecast, LineAt;
    var zeros := seq(|y|, _ => 0.0);
    assert y == AddLine(zeros, c, d);
    ZeroForecasts(zeros, period, alpha, beta);
    FitOfAddLine(zeros, c, d);
    ForecastsOfAddLine(zeros, c, d, period, 0.0, alpha, beta);
    assert 0.0 + c == c;
  }

  // ---- The loops ----

  /** The loop of LinearRegression. */
  method Sums(y: seq<real>) returns (sumX: real, sumY: real, sumXY: real, sumX2: real)
    ensures sumX == SumX(|y|) && sumX2 == SumXX(|y|) && sumY == SumY(y) && sumXY == SumXY(y)
  {
    hide Square, Weighted;
    sumX, sumY, sumXY, sumX2 := 0.0, 0.0, 0.0, 0.0;
    for i := 0 to |y|
      invariant sumX == SumX(i) && sumX2 == SumXX(i)
      invariant sumY == SumY(y[..i]) && sumXY == SumXY(y[..i])
    {
      assert y[..i + 1][..i] == y[..i];
      sumX := sumX + i as real;
      sumY := sumY + y[i];
      sumXY := sumXY + Weighted(i, y[i]);
      sumX2 := sumX2 + Square(i as real);
    }
    assert y[..|y|] == y;
  }

  /** LinearRegression; the constant line for a vanishing denominator is never returned from two points on. */
  method LinearRegression(y: seq<real>) returns (slope: real, intercept: real)
    ensures (slope, intercept) == Fit(y)
    ensures |y| >= 2 ==> IsBestFit(y, slope, intercept)
  {
    if |y| < 2 {
      return 0.0, 0.0;
    }
    hide Squares, IsBestFit, SumX, SumXX, SumY, SumXY, DenominatorOf, SlopeOf, InterceptOf;
    FitIsBest(y);
    var sumX, sumY, sumXY, sumX2 := Sums(y);
    var n := |y| as real;
    var denom := DenominatorOf(n, sumX, sumX2);
    if -0.00000000000000000001 < denom < 0.00000000000000000001 {
      slope, intercept := 0.0, sumY / n;
      DenominatorAtLeastOne(|y|);
      assert false;
    } else {
      slope := SlopeOf(n, sumX, sumY, sumXY, denom);
      intercept := InterceptOf(n, sumX, sumY, slope);
    }
  }

  /** holtForecast; None stands for NaN. */
  method ForecastByHolt(y: seq<real>, alpha: real, beta: real) returns (forecast: Option<real>)
    ensures forecast == HoltForecast(y, alpha, beta)
  {
    if |y| < 2 || alpha <= 0.0 || alpha > 1.0 || beta < 0.0 || beta > 1.0 {
      return None;
    }
    hide HoltLevel, HoltTrend;
    var level, trend := y[0], y[1] - y[0];
    for i := 1 to |y|
      invariant (level, trend) == Holt(y, alpha, beta, i - 1)
    {
      var next := HoltLevel(alpha, y[i], level, trend);
      trend := HoltTrend(beta, next, level, trend);
      level := next;
    }
    return Some(level + trend);
  }

  /** The seasonal indices: the mean of each phase, summed up in one pass. */
  method SeasonalIndices(v: seq<real>, period: nat) returns (indices: array<real>)
    requires period > 0
    ensures fresh(indices) && indices.Length == period
    ensures forall k :: 0 <= k < period ==> indices[k] == PhaseMean(v, period, k)
  {
    indices := new real[period](_ => 0.0);
    var counts := new int[period](_ => 0);
    for i := 0 to |v|
      invariant forall k :: 0 <= k < period ==> indices[k] == PhaseSum(v[..i], period, k)
      invariant forall k :: 0 <= k < period ==> counts[k] == PhaseCount(i, period, k)
    {
      assert v[..i + 1][..i] == v[..i];
      var phase := i % period;
      indices[phase] := indices[phase] + v[i];
      counts[phase] := counts[phase] + 1;
    }
    assert v[..|v|] == v;
    hide PhaseSum, PhaseCount;
    for i := 0 to period
      invariant forall k :: 0 <= k < i ==> indices[k] == PhaseMean(v, period, k)
      invariant forall k :: i <= k < period ==> indices[k] == PhaseSum(v, period, k)
      invariant forall k :: 0 <= k < period ==> counts[k] == PhaseCount(|v|, period, k)
    {
      if counts[i] > 0 {
        indices[i] := indices[i] / counts[i] as real;
      }
    }
  }

  method Detrend(y: seq<real>, slope: real, intercept: real) returns (detrended: seq<real>)
    ensures detrended == Detrended(y, slope, intercept)
  {
    hide LineAt;
    detrended := [];
    for i := 0 to |y|
      invariant |detrended| == i && forall k :: 0 <= k < i ==> detrended[k] == y[k] - LineAt(slope, intercept, k)
    {
      detrended := detrended + [y[i] - LineAt(slope, intercept, i)];
    }
  }

  /** seasonallyAdjustedForecast; None stands for NaN. */
  method ForecastBySeason(y: seq<real>, period: int, slope: real) returns (forecast: Option<real>)
    ensures forecast == SeasonalForecast(y, period, slope)
  {
    if |y| < period || period < 1 {
      return None;
    }
    hide Fit, IsBestFit, PhaseMean, LineAt;
    var _, intercept := LinearRegression(y);
    var trendForecast := LineAt(slope, intercept, |y|);
    var detrended := Detrend(y, slope, intercept);
    var indices := SeasonalIndices(detrended, period);
    return Some(trendForecast + indices[|y| % period]);
  }
}
