/**
 Forecasting by a straight line: least squares over the indices 0 to n - 1,
 continued step by step from the last point.
 */
module LinearForecast {
  import opened Outcomes
  import opened Points
  import opened Sums
  import opened Division

  datatype Line = Line(slope: real, intercept: real)
  datatype Forecast = Forecast(timestamp: int, predicted: real, upper: real, lower: real, confidence: real)

  // ---- The fit ---------------------------------------------------------------------------

  function Xs(n: nat): (x: seq<real>)
  {
    seq(n, i requires 0 <= i < n => i as real)
  }

  function DenominatorOf(n: real, sx: real, sxx: real): real {
    n * sxx - sx * sx
  }

  function SlopeOf(n: real, sx: real, sy: real, sxy: real, d: real): real
    requires d != 0.0
  {
    (n * sxy - sx * sy) / d
  }

  function InterceptOf(n: real, sx: real, sy: real, m: real): real
    requires n != 0.0
  {
    (sy - m * sx) / n
  }

  ghost function Denominator(n: nat): real {
    DenominatorOf(n as real, Total(Xs(n)), Dot(Xs(n), Xs(n)))
  }

  ghost function Slope(y: seq<real>): real
    requires |y| >= 2
  {
    DenominatorPositive(|y|);
    SlopeOf(|y| as real, Total(Xs(|y|)), Total(y), Dot(Xs(|y|), y), Denominator(|y|))
  }

  ghost function Intercept(y: seq<real>): real
    requires |y| >= 2
  {
    InterceptOf(|y| as real, Total(Xs(|y|)), Total(y), Slope(y))
  }

  ghost function Fit(y: seq<real>): Line
    requires |y| >= 2
  {
    Line(Slope(y), Intercept(y))
  }

  lemma SumStep(t: real, k: real)
    requires 2.0 * t == Product(k, k - 1.0)
    ensures 2.0 * (t + k) == Product(k + 1.0, k)
  {
  }

  lemma DenominatorStep(k: real, t: real, q: real)
    requires 2.0 * t == Product(k, k - 1.0)
    ensures DenominatorOf(k + 1.0, t + k, q + Product(k, k)) == DenominatorOf(k, t, q) + q + Product(k, k)
  {
    var kk := k * k;
    assert t * k * 2.0 == kk * k - kk;
    assert (t + k) * (t + k) == t * t + 2.0 * (t * k) + kk;
    assert (k + 1.0) * (q + kk) == k * q + kk * k + q + kk;
  }

  lemma XsNext(n: nat)
    ensures Total(Xs(n + 1)) == Total(Xs(n)) + n as real
    ensures Dot(Xs(n + 1), Xs(n + 1)) == Dot(Xs(n), Xs(n)) + Product(n as real, n as real)
  {
    assert Xs(n + 1)[..n] == Xs(n);
  }

  lemma {:induction false} IndexSums(n: nat)
    ensures 2.0 * Total(Xs(n)) == Product(n as real, n as real - 1.0)
    ensures Dot(Xs(n), Xs(n)) >= 0.0
  {
    if n > 0 {
      IndexSums(n - 1);
      XsNext(n - 1);
      SumStep(Total(Xs(n - 1)), (n - 1) as real);
      ProductSign((n - 1) as real, (n - 1) as real);
      assert n as real == (n - 1) as real + 1.0;
    }
  }

  lemma DenominatorNext(n: nat)
    ensures Denominator(n + 1) == Denominator(n) + Dot(Xs(n), Xs(n)) + Product(n as real, n as real)
  {
    var k, t, q := n as real, Total(Xs(n)), Dot(Xs(n), Xs(n));
    assert Denominator(n + 1) == DenominatorOf(k + 1.0, t + k, q + Product(k, k)) by {
      XsNext(n);
      assert (n + 1) as real == k + 1.0;
    }
    assert DenominatorOf(k + 1.0, t + k, q + Product(k, k)) == DenominatorOf(k, t, q) + q + Product(k, k) by {
      IndexSums(n);
      DenominatorStep(k, t, q);
    }
  }

  // Each point more adds the squares of the indices to the denominator.
  lemma DenominatorGrows(n: nat)
    ensures Denominator(n + 1) >= Denominator(n) && (n >= 1 ==> Denominator(n + 1) > Denominator(n))
  {
    DenominatorNext(n);
    IndexSums(n);
    ProductSign(n as real, n as real);
  }

  lemma {:induction false} DenominatorPositive(n: nat)
    ensures Denominator(n) >= 0.0 && (n >= 2 ==> Denominator(n) > 0.0)
  {
    if n > 0 {
      DenominatorPositive(n - 1);
      DenominatorGrows(n - 1);
    }
  }

  // ---- Errors ----------------------------------------------------------------------------

  // The values of the line m x + b at the first n indices.
  ghost function LinePoints(n: nat, m: real, b: real): (p: seq<real>)
  {
    seq(n, i requires 0 <= i < n => Product(m, i as real) + b)
  }

  ghost function Errors(y: seq<real>, m: real, b: real): (e: seq<real>)
  {
    seq(|y|, i requires 0 <= i < |y| => y[i] - (Product(m, i as real) + b))
  }

  ghost function SquaredError(y: seq<real>, l: Line): real {
    Spread(Errors(y, l.slope, l.intercept), 0.0)
  }

  ghost function SumError(n: real, sx: real, sy: real, m: real, b: real): real {
    sy - (m * sx + n * b)
  }

  ghost function DotError(sx: real, sxy: real, sxx: real, m: real, b: real): real {
    sxy - (m * sxx + b * sx)
  }

  lemma SumErrorStep(n: nat, sx: real, sy: real, m: real, b: real, y: real, x: real, e: real)
    requires e == y - (Product(m, x) + b)
    ensures SumError(n as real, sx, sy, m, b) + e == SumError((n + 1) as real, sx + x, sy + y, m, b)
  {
    assert (n + 1) as real == n as real + 1.0;
  }

  lemma DotErrorStep(sx: real, sxy: real, sxx: real, m: real, b: real, y: real, x: real, e: real)
    requires e == y - (Product(m, x) + b)
    ensures DotError(sx, sxy, sxx, m, b) + Product(x, e) == DotError(sx + x, sxy + Product(x, y), sxx + Product(x, x), m, b)
  {
    assert x * (y - (m * x + b)) == x * y - m * (x * x) - b * x;
    assert m * (sxx + x * x) == m * sxx + m * (x * x);
  }

  lemma {:induction false} SumOfErrors(y: seq<real>, m: real, b: real)
    ensures Total(Errors(y, m, b)) == SumError(|y| as real, Total(Xs(|y|)), Total(y), m, b)
  {
    if y != [] {
      var n := |y| - 1;
      ErrorsPrefix(y, m, b);
      SumOfErrors(y[..n], m, b);
      XsNext(n);
      SumErrorStep(n, Total(Xs(n)), Total(y[..n]), m, b, y[n], n as real, Errors(y, m, b)[n]);
    }
  }

  lemma ErrorsPrefix(y: seq<real>, m: real, b: real)
    requires y != []
    ensures Errors(y, m, b)[..|y| - 1] == Errors(y[..|y| - 1], m, b)
  {
  }

  lemma DotNext(n: nat, w: seq<real>, front: seq<real>)
    requires |w| == n + 1 && w[..n] == front
    ensures Dot(Xs(n + 1), w) == Dot(Xs(n), front) + Product(n as real, w[n])
  {
    assert Xs(n + 1)[..n] == Xs(n) && Xs(n + 1)[n] == n as real;
  }

  lemma {:induction false} DotOfErrors(y: seq<real>, m: real, b: real)
    ensures Dot(Xs(|y|), Errors(y, m, b))
            == DotError(Total(Xs(|y|)), Dot(Xs(|y|), y), Dot(Xs(|y|), Xs(|y|)), m, b)
  {
    if y != [] {
      var n := |y| - 1;
      ErrorsPrefix(y, m, b);
      DotNext(n, Errors(y, m, b), Errors(y[..n], m, b));
      DotNext(n, y, y[..n]);
      XsNext(n);
      DotOfErrors(y[..n], m, b);
      DotErrorStep(Total(Xs(n)), Dot(Xs(n), y[..n]), Dot(Xs(n), Xs(n)), m, b, y[n], n as real, Errors(y, m, b)[n]);
    }
  }

  // The two normal equations of least squares.
  ghost predicate Solution(n: real, sx: real, sy: real, sxy: real, sxx: real, m: real, b: real) {
    SumError(n, sx, sy, m, b) == 0.0 && DotError(sx, sxy, sxx, m, b) == 0.0
  }

  ghost predicate Fitted(n: real, sx: real, sy: real, sxy: real, sxx: real, d: real, m: real, b: real) {
    && n > 0.0 && d != 0.0 && d == DenominatorOf(n, sx, sxx)
    && m == SlopeOf(n, sx, sy, sxy, d) && b == InterceptOf(n, sx, sy, m)
  }

  lemma Solves(n: real, sx: real, sy: real, sxy: real, sxx: real, d: real, m: real, b: real)
    requires Fitted(n, sx, sy, sxy, sxx, d, m, b)
    ensures Solution(n, sx, sy, sxy, sxx, m, b)
  {
    assert n * b == sy - m * sx;
    assert m * d == n * sxy - sx * sy;
    var z := sxy - (m * sxx + b * sx);
    assert n * z == n * sxy - m * (n * sxx) - (n * b) * sx;
    assert (n * b) * sx == sy * sx - m * (sx * sx);
    assert m * (n * sxx) - m * (sx * sx) == m * d;
    assert n * z == 0.0;
  }

  lemma IsFitted(y: seq<real>)
    requires |y| >= 2
    ensures Fitted(|y| as real, Total(Xs(|y|)), Total(y), Dot(Xs(|y|), y), Dot(Xs(|y|), Xs(|y|)), Denominator(|y|),
                   Slope(y), Intercept(y))
  {
    DenominatorPositive(|y|);
  }

  lemma Balanced(y: seq<real>, m: real, b: real)
    requires Solution(|y| as real, Total(Xs(|y|)), Total(y), Dot(Xs(|y|), y), Dot(Xs(|y|), Xs(|y|)), m, b)
    ensures Total(Errors(y, m, b)) == 0.0 && Dot(Xs(|y|), Errors(y, m, b)) == 0.0
  {
    SumOfErrors(y, m, b);
    DotOfErrors(y, m, b);
  }

  // The errors of the fit sum to zero and are orthogonal to the indices.
  lemma FitBalances(y: seq<real>)
    requires |y| >= 2
    ensures Total(Errors(y, Slope(y), Intercept(y))) == 0.0
    ensures Dot(Xs(|y|), Errors(y, Slope(y), Intercept(y))) == 0.0
  {
    IsFitted(y);
    Solves(|y| as real, Total(Xs(|y|)), Total(y), Dot(Xs(|y|), y), Dot(Xs(|y|), Xs(|y|)), Denominator(|y|),
           Slope(y), Intercept(y));
    Balanced(y, Slope(y), Intercept(y));
  }

  // ---- Least squares ---------------------------------------------------------------------

  ghost function Combined(m: real, b: real, dot: real, total: real): real {
    m * dot + b * total
  }

  lemma GapStep(m: real, b: real, de: real, te: real, x: real, e: real, g: real)
    requires g == Product(m, x) + b
    ensures Combined(m, b, de, te) + Product(e, g) == Combined(m, b, de + Product(x, e), te + e)
  {
    assert e * (m * x + b) == m * (x * e) + b * e;
    assert m * (de + x * e) == m * de + m * (x * e);
  }

  lemma {:induction false} DotPoints(e: seq<real>, m: real, b: real)
    ensures Dot(e, LinePoints(|e|, m, b)) == Combined(m, b, Dot(Xs(|e|), e), Total(e))
  {
    if e != [] {
      var n := |e| - 1;
      assert LinePoints(n + 1, m, b)[..n] == LinePoints(n, m, b);
      DotNext(n, e, e[..n]);
      DotPoints(e[..n], m, b);
      GapStep(m, b, Dot(Xs(n), e[..n]), Total(e[..n]), n as real, e[n], LinePoints(|e|, m, b)[n]);
    }
  }

  // Errors that sum to zero and are orthogonal to the indices are orthogonal to every line.
  lemma BalancedDotPoints(e: seq<real>, m: real, b: real)
    requires Total(e) == 0.0 && Dot(Xs(|e|), e) == 0.0
    ensures Dot(e, LinePoints(|e|, m, b)) == 0.0
  {
    DotPoints(e, m, b);
    CombinedZero(m, b, Dot(Xs(|e|), e), Total(e));
  }

  lemma CombinedZero(m: real, b: real, dot: real, total: real)
    requires dot == 0.0 && total == 0.0
    ensures Combined(m, b, dot, total) == 0.0
  {
  }

  ghost function Plus(e: seq<real>, g: seq<real>): (s: seq<real>)
    requires |e| == |g|
  {
    seq(|e|, i requires 0 <= i < |e| => e[i] + g[i])
  }

  lemma SquareOfSum(e: real, g: real)
    ensures Square(e + g - 0.0) == Square(e - 0.0) + 2.0 * Product(e, g) + Square(g - 0.0)
  {
    assert (e + g) * (e + g) == e * e + 2.0 * (e * g) + g * g;
  }

  lemma {:induction false} SpreadOfSum(e: seq<real>, g: seq<real>)
    requires |e| == |g|
    ensures Spread(Plus(e, g), 0.0) == Spread(e, 0.0) + 2.0 * Dot(e, g) + Spread(g, 0.0)
  {
    if e != [] {
      var n := |e| - 1;
      assert Plus(e, g)[..n] == Plus(e[..n], g[..n]);
      SpreadOfSum(e[..n], g[..n]);
      SquareOfSum(e[n], g[n]);
    }
  }

  lemma MinusAt(m: real, b: real, m': real, b': real, y: real, x: real)
    ensures y - (m' * x + b') == y - (m * x + b) + ((m - m') * x + (b - b'))
  {
    assert (m - m') * x == m * x - m' * x;
  }

  lemma ErrorsOff(y: seq<real>, m: real, b: real, m': real, b': real)
    ensures Errors(y, m', b') == Plus(Errors(y, m, b), LinePoints(|y|, m - m', b - b'))
  {
    forall i | 0 <= i < |y|
      ensures Errors(y, m', b')[i] == Plus(Errors(y, m, b), LinePoints(|y|, m - m', b - b'))[i]
    {
      MinusAt(m, b, m', b', y[i], i as real);
    }
  }

  // A line's squared error is that of the fit and the squared distance from the fit.
  lemma ErrorOfAnyLine(y: seq<real>, m: real, b: real)
    requires |y| >= 2
    ensures Spread(Errors(y, m, b), 0.0) == Spread(Errors(y, Slope(y), Intercept(y)), 0.0)
                                            + Spread(LinePoints(|y|, Slope(y) - m, Intercept(y) - b), 0.0)
  {
    var e := Errors(y, Slope(y), Intercept(y));
    FitBalances(y);
    BalancedDotPoints(e, Slope(y) - m, Intercept(y) - b);
    ErrorsOff(y, Slope(y), Intercept(y), m, b);
    SpreadOfSum(e, LinePoints(|y|, Slope(y) - m, Intercept(y) - b));
  }

  lemma ZeroTimes(m: real, b: real, x: real)
    ensures m == 0.0 && b == 0.0 ==> m * x + b == 0.0
  {
  }

  // Two indices determine a line.
  lemma PointsZeroIff(n: nat, m: real, b: real)
    requires n >= 2
    ensures (forall i :: 0 <= i < n ==> LinePoints(n, m, b)[i] == 0.0) <==> m == 0.0 && b == 0.0
  {
    var g := LinePoints(n, m, b);
    assert g[0] == b && g[1] == m + b;
    if m == 0.0 && b == 0.0 {
      forall i | 0 <= i < n ensures g[i] == 0.0 {
        ZeroTimes(m, b, i as real);
      }
    }
  }

  // No other line has as small a squared error.
  lemma LeastSquares(y: seq<real>, other: Line)
    requires |y| >= 2
    ensures SquaredError(y, Fit(y)) <= SquaredError(y, other)
    ensures SquaredError(y, Fit(y)) == SquaredError(y, other) <==> other == Fit(y)
  {
    var m, b := other.slope, other.intercept;
    ErrorOfAnyLine(y, m, b);
    SpreadZeroIff(LinePoints(|y|, Slope(y) - m, Intercept(y) - b), 0.0);
    PointsZeroIff(|y|, Slope(y) - m, Intercept(y) - b);
  }

  ghost predicate OnLine(y: seq<real>, l: Line) {
    forall i :: 0 <= i < |y| ==> y[i] == l.slope * i as real + l.intercept
  }

  lemma NoErrors(y: seq<real>, l: Line)
    requires OnLine(y, l)
    ensures SquaredError(y, l) == 0.0
  {
    var e := Errors(y, l.slope, l.intercept);
    assert forall i :: 0 <= i < |y| ==> e[i] == 0.0;
    SpreadZeroIff(e, 0.0);
  }

  // Points on a line are fitted by that line.
  lemma ExactFit(y: seq<real>, l: Line)
    requires |y| >= 2 && OnLine(y, l)
    ensures Fit(y) == l
  {
    NoErrors(y, l);
    SpreadZeroIff(Errors(y, Slope(y), Intercept(y)), 0.0);
    LeastSquares(y, l);
  }

  // ---- The forecast ----------------------------------------------------------------------

  // The loop ends for an interval that is positive or more than the horizon; with
  // an interval of zero or less that is not, its condition holds at every step.
  lemma StepsEndIff(interval: int, horizon: int)
    ensures (exists k: nat :: Elapsed(k, interval) > horizon) <==> interval > 0 || interval > horizon
  {
    if interval > 0 {
      var k: nat := if horizon < 0 then 0 else horizon;
      assert (k + 1) * interval >= k + 1;
      assert Elapsed(k, interval) > horizon;
    } else if interval > horizon {
      assert Elapsed(0, interval) > horizon;
    } else {
      forall k: nat ensures Elapsed(k, interval) <= horizon {
        assert (k + 1) * interval <= interval;
      }
    }
  }

  // The loop variable before step k.
  function Elapsed(k: nat, interval: int): int {
    (k + 1) * interval
  }

  function Steps(interval: int, horizon: int): nat {
    if interval > 0 && horizon >= interval then horizon / interval else 0
  }

  // The margin is a tenth of the prediction's absolute value.
  function WithMargin(timestamp: int, predicted: real): Forecast {
    var margin := (if predicted < 0.0 then -predicted else predicted) * 0.1;
    Forecast(timestamp, predicted, predicted + margin, predicted - margin, 0.8)
  }

  function Predicted(m: real, b: real, index: int): real {
    m * index as real + b
  }

  // The k-th forecast is k + 1 intervals after the last point, at index n + k.
  ghost function ForecastAt(data: seq<DataPoint>, k: nat): Forecast
    requires |data| >= 2
  {
    var n := |data|;
    WithMargin(data[n - 1].ts + Elapsed(k, data[n - 1].ts - data[n - 2].ts),
            Predicted(Slope(Values(data)), Intercept(Values(data)), n + k))
  }

  // Data on a line are continued on that line, at every step.
  lemma ForecastContinues(data: seq<DataPoint>, l: Line, k: nat)
    requires |data| >= 2 && OnLine(Values(data), l)
    ensures ForecastAt(data, k).predicted == l.slope * (|data| + k) as real + l.intercept
  {
    ExactFit(Values(data), l);
  }

  // Each forecast is one interval after the one before, the first one after the last
  // point; its bounds lie a tenth of the prediction to either side.
  lemma ForecastSpaced(data: seq<DataPoint>, k: nat)
    requires |data| >= 2
    ensures var n, f, g := |data|, ForecastAt(data, k), ForecastAt(data, k + 1);
            && ForecastAt(data, 0).timestamp - data[n - 1].ts == data[n - 1].ts - data[n - 2].ts
            && g.timestamp - f.timestamp == data[n - 1].ts - data[n - 2].ts
            && f.predicted == Product(Slope(Values(data)), (n + k) as real) + Intercept(Values(data))
            && f.lower <= f.predicted <= f.upper && f.confidence == 0.8
            && 10.0 * (f.upper - f.predicted) == 10.0 * (f.predicted - f.lower)
               == if f.predicted < 0.0 then -f.predicted else f.predicted
  {
    NextElapsed(k, data[|data| - 1].ts - data[|data| - 2].ts);
  }

  // The steps are as many whole intervals as the horizon holds.
  lemma StepsFill(interval: int, horizon: int)
    ensures var k := Steps(interval, horizon);
            && (k > 0 ==> interval > 0 && k * interval <= horizon)
            && (interval > 0 ==> (k + 1) * interval > horizon)
  {
    if interval > 0 && horizon >= interval {
      var k := horizon / interval;
      assert horizon == k * interval + horizon % interval;
      assert (k + 1) * interval == k * interval + interval;
    }
  }

  lemma StepsIs(k: nat, interval: int, horizon: int)
    requires Elapsed(k, interval) > horizon && (k > 0 ==> interval > 0 && Elapsed(k - 1, interval) <= horizon)
    requires interval > 0 || interval > horizon
    ensures k == Steps(interval, horizon)
  {
    if k > 0 {
      NextElapsed(k - 1, interval);
      ElapsedAtLeast(k - 1, interval);
      DivModIs(horizon, interval, k, horizon - Elapsed(k - 1, interval));
    }
  }

  lemma NextElapsed(k: nat, interval: int)
    ensures Elapsed(k + 1, interval) == Elapsed(k, interval) + interval
  {
    assert (k + 1) * interval + interval == (k + 2) * interval;
  }

  lemma ElapsedAtLeast(k: nat, interval: int)
    requires interval > 0
    ensures Elapsed(k, interval) >= interval
  {
    assert k * interval >= 0;
  }

  lemma StepNumber(k: nat, interval: int)
    requires interval > 0
    ensures Elapsed(k, interval) / interval == k + 1
    ensures Elapsed(k, interval) + interval == Elapsed(k + 1, interval)
  {
    NextElapsed(k, interval);
    ElapsedAtLeast(k, interval);
    DivModIs(Elapsed(k, interval), interval, k + 1, 0);
  }

  method LinearSums(y: seq<real>) returns (sumX: real, sumY: real, sumXY: real, sumX2: real)
    ensures sumX == Total(Xs(|y|)) && sumY == Total(y) && sumXY == Dot(Xs(|y|), y) && sumX2 == Dot(Xs(|y|), Xs(|y|))
  {
    sumX, sumY, sumXY, sumX2 := 0.0, 0.0, 0.0, 0.0;
    for i := 0 to |y|
      invariant sumX == Total(Xs(i)) && sumY == Total(y[..i])
      invariant sumXY == Dot(Xs(i), y[..i]) && sumX2 == Dot(Xs(i), Xs(i))
    {
      var x := i as real;
      XsNext(i);
      SumsNext(y, i);
      sumX := sumX + x;
      sumY := sumY + y[i];
      sumXY := sumXY + Product(x, y[i]);
      sumX2 := sumX2 + Product(x, x);
    }
    assert y[..|y|] == y;
  }

  lemma SumsNext(y: seq<real>, i: nat)
    requires i < |y|
    ensures (Total(y[..i + 1]), Dot(Xs(i + 1), y[..i + 1]))
            == (Total(y[..i]) + y[i], Dot(Xs(i), y[..i]) + Product(i as real, y[i]))
  {
    assert y[..i + 1][..i] == y[..i] && Xs(i + 1)[..i] == Xs(i);
  }

  method FitLine(y: seq<real>) returns (m: real, b: real)
    requires |y| >= 2
    ensures m == Slope(y) && b == Intercept(y)
  {
    var n := |y| as real;
    var sumX, sumY, sumXY, sumX2 := LinearSums(y);
    DenominatorPositive(|y|);
    m := SlopeOf(n, sumX, sumY, sumXY, DenominatorOf(n, sumX, sumX2));
    b := InterceptOf(n, sumX, sumY, m);
  }

  // The interval between the last two points must let the loop end.
  method LinearForecast(data: seq<DataPoint>, horizon: int) returns (r: Result<seq<Forecast>>)
    requires |data| >= 2 ==>
               var interval := data[|data| - 1].ts - data[|data| - 2].ts; interval > 0 || interval > horizon
    ensures r.Err? <==> |data| < 2
    ensures r.Ok? ==> |r.value| == Steps(data[|data| - 1].ts - data[|data| - 2].ts, horizon)
    ensures r.Ok? ==> forall k :: 0 <= k < |r.value| ==> r.value[k] == ForecastAt(data, k)
  {
    var n := |data|;
    if n < 2 {
      return Err("insufficient data for linear forecasting");
    }
    var m, b := FitLine(Values(data));
    var lastTimestamp := data[n - 1].ts;
    var interval := lastTimestamp - data[n - 2].ts;
    var results: seq<Forecast> := [];
    var t := interval;
    while t <= horizon
      invariant t == Elapsed(|results|, interval)
      invariant |results| > 0 ==> interval > 0 && Elapsed(|results| - 1, interval) <= horizon
      invariant forall k :: 0 <= k < |results| ==> results[k] == ForecastAt(data, k)
      decreases horizon - t
    {
      StepNumber(|results|, interval);
      results := results + [WithMargin(lastTimestamp + t, Predicted(m, b, n + t / interval - 1))];
      t := t + interval;
    }
    StepsIs(|results|, interval, horizon);
    r := Ok(results);
  }
}
