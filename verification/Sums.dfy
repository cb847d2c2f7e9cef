/**
 Sums over lists of values.
 */
module Sums {

  function Total(v: seq<real>): real {
    if v == [] then 0.0 else Total(v[..|v| - 1]) + v[|v| - 1]
  }

  function Mean(v: seq<real>): real
    requires v != []
  {
    Total(v) / |v| as real
  }

  // Sum of squared distances from c.
  function Spread(v: seq<real>, c: real): real {
    if v == [] then 0.0 else Spread(v[..|v| - 1], c) + Square(v[|v| - 1] - c)
  }

  function Dot(a: seq<real>, w: seq<real>): real
    requires |a| == |w|
  {
    if a == [] then 0.0 else Dot(a[..|a| - 1], w[..|a| - 1]) + Product(a[|a| - 1], w[|a| - 1])
  }

  function Product(x: real, y: real): real {
    x * y
  }

  function Square(x: real): real {
    x * x
  }

  lemma PositiveProduct(s: real, x: real, y: real)
    requires s == x * y && ((x > 0.0 && y > 0.0) || (x < 0.0 && y < 0.0))
    ensures s > 0.0
  {
  }

  lemma ProductSign(x: real, y: real)
    ensures x >= 0.0 && y >= 0.0 ==> Product(x, y) >= 0.0
    ensures x > 0.0 && y > 0.0 ==> Product(x, y) > 0.0
    ensures x > 0.0 && y < 0.0 ==> Product(x, y) < 0.0
  {
    if x > 0.0 && y > 0.0 {
      PositiveProduct(Product(x, y), x, y);
    } else if x > 0.0 && y < 0.0 {
      PositiveProduct(Product(x, -y), x, -y);
      assert Product(x, -y) == -Product(x, y);
    }
  }

  lemma SquareZero(x: real)
    ensures Square(x) >= 0.0
    ensures x == 0.0 ==> Square(x) == 0.0
    ensures x != 0.0 ==> Square(x) > 0.0
  {
    if x != 0.0 {
      PositiveProduct(Square(x), x, x);
    }
  }

  // There is no spread exactly when every value is c.
  lemma {:induction false} SpreadZeroIff(v: seq<real>, c: real)
    ensures Spread(v, c) >= 0.0
    ensures Spread(v, c) == 0.0 <==> forall i :: 0 <= i < |v| ==> v[i] == c
  {
    if v != [] {
      var n := |v| - 1;
      SpreadZeroIff(v[..n], c);
      SquareZero(v[n] - c);
      assert forall i :: 0 <= i < n ==> v[i] == v[..n][i];
    }
  }

  lemma SquareAway(x: real, m: real, c: real)
    ensures Square(x - c) == Square(x - m) + 2.0 * Product(m - c, x - m) + Square(m - c)
  {
    var d, e := x - m, m - c;
    assert (d + e) * (d + e) == d * d + 2.0 * (e * d) + e * e;
  }

  // What n values with the sum t add to the spread around m when the centre is e off.
  ghost function Away(e: real, t: real, n: real, m: real): real {
    2.0 * Product(e, t - Product(n, m)) + Product(n, Square(e))
  }

  lemma AwayStep(e: real, t: real, n: real, m: real, x: real)
    ensures Away(e, t + x, n + 1.0, m) == Away(e, t, n, m) + 2.0 * Product(e, x - m) + Square(e)
  {
    var nm, ee := n * m, e * e;
    assert (n + 1.0) * m == nm + m && (n + 1.0) * ee == n * ee + ee;
    assert e * (t + x - (nm + m)) == e * (t - nm) + e * (x - m);
  }

  lemma {:induction false} SpreadAway(v: seq<real>, m: real, c: real)
    ensures Spread(v, c) == Spread(v, m) + Away(m - c, Total(v), |v| as real, m)
  {
    if v != [] {
      var n := |v| - 1;
      SpreadAway(v[..n], m, c);
      SquareAway(v[n], m, c);
      AwayStep(m - c, Total(v[..n]), n as real, m, v[n]);
      assert |v| as real == n as real + 1.0;
    }
  }

  lemma AwayAtMean(e: real, t: real, n: real, m: real)
    requires t == Product(n, m)
    ensures Away(e, t, n, m) == Product(n, Square(e))
  {
    assert Product(e, 0.0) == 0.0;
  }

  lemma MeanTimes(t: real, n: real)
    requires n > 0.0
    ensures t == Product(n, t / n)
  {
  }

  // The values are closest to their mean; every other centre adds its squared
  // distance from the mean once per value.
  lemma MeanMinimises(v: seq<real>, c: real)
    requires v != []
    ensures Spread(v, c) == Spread(v, Mean(v)) + Product(|v| as real, Square(Mean(v) - c))
  {
    var n := |v| as real;
    SpreadAway(v, Mean(v), c);
    MeanTimes(Total(v), n);
    AwayAtMean(Mean(v) - c, Total(v), n, Mean(v));
  }
}
