/**
 The interpolated percentile of sorted values: monotone, between the least and
 the greatest value, and moved by a change of scale as the values are.
 */
module Percentiles {
  import opened Sums
  import opened SortedValues

  function Interpolated(low: real, high: real, weight: real): real {
    Product(low, 1.0 - weight) + Product(high, weight)
  }

  // The value at a fractional index.
  function AtIndex(s: seq<real>, index: real): real
    requires s != [] && 0.0 <= index <= (|s| - 1) as real
  {
    var lower := index.Floor;
    if lower as real == index then s[lower] else Interpolated(s[lower], s[lower + 1], index - lower as real)
  }

  function IndexOf(n: nat, p: real): real {
    Product(p / 100.0, (n - 1) as real)
  }

  lemma IndexInRange(n: nat, p: real)
    requires n >= 1 && 0.0 <= p <= 100.0
    ensures 0.0 <= IndexOf(n, p) <= (n - 1) as real
  {
    var q, m := p / 100.0, (n - 1) as real;
    ProductSign(q, m);
    ProductSign(1.0 - q, m);
    assert Product(1.0 - q, m) == m - Product(q, m);
  }

  // Anything outside 0 to 100 indexes outside the list.
  function Percentile(s: seq<real>, p: real): real
    requires 0.0 <= p <= 100.0
  {
    if s == [] then 0.0
    else if |s| == 1 then s[0]
    else
      IndexInRange(|s|, p);
      AtIndex(s, IndexOf(|s|, p))
  }

  // ---- Interpolation ---------------------------------------------------------------------

  lemma IndexAt(n: nat, x: real)
    requires n >= 2 && 0.0 <= x <= (n - 1) as real
    ensures 0.0 <= 100.0 * x / (n - 1) as real <= 100.0 && IndexOf(n, 100.0 * x / (n - 1) as real) == x
  {
    var m := (n - 1) as real;
    var q := x / m;
    assert q * m == x;
    assert q < 0.0 ==> q * m < 0.0;
    assert q > 1.0 ==> q * m > m;
    var p := 100.0 * x / m;
    assert p * m == 100.0 * x;
    assert (p - 100.0 * q) * m == 0.0;
    assert p == 100.0 * q;
  }

  // Between the k-th and the next value the percentile runs along a straight line:
  // at 100 (k + w) / (n - 1) it is a share w of the way.
  lemma PercentileInterpolates(s: seq<real>, k: nat, w: real)
    requires k + 1 < |s| && 0.0 <= w <= 1.0
    ensures var p := 100.0 * (k as real + w) / (|s| - 1) as real;
      0.0 <= p <= 100.0 && Percentile(s, p) == s[k] + w * (s[k + 1] - s[k])
  {
    var x := k as real + w;
    IndexAt(|s|, x);
    if w == 1.0 {
      assert x.Floor == k + 1;
    } else {
      assert x.Floor == k;
      assert s[k] * (1.0 - w) + s[k + 1] * w == s[k] + w * (s[k + 1] - s[k]);
      assert w == 0.0 ==> w * (s[k + 1] - s[k]) == 0.0;
    }
  }

  // ---- Order -----------------------------------------------------------------------------

  lemma InterpolatedBetween(low: real, high: real, weight: real)
    requires low <= high && 0.0 <= weight <= 1.0
    ensures low <= Interpolated(low, high, weight) <= high
  {
    assert Interpolated(low, high, weight) == low + Product(high - low, weight);
    assert Interpolated(low, high, weight) == high - Product(high - low, 1.0 - weight);
    ProductSign(high - low, weight);
    ProductSign(high - low, 1.0 - weight);
  }

  lemma InterpolatedMonotone(low: real, high: real, w: real, w': real)
    requires low <= high && w <= w'
    ensures Interpolated(low, high, w) <= Interpolated(low, high, w')
  {
    assert Interpolated(low, high, w') - Interpolated(low, high, w) == Product(high - low, w' - w);
    ProductSign(high - low, w' - w);
  }

  // The value lies between those at the indices around it.
  lemma AtIndexBetween(s: seq<real>, index: real)
    requires s != [] && Sorted(s) && 0.0 <= index <= (|s| - 1) as real
    ensures s[index.Floor] <= AtIndex(s, index)
    ensures forall j :: index <= j as real && 0 <= j < |s| ==> AtIndex(s, index) <= s[j]
  {
    var lower := index.Floor;
    if lower as real != index {
      InterpolatedBetween(s[lower], s[lower + 1], index - lower as real);
    }
  }

  lemma AtIndexMonotone(s: seq<real>, i: real, j: real)
    requires s != [] && Sorted(s) && 0.0 <= i <= j <= (|s| - 1) as real
    ensures AtIndex(s, i) <= AtIndex(s, j)
  {
    AtIndexBetween(s, i);
    AtIndexBetween(s, j);
    if i.Floor == j.Floor {
      if i.Floor as real != i && j.Floor as real != j {
        InterpolatedMonotone(s[i.Floor], s[i.Floor + 1], i - i.Floor as real, j - j.Floor as real);
      }
    } else {
      assert i.Floor + 1 <= j.Floor;
      assert i <= (j.Floor) as real;
    }
  }

  // A percentile lies between the least and the greatest value, and a higher one
  // is not less.
  lemma PercentileMonotone(s: seq<real>, p: real, p': real)
    requires s != [] && Sorted(s) && 0.0 <= p <= p' <= 100.0
    ensures s[0] <= Percentile(s, p) <= Percentile(s, p') <= s[|s| - 1]
  {
    if |s| > 1 {
      IndexInRange(|s|, p);
      IndexInRange(|s|, p');
      IndexMonotone(|s|, p, p');
      AtIndexMonotone(s, IndexOf(|s|, p), IndexOf(|s|, p'));
      AtIndexBetween(s, IndexOf(|s|, p));
      AtIndexBetween(s, IndexOf(|s|, p'));
    }
  }

  lemma IndexMonotone(n: nat, p: real, p': real)
    requires n >= 1 && p <= p'
    ensures IndexOf(n, p) <= IndexOf(n, p')
  {
    var d, m := p' / 100.0 - p / 100.0, (n - 1) as real;
    ProductSign(d, m);
    assert IndexOf(n, p') - IndexOf(n, p) == Product(d, m);
  }

  // The extremes are reached.
  lemma PercentileEnds(s: seq<real>)
    requires s != []
    ensures Percentile(s, 0.0) == s[0] && Percentile(s, 100.0) == s[|s| - 1]
  {
    assert IndexOf(|s|, 0.0) == 0.0;
    assert IndexOf(|s|, 100.0) == (|s| - 1) as real;
  }

  // ---- Change of scale -------------------------------------------------------------------

  function Rescaled(x: real, a: real, b: real): real {
    Product(a, x) + b
  }

  function RescaledAll(s: seq<real>, a: real, b: real): (r: seq<real>)
  {
    seq(|s|, i requires 0 <= i < |s| => Rescaled(s[i], a, b))
  }

  lemma InterpolatedRescales(low: real, high: real, weight: real, a: real, b: real)
    ensures Interpolated(Rescaled(low, a, b), Rescaled(high, a, b), weight) == Rescaled(Interpolated(low, high, weight), a, b)
  {
    var u := 1.0 - weight;
    assert (a * low + b) * u == a * (low * u) + b * u;
    assert (a * high + b) * weight == a * (high * weight) + b * weight;
    assert b * u + b * weight == b;
    assert a * (low * u + high * weight) == a * (low * u) + a * (high * weight);
  }

  // A percentile of rescaled values is the rescaled percentile.
  lemma PercentileRescales(s: seq<real>, p: real, a: real, b: real)
    requires s != [] && 0.0 <= p <= 100.0
    ensures Percentile(RescaledAll(s, a, b), p) == Rescaled(Percentile(s, p), a, b)
  {
    if |s| > 1 {
      IndexInRange(|s|, p);
      var index := IndexOf(|s|, p);
      var lower := index.Floor;
      if lower as real != index {
        InterpolatedRescales(s[lower], s[lower + 1], index - lower as real, a, b);
      }
    }
  }

  lemma RescaledOrder(x: real, y: real, a: real, b: real)
    requires a > 0.0
    ensures x <= y <==> Rescaled(x, a, b) <= Rescaled(y, a, b)
  {
    assert Rescaled(y, a, b) - Rescaled(x, a, b) == Product(a, y - x);
    ProductSign(a, y - x);
  }

  lemma {:induction false} InsertedRescales(s: seq<real>, x: real, a: real, b: real)
    requires a > 0.0
    ensures Inserted(RescaledAll(s, a, b), Rescaled(x, a, b)) == RescaledAll(Inserted(s, x), a, b)
  {
    if s != [] {
      var n := |s| - 1;
      RescaledOrder(s[n], x, a, b);
      InsertedRescales(s[..n], x, a, b);
      assert RescaledAll(s, a, b)[..n] == RescaledAll(s[..n], a, b);
    }
  }

  lemma {:induction false} SortRescales(s: seq<real>, a: real, b: real)
    requires a > 0.0
    ensures Sort(RescaledAll(s, a, b)) == RescaledAll(Sort(s), a, b)
  {
    if s != [] {
      var n := |s| - 1;
      SortRescales(s[..n], a, b);
      InsertedRescales(Sort(s[..n]), s[n], a, b);
      assert RescaledAll(s, a, b)[..n] == RescaledAll(s[..n], a, b);
    }
  }
}
