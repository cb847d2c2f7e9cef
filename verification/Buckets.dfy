/**
 Values put into buckets by a label each: sums and counts by bucket, and the
 law of total variance for every labelling.
 */
module Buckets {
  import opened Sums

  ghost predicate Labelling(labels: seq<nat>, p: nat) {
    forall i :: 0 <= i < |labels| ==> labels[i] < p
  }

  function BucketSums(v: seq<real>, labels: seq<nat>, p: nat): (sums: seq<real>)
    requires |labels| == |v| && Labelling(labels, p)
    ensures |sums| == p
  {
    if v == [] then seq(p, _ => 0.0) else
      var n := |v| - 1;
      var before := BucketSums(v[..n], labels[..n], p);
      before[labels[n] := before[labels[n]] + v[n]]
  }

  function BucketCounts(labels: seq<nat>, p: nat): (counts: seq<nat>)
    requires Labelling(labels, p)
    ensures |counts| == p
  {
    if labels == [] then seq(p, _ => 0) else
      var n := |labels| - 1;
      var before := BucketCounts(labels[..n], p);
      before[labels[n] := before[labels[n]] + 1]
  }

  // The mean of each bucket, 0 for an empty one.
  function BucketMeans(v: seq<real>, labels: seq<nat>, p: nat): (means: seq<real>)
    requires |labels| == |v| && Labelling(labels, p)
  {
    var sums, counts := BucketSums(v, labels, p), BucketCounts(labels, p);
    seq(p, b requires 0 <= b < p => if counts[b] > 0 then sums[b] / counts[b] as real else 0.0)
  }

  // ---- Sums by bucket --------------------------------------------------------------------

  // The sum over the data, each value times the weight of its bucket.
  ghost function Weighted(v: seq<real>, labels: seq<nat>, w: seq<real>): real
    requires |labels| == |v| && Labelling(labels, |w|)
  {
    if v == [] then 0.0 else
      var n := |v| - 1;
      Weighted(v[..n], labels[..n], w) + Product(v[n], w[labels[n]])
  }

  lemma SumTimes(a: real, x: real, w: real)
    ensures Product(a + x, w) == Product(a, w) + Product(x, w)
  {
  }

  lemma {:induction false} DotUpdate(a: seq<real>, w: seq<real>, j: nat, x: real)
    requires |a| == |w| && j < |a|
    ensures Dot(a[j := a[j] + x], w) == Dot(a, w) + Product(x, w[j])
  {
    var n, b := |a| - 1, a[j := a[j] + x];
    if j == n {
      assert b[..n] == a[..n];
      SumTimes(a[n], x, w[n]);
    } else {
      assert b[..n] == a[..n][j := a[..n][j] + x];
      DotUpdate(a[..n], w[..n], j, x);
    }
  }

  lemma ZeroTimes(w: real)
    ensures Product(0.0, w) == 0.0
  {
  }

  lemma {:induction false} DotZero(a: seq<real>, w: seq<real>)
    requires |a| == |w| && forall b :: 0 <= b < |a| ==> a[b] == 0.0
    ensures Dot(a, w) == 0.0
  {
    if a != [] {
      DotZero(a[..|a| - 1], w[..|a| - 1]);
      ZeroTimes(w[|a| - 1]);
    }
  }

  lemma SumsNext(v: seq<real>, labels: seq<nat>, p: nat)
    requires |labels| == |v| && Labelling(labels, p) && v != []
    ensures var n := |v| - 1;
            var before := BucketSums(v[..n], labels[..n], p);
            BucketSums(v, labels, p) == before[labels[n] := before[labels[n]] + v[n]]
  {
  }

  // Summing over the data is summing over the buckets.
  lemma {:induction false} ByBuckets(v: seq<real>, labels: seq<nat>, w: seq<real>)
    requires |labels| == |v| && Labelling(labels, |w|)
    ensures Weighted(v, labels, w) == Dot(BucketSums(v, labels, |w|), w)
  {
    if v == [] {
      DotZero(BucketSums(v, labels, |w|), w);
    } else {
      var n := |v| - 1;
      var before := BucketSums(v[..n], labels[..n], |w|);
      var x := Product(v[n], w[labels[n]]);
      assert Weighted(v, labels, w) == Weighted(v[..n], labels[..n], w) + x;
      assert Dot(BucketSums(v, labels, |w|), w) == Dot(before, w) + x by {
        SumsNext(v, labels, |w|);
        DotUpdate(before, w, labels[n], v[n]);
      }
      ByBuckets(v[..n], labels[..n], w);
    }
  }

  // ---- The law of total variance ---------------------------------------------------------

  // How far each value is from the mean of its bucket.
  ghost function Residuals(v: seq<real>, labels: seq<nat>, m: seq<real>): (r: seq<real>)
    requires |labels| == |v| && Labelling(labels, |m|)
  {
    seq(|v|, i requires 0 <= i < |v| => v[i] - m[labels[i]])
  }

  ghost function SquaresFrom(m: seq<real>, c: real): (s: seq<real>)
  {
    seq(|m|, b requires 0 <= b < |m| => Square(m[b] - c))
  }

  ghost function From(m: seq<real>, c: real): (d: seq<real>)
  {
    seq(|m|, b requires 0 <= b < |m| => m[b] - c)
  }

  ghost function Reals(counts: seq<nat>): (r: seq<real>)
  {
    seq(|counts|, b requires 0 <= b < |counts| => counts[b] as real)
  }

  ghost function Ones(n: nat): (s: seq<real>)
  {
    seq(n, _ => 1.0)
  }

  lemma ResidualsPrefix(v: seq<real>, labels: seq<nat>, m: seq<real>)
    requires |labels| == |v| && Labelling(labels, |m|) && v != []
    ensures Residuals(v, labels, m)[..|v| - 1] == Residuals(v[..|v| - 1], labels[..|v| - 1], m)
  {
  }

  lemma OneMoreResidual(sum: real, k: nat, m: real, x: real)
    ensures sum - Product(k as real, m) + (x - m) == sum + x - Product((k + 1) as real, m)
  {
    assert (k + 1) as real == k as real + 1.0;
  }

  lemma {:induction false} ResidualSums(v: seq<real>, labels: seq<nat>, m: seq<real>, b: nat)
    requires |labels| == |v| && Labelling(labels, |m|) && b < |m|
    ensures BucketSums(Residuals(v, labels, m), labels, |m|)[b]
            == BucketSums(v, labels, |m|)[b] - Product(BucketCounts(labels, |m|)[b] as real, m[b])
  {
    if v != [] {
      var n := |v| - 1;
      ResidualsPrefix(v, labels, m);
      ResidualSums(v[..n], labels[..n], m, b);
      OneMoreResidual(BucketSums(v[..n], labels[..n], |m|)[b], BucketCounts(labels[..n], |m|)[b], m[b], v[n]);
    }
  }

  lemma {:induction false} OnesCount(labels: seq<nat>, p: nat)
    requires Labelling(labels, p)
    ensures BucketSums(Ones(|labels|), labels, p) == Reals(BucketCounts(labels, p))
  {
    if labels != [] {
      var n := |labels| - 1;
      assert Ones(n + 1)[..n] == Ones(n);
      OnesCount(labels[..n], p);
    }
  }

  lemma SquareSplit(x: real, m: real, c: real)
    ensures Square(x - c) == Square((x - m) - 0.0) + 2.0 * Product(x - m, m - c) + Product(1.0, Square(m - c))
  {
    var a, b := x - m, m - c;
    assert Square(a + b) == a * a + 2.0 * (a * b) + b * b;
  }

  lemma {:induction false} SpreadSplit(v: seq<real>, labels: seq<nat>, m: seq<real>, c: real)
    requires |labels| == |v| && Labelling(labels, |m|)
    ensures var r := Residuals(v, labels, m);
            Spread(v, c) == Spread(r, 0.0) + 2.0 * Weighted(r, labels, From(m, c))
                            + Weighted(Ones(|v|), labels, SquaresFrom(m, c))
  {
    if v != [] {
      var n := |v| - 1;
      ResidualsPrefix(v, labels, m);
      assert Ones(|v|)[..n] == Ones(n);
      SpreadSplit(v[..n], labels[..n], m, c);
      SquareSplit(v[n], m[labels[n]], c);
    }
  }

  lemma Divided(x: real, k: int)
    requires k > 0
    ensures Product(k as real, x / k as real) == x
  {
  }

  // Within a bucket the distances from its mean sum to zero.
  lemma MeansCentre(v: seq<real>, labels: seq<nat>, p: nat, b: nat)
    requires |labels| == |v| && Labelling(labels, p) && b < p && BucketCounts(labels, p)[b] > 0
    ensures BucketSums(Residuals(v, labels, BucketMeans(v, labels, p)), labels, p)[b] == 0.0
  {
    ResidualSums(v, labels, BucketMeans(v, labels, p), b);
    Divided(BucketSums(v, labels, p)[b], BucketCounts(labels, p)[b]);
  }

  // The variance between the buckets, each weighted with its count.
  ghost function Between(labels: seq<nat>, m: seq<real>, c: real): real
    requires Labelling(labels, |m|)
  {
    Dot(Reals(BucketCounts(labels, |m|)), SquaresFrom(m, c))
  }

  // Total variance is variance within the buckets plus variance between them.
  lemma TotalVariance(v: seq<real>, labels: seq<nat>, p: nat, c: real)
    requires |labels| == |v| && Labelling(labels, p)
    requires forall b :: 0 <= b < p ==> BucketCounts(labels, p)[b] > 0
    ensures var m := BucketMeans(v, labels, p);
            Spread(v, c) == Spread(Residuals(v, labels, m), 0.0) + Between(labels, m, c)
  {
    var m := BucketMeans(v, labels, p);
    var r, d := Residuals(v, labels, m), From(m, c);
    SpreadSplit(v, labels, m, c);
    ByBuckets(r, labels, d);
    forall b | 0 <= b < p ensures BucketSums(r, labels, p)[b] == 0.0 {
      MeansCentre(v, labels, p, b);
    }
    DotZero(BucketSums(r, labels, p), d);
    ByBuckets(Ones(|v|), labels, SquaresFrom(m, c));
    OnesCount(labels, p);
  }

  lemma {:induction false} SpreadTotal(m: seq<real>, c: real)
    ensures Spread(m, c) == Total(SquaresFrom(m, c))
    ensures forall b :: 0 <= b < |m| ==> SquaresFrom(m, c)[b] >= 0.0
  {
    if m != [] {
      var n := |m| - 1;
      SpreadTotal(m[..n], c);
      assert SquaresFrom(m, c)[..n] == SquaresFrom(m[..n], c);
      SquareZero(m[n] - c);
      assert forall b :: 0 <= b < n ==> SquaresFrom(m, c)[b] == SquaresFrom(m, c)[..n][b];
    }
  }

  lemma DistributeOver(q: real, total: real, x: real, count: real)
    ensures Product(q, total + x) == Product(q, total) + Product(q, x)
    ensures Product(count, x) == Product(q, x) + Product(count - q, x)
  {
  }

  // Every weight counts q times, or is zero.
  ghost predicate Tight(counts: seq<real>, w: seq<real>, q: real)
    requires |counts| == |w|
  {
    forall b :: 0 <= b < |w| ==> counts[b] == q || w[b] == 0.0
  }

  lemma {:induction false} HeavierIff(counts: seq<real>, w: seq<real>, q: real)
    requires |counts| == |w| && forall b :: 0 <= b < |w| ==> counts[b] >= q && w[b] >= 0.0
    ensures Dot(counts, w) >= Product(q, Total(w))
    ensures Dot(counts, w) == Product(q, Total(w)) <==> Tight(counts, w, q)
  {
    if w != [] {
      var n := |w| - 1;
      HeavierIff(counts[..n], w[..n], q);
      DistributeOver(q, Total(w[..n]), w[n], counts[n]);
      ExcessSign(counts[n] - q, w[n]);
      TightSnoc(counts, w, q);
    }
  }

  lemma ExcessSign(x: real, y: real)
    requires x >= 0.0 && y >= 0.0
    ensures Product(x, y) >= 0.0 && (Product(x, y) == 0.0 <==> x == 0.0 || y == 0.0)
  {
    ProductSign(x, y);
  }

  lemma TightSnoc(counts: seq<real>, w: seq<real>, q: real)
    requires |counts| == |w| && w != []
    ensures var n := |w| - 1;
            Tight(counts, w, q) <==> Tight(counts[..n], w[..n], q) && (counts[n] == q || w[n] == 0.0)
  {
    var n := |w| - 1;
    assert forall b :: 0 <= b < n ==> counts[b] == counts[..n][b] && w[b] == w[..n][b];
  }

  lemma {:induction false} Lighter(counts: seq<real>, w: seq<real>, q: real)
    requires |counts| == |w| && forall b :: 0 <= b < |w| ==> counts[b] <= q && w[b] >= 0.0
    ensures Dot(counts, w) <= Product(q, Total(w))
  {
    if w != [] {
      var n := |w| - 1;
      Lighter(counts[..n], w[..n], q);
      DistributeOver(q, Total(w[..n]), w[n], counts[n]);
      ExcessSign(q - counts[n], w[n]);
      assert Product(counts[n] - q, w[n]) == -Product(q - counts[n], w[n]);
    }
  }

  ghost predicate AtMeans(v: seq<real>, labels: seq<nat>, m: seq<real>)
    requires |labels| == |v| && Labelling(labels, |m|)
  {
    forall i :: 0 <= i < |v| ==> v[i] == m[labels[i]]
  }

  lemma WithinZeroIff(v: seq<real>, labels: seq<nat>, m: seq<real>)
    requires |labels| == |v| && Labelling(labels, |m|)
    ensures Spread(Residuals(v, labels, m), 0.0) >= 0.0
    ensures Spread(Residuals(v, labels, m), 0.0) == 0.0 <==> AtMeans(v, labels, m)
  {
    var r := Residuals(v, labels, m);
    SpreadZeroIff(r, 0.0);
    assert forall i :: 0 <= i < |v| ==> r[i] == v[i] - m[labels[i]];
  }

  // It is never more than the total, and all of it exactly when every value is
  // the mean of its bucket.
  lemma BetweenIsTotalIff(v: seq<real>, labels: seq<nat>, p: nat, c: real)
    requires |labels| == |v| && Labelling(labels, p)
    requires forall b :: 0 <= b < p ==> BucketCounts(labels, p)[b] > 0
    ensures var m := BucketMeans(v, labels, p);
            Between(labels, m, c) <= Spread(v, c) && (Between(labels, m, c) == Spread(v, c) <==> AtMeans(v, labels, m))
  {
    TotalVariance(v, labels, p, c);
    WithinZeroIff(v, labels, BucketMeans(v, labels, p));
  }

  ghost function Times(k: nat, x: real): real {
    if k == 0 then 0.0 else Times(k - 1, x) + x
  }

  lemma {:induction false} TimesIs(k: nat, x: real)
    ensures Times(k, x) == k as real * x
  {
    if k > 0 {
      TimesIs(k - 1, x);
      assert (k - 1) as real == k as real - 1.0;
    }
  }

  lemma TimesDivided(k: nat, x: real)
    requires k > 0
    ensures Times(k, x) / k as real == x
  {
    TimesIs(k, x);
    var y := Times(k, x) / k as real;
    assert y * k as real == x * k as real;
    assert y < x ==> y * k as real < x * k as real;
    assert y > x ==> y * k as real > x * k as real;
  }

  lemma {:induction false} ConstantSums(v: seq<real>, labels: seq<nat>, w: seq<real>, b: nat)
    requires |labels| == |v| && Labelling(labels, |w|) && AtMeans(v, labels, w) && b < |w|
    ensures BucketSums(v, labels, |w|)[b] == Times(BucketCounts(labels, |w|)[b], w[b])
  {
    if v != [] {
      ConstantSums(v[..|v| - 1], labels[..|v| - 1], w, b);
    }
  }

  // If every bucket is constant, its mean is that constant.
  lemma ConstantBuckets(v: seq<real>, labels: seq<nat>, w: seq<real>, b: nat)
    requires |labels| == |v| && Labelling(labels, |w|) && AtMeans(v, labels, w)
    requires b < |w| && BucketCounts(labels, |w|)[b] > 0
    ensures BucketMeans(v, labels, |w|)[b] == w[b]
  {
    ConstantSums(v, labels, w, b);
    TimesDivided(BucketCounts(labels, |w|)[b], w[b]);
  }
}
