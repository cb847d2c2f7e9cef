/**
 Seasonal strength: the data are put into buckets by index modulo the period,
 and the spread of the bucket means is divided by the spread of the data.
 */
module Seasonality {
  import opened Outcomes
  import opened Sums
  import opened Buckets
  import opened Division

  function Labels(n: nat, p: int): (labels: seq<nat>)
    requires p > 0
    ensures |labels| == n && Labelling(labels, p)
  {
    seq(n, i requires 0 <= i < n => i % p)
  }

  function SeasonalMeans(v: seq<real>, p: int): (m: seq<real>)
    requires p > 0
  {
    BucketMeans(v, Labels(|v|, p), p)
  }

  function Strength(v: seq<real>, p: int): real
    requires p > 0
  {
    if |v| < 2 * p then 0.0 else
      var mean := Mean(v);
      if Spread(v, mean) == 0.0 then 0.0 else Spread(SeasonalMeans(v, p), mean) / Spread(v, mean)
  }

  // ---- Counts ----------------------------------------------------------------------------

  lemma DivModNext(n: nat, p: int)
    requires p > 0
    ensures if n % p + 1 < p then (n + 1) / p == n / p && (n + 1) % p == n % p + 1
            else n % p == p - 1 && (n + 1) / p == n / p + 1 && (n + 1) % p == 0
  {
    var q, r := n / p, n % p;
    if r + 1 < p {
      DivModIs(n + 1, p, q, r + 1);
    } else {
      DivModIs(n + 1, p, q + 1, 0);
    }
  }

  lemma FullShare(n: nat, p: int)
    requires p > 0
    ensures n >= 2 * p ==> n / p >= 2
    ensures n / p >= 4 <==> n >= 4 * p
    ensures n <= 3 * p ==> n / p <= 2 || (n / p == 3 && n % p == 0)
    ensures 3 * p < n < 4 * p ==> n / p == 3 && n % p > 0
  {
    var q, r := n / p, n % p;
    assert n == q * p + r;
    assert q <= 1 ==> q * p <= p;
    assert q <= 2 ==> q * p <= 2 * p;
    assert q <= 3 ==> q * p <= 3 * p;
    assert q >= 3 ==> q * p >= 3 * p;
    assert q >= 4 ==> q * p >= 4 * p;
  }

  // Every bucket has the full share of n / p values, the first n % p one more.
  lemma {:induction false} CountsAre(n: nat, p: int, b: nat)
    requires p > 0 && b < p
    ensures BucketCounts(Labels(n, p), p)[b] == n / p + if b < n % p then 1 else 0
  {
    if n == 0 {
      DivModIs(0, p, 0, 0);
    } else {
      assert Labels(n, p)[..n - 1] == Labels(n - 1, p);
      CountsAre(n - 1, p, b);
      DivModNext(n - 1, p);
    }
  }

  // ---- The bound -------------------------------------------------------------------------

  lemma AtMostShare(s: real, t: real, q: real, between: real)
    requires 0.0 <= s && 0.0 < t && q > 0.0 && Product(q, s) <= between <= t
    ensures 0.0 <= s / t <= 1.0 / q
  {
    var x, y := s / t, 1.0 / q;
    assert x * t == s;
    assert y * q == 1.0;
    assert (q * x) * t == q * s;
    assert x < 0.0 ==> x * t < 0.0;
    assert q * x > 1.0 ==> (q * x) * t > t;
    assert x > y ==> q * x > q * y;
  }

  lemma TopShareIff(s: real, t: real, q: real, between: real)
    requires 0.0 < t && q > 0.0 && Product(q, s) <= between <= t
    ensures s / t == 1.0 / q <==> between == t && Product(q, s) == between
  {
    var x, y := s / t, 1.0 / q;
    assert x * t == s;
    assert y * q == 1.0;
    assert (q * x) * t == q * s;
    assert q * x < 1.0 ==> (q * x) * t < t;
    assert q * x == 1.0 ==> (q * x) * t == t;
    assert x > y ==> q * x > q * y;
    assert x < y ==> q * x < q * y;
    assert q * s == t ==> (q * x) * t == t;
    assert q * x > 1.0 ==> (q * x) * t > t;
  }

  lemma Periods(n: nat, p: int)
    requires p > 0 && n >= 2 * p
    ensures n / p >= 2
    ensures forall b :: 0 <= b < p ==> BucketCounts(Labels(n, p), p)[b] >= n / p
    ensures forall b :: 0 <= b < p ==> (BucketCounts(Labels(n, p), p)[b] == n / p <==> b >= n % p)
    ensures n <= 3 * p ==> forall b :: 0 <= b < p ==> BucketCounts(Labels(n, p), p)[b] <= 3
  {
    FullShare(n, p);
    forall b | 0 <= b < p
      ensures BucketCounts(Labels(n, p), p)[b] >= n / p
      ensures BucketCounts(Labels(n, p), p)[b] == n / p <==> b >= n % p
      ensures n <= 3 * p ==> BucketCounts(Labels(n, p), p)[b] <= 3
    {
      CountsAre(n, p, b);
    }
  }

  lemma StrengthAtMost(v: seq<real>, p: int, q: int)
    requires p > 0 && q > 0 && |v| >= 2 * p && Spread(v, Mean(v)) > 0.0
    requires forall b :: 0 <= b < p ==> BucketCounts(Labels(|v|, p), p)[b] >= q
    requires Between(Labels(|v|, p), SeasonalMeans(v, p), Mean(v)) <= Spread(v, Mean(v))
    ensures 0.0 <= Strength(v, p) <= 1.0 / q as real
  {
    var w := SquaresFrom(SeasonalMeans(v, p), Mean(v));
    SpreadTotal(SeasonalMeans(v, p), Mean(v));
    ShareAtMost(Reals(BucketCounts(Labels(|v|, p), p)), w, q as real, Spread(v, Mean(v)));
  }

  lemma ShareAtMost(counts: seq<real>, w: seq<real>, q: real, total: real)
    requires |counts| == |w| && q > 0.0 && total > 0.0
    requires forall b :: 0 <= b < |w| ==> counts[b] >= q && w[b] >= 0.0
    requires Dot(counts, w) <= total
    ensures 0.0 <= Total(w) / total <= 1.0 / q
  {
    HeavierIff(counts, w, q);
    TotalNonNegative(w);
    AtMostShare(Total(w), total, q, Dot(counts, w));
  }

  lemma {:induction false} TotalNonNegative(w: seq<real>)
    requires forall b :: 0 <= b < |w| ==> w[b] >= 0.0
    ensures Total(w) >= 0.0
  {
    if w != [] {
      TotalNonNegative(w[..|w| - 1]);
    }
  }

  // The strength is never more than one over the number of full periods.
  lemma StrengthBound(v: seq<real>, p: int)
    requires p > 0 && |v| >= 2 * p
    ensures |v| / p >= 2 && 0.0 <= Strength(v, p) <= 1.0 / (|v| / p) as real
  {
    Periods(|v|, p);
    SpreadZeroIff(v, Mean(v));
    if Spread(v, Mean(v)) != 0.0 {
      BetweenIsTotalIff(v, Labels(|v|, p), p, Mean(v));
      StrengthAtMost(v, p, |v| / p);
    } else {
      AtMostShare(0.0, 1.0, (|v| / p) as real, 0.0);
    }
  }

  // ---- When the bound is reached ---------------------------------------------------------

  ghost predicate Periodic(v: seq<real>, p: int)
    requires p > 0
  {
    forall i :: p <= i < |v| ==> v[i] == v[i % p]
  }

  lemma SmallMod(i: nat, p: int)
    requires p > 0 && i < p
    ensures i % p == i
  {
    DivModIs(i, p, 0, i);
  }

  lemma NotConstant(v: seq<real>, c: real)
    requires exists i :: 0 <= i < |v| && v[i] != v[0]
    ensures Spread(v, c) > 0.0
  {
    var i :| 0 <= i < |v| && v[i] != v[0];
    SpreadZeroIff(v, c);
    assert v[i] != c || v[0] != c;
  }

  lemma TopShare(counts: seq<real>, w: seq<real>, q: real, total: real)
    requires |counts| == |w| && q > 0.0 && total > 0.0
    requires forall b :: 0 <= b < |w| ==> counts[b] >= q && w[b] >= 0.0
    requires Dot(counts, w) <= total
    ensures Total(w) / total == 1.0 / q <==> Dot(counts, w) == total && Tight(counts, w, q)
  {
    HeavierIff(counts, w, q);
    TopShareIff(Total(w), total, q, Dot(counts, w));
  }

  // The larger buckets have the overall mean.
  ghost predicate SurplusAtMean(v: seq<real>, p: int)
    requires p > 0 && |v| >= 2 * p
  {
    forall b :: 0 <= b < |v| % p ==> v[b] == Mean(v)
  }

  lemma StrengthByBetween(v: seq<real>, p: int)
    requires p > 0 && |v| >= 2 * p && Spread(v, Mean(v)) > 0.0
    requires Between(Labels(|v|, p), SeasonalMeans(v, p), Mean(v)) <= Spread(v, Mean(v))
    ensures |v| / p >= 2
    ensures Strength(v, p) == 1.0 / (|v| / p) as real
            <==> && Between(Labels(|v|, p), SeasonalMeans(v, p), Mean(v)) == Spread(v, Mean(v))
                 && forall b :: 0 <= b < |v| % p ==> SeasonalMeans(v, p)[b] == Mean(v)
  {
    var w, counts := SquaresFrom(SeasonalMeans(v, p), Mean(v)), Reals(BucketCounts(Labels(|v|, p), p));
    Periods(|v|, p);
    SpreadTotal(SeasonalMeans(v, p), Mean(v));
    TopShare(counts, w, (|v| / p) as real, Spread(v, Mean(v)));
    TightMeans(SeasonalMeans(v, p), Mean(v), BucketCounts(Labels(|v|, p), p), |v| / p, |v| % p);
  }

  lemma TightMeans(m: seq<real>, c: real, counts: seq<nat>, q: nat, surplus: nat)
    requires |m| == |counts| >= surplus && forall b :: 0 <= b < |m| ==> (counts[b] == q <==> b >= surplus)
    ensures Tight(Reals(counts), SquaresFrom(m, c), q as real) <==> forall b :: 0 <= b < surplus ==> m[b] == c
  {
    var w := SquaresFrom(m, c);
    forall b | 0 <= b < |m| ensures w[b] == 0.0 <==> m[b] == c {
      SquareZero(m[b] - c);
    }
    assert forall b :: 0 <= b < |m| ==> (Reals(counts)[b] == q as real <==> b >= surplus);
    if forall b :: 0 <= b < surplus ==> m[b] == c {
      assert forall b :: 0 <= b < |m| && b < surplus ==> w[b] == 0.0;
    }
    if Tight(Reals(counts), w, q as real) {
      forall b | 0 <= b < surplus ensures m[b] == c {
        assert Reals(counts)[b] == q as real || w[b] == 0.0;
      }
    }
  }

  lemma PeriodicAtMeans(v: seq<real>, p: int)
    requires p > 0 && |v| >= 2 * p
    ensures AtMeans(v, Labels(|v|, p), SeasonalMeans(v, p)) <==> Periodic(v, p)
    ensures Periodic(v, p) ==> forall b :: 0 <= b < p ==> SeasonalMeans(v, p)[b] == v[b]
  {
    var labels, m := Labels(|v|, p), SeasonalMeans(v, p);
    forall i | 0 <= i < p ensures labels[i] == i {
      SmallMod(i, p);
    }
    if AtMeans(v, labels, m) {
      forall i | p <= i < |v| ensures v[i] == v[i % p] {
        assert v[i] == m[labels[i]] && v[labels[i]] == m[labels[labels[i]]];
      }
    }
    if Periodic(v, p) {
      PeriodicMeans(v, p);
      assert forall b :: 0 <= b < p ==> v[b] == m[labels[b]];
    }
  }

  lemma PeriodicMeans(v: seq<real>, p: int)
    requires p > 0 && |v| >= 2 * p && Periodic(v, p)
    ensures AtMeans(v, Labels(|v|, p), SeasonalMeans(v, p))
  {
    var labels, w := Labels(|v|, p), v[..p];
    forall i | 0 <= i < |v| ensures v[i] == w[labels[i]] {
      if i < p {
        SmallMod(i, p);
      }
    }
    Periods(|v|, p);
    forall b | 0 <= b < p ensures SeasonalMeans(v, p)[b] == w[b] {
      ConstantBuckets(v, labels, w, b);
    }
  }

  // For every length the bound is reached exactly by the series that repeat, with
  // the overall mean in the places that occur once more than the others.
  lemma StrengthMaximalIff(v: seq<real>, p: int)
    requires p > 0 && |v| >= 2 * p
    requires exists i :: 0 <= i < |v| && v[i] != v[0]
    ensures |v| / p >= 2
    ensures Strength(v, p) == 1.0 / (|v| / p) as real <==> Periodic(v, p) && SurplusAtMean(v, p)
  {
    Periods(|v|, p);
    NotConstant(v, Mean(v));
    BetweenIsTotalIff(v, Labels(|v|, p), p, Mean(v));
    StrengthByBetween(v, p);
    PeriodicAtMeans(v, p);
    assert |v| % p < p;
  }

  // ---- CalculateSeasonality --------------------------------------------------------------

  const SIGNIFICANT := 0.3

  // From four full periods on no season is significant, however perfect.
  lemma SignificantIsShort(v: seq<real>, p: int)
    requires p > 0 && |v| >= 2 * p && Strength(v, p) > 0.3
    ensures |v| < 4 * p
  {
    StrengthBound(v, p);
    FullShare(|v|, p);
    var q := (|v| / p) as real;
    QuarterAtMost(q);
  }

  lemma QuarterAtMost(q: real)
    requires q > 0.0
    ensures q >= 4.0 ==> 1.0 / q <= 0.25
  {
    var y := 1.0 / q;
    assert y * q == 1.0;
    assert y > 0.25 && q >= 4.0 ==> y * q > 0.25 * q;
  }

  datatype Season = Season(strength: real, period: int, significant: bool)

  const PERIODS := [24, 168, 720] // hours, week, month

  method CalculateSeasonality(data: seq<real>) returns (r: Result<map<int, Season>>)
    ensures r.Err? <==> |data| < 24
    ensures r.Ok? ==> forall p: int :: p in r.value <==> p in {24, 168, 720} && |data| >= 2 * p
    ensures r.Ok? ==> forall p :: p in r.value ==>
              && p > 0 && r.value[p].strength == Strength(data, p) && r.value[p].period == p
              && (r.value[p].significant <==> r.value[p].strength > 0.3)
    ensures r.Ok? ==> forall p :: p in r.value && r.value[p].significant ==> |data| < 4 * p
  {
    if |data| < 24 {
      return Err("insufficient data for seasonality analysis");
    }
    var seasonality: map<int, Season> := map[];
    for i := 0 to |PERIODS|
      invariant seasonality.Keys == (set p | p in PERIODS[..i] && |data| >= 2 * p)
      invariant forall p :: p in seasonality ==>
                  p > 0 && seasonality[p] == Season(Strength(data, p), p, Strength(data, p) > SIGNIFICANT)
    {
      var period := PERIODS[i];
      assert period > 0 && PERIODS[..i + 1] == PERIODS[..i] + [period];
      if |data| >= 2 * period {
        var strength := CalculateSeasonalStrength(data, period);
        seasonality := seasonality[period := Season(strength, period, strength > SIGNIFICANT)];
      }
    }
    assert PERIODS[..|PERIODS|] == PERIODS;
    forall p | p in seasonality && seasonality[p].significant ensures |data| < 4 * p {
      SignificantIsShort(data, p);
    }
    r := Ok(seasonality);
  }

  method CalculateSeasonalStrength(data: seq<real>, period: int) returns (strength: real)
    requires period > 0
    ensures strength == Strength(data, period)
    ensures |data| < 2 * period ==> strength == 0.0
    ensures |data| >= 2 * period ==>
              var total := Spread(data, Mean(data));
              if total == 0.0 then strength == 0.0
              else Product(strength, total) == Spread(SeasonalMeans(data, period), Mean(data))
  {
    if |data| < 2 * period {
      return 0.0;
    }
    var n := |data|;
    var means := MeansByBucket(data, period);
    var totalSum := 0.0;
    for i := 0 to n
      invariant totalSum == Total(data[..i])
    {
      assert data[..i + 1][..i] == data[..i];
      totalSum := totalSum + data[i];
    }
    assert data[..n] == data;
    var overallMean := totalSum / n as real;
    var seasonalVariance := SumOfSquares(means[..], overallMean);
    var totalVariance := SumOfSquares(data, overallMean);
    if totalVariance == 0.0 {
      return 0.0;
    }
    strength := seasonalVariance / totalVariance;
  }

  method MeansByBucket(data: seq<real>, period: int) returns (means: array<real>)
    requires period > 0
    ensures fresh(means) && means[..] == SeasonalMeans(data, period)
  {
    var sums, counts := BucketTotals(data, period);
    means := new real[period](_ => 0.0);
    ghost var m := SeasonalMeans(data, period);
    for b := 0 to period
      invariant forall k :: 0 <= k < period ==> means[k] == if k < b then m[k] else 0.0
      invariant sums[..] == BucketSums(data, Labels(|data|, period), period)
      invariant counts[..] == BucketCounts(Labels(|data|, period), period)
    {
      if counts[b] > 0 {
        means[b] := sums[b] / counts[b] as real;
      }
    }
  }

  lemma BucketsNext(v: seq<real>, labels: seq<nat>, i: nat, p: nat)
    requires |labels| == |v| && Labelling(labels, p) && i < |v|
    ensures var b := labels[i];
            && BucketSums(v[..i + 1], labels[..i + 1], p)
               == BucketSums(v[..i], labels[..i], p)[b := BucketSums(v[..i], labels[..i], p)[b] + v[i]]
            && BucketCounts(labels[..i + 1], p) == BucketCounts(labels[..i], p)[b := BucketCounts(labels[..i], p)[b] + 1]
  {
    assert v[..i + 1][..i] == v[..i] && labels[..i + 1][..i] == labels[..i];
  }

  method Accumulate(data: seq<real>, i: nat, period: int, sums: array<real>, counts: array<int>)
    requires period > 0 && i < |data| && sums.Length == counts.Length == period
    requires sums[..] == BucketSums(data[..i], Labels(|data|, period)[..i], period)
    requires counts[..] == BucketCounts(Labels(|data|, period)[..i], period)
    modifies sums, counts
    ensures sums[..] == BucketSums(data[..i + 1], Labels(|data|, period)[..i + 1], period)
    ensures counts[..] == BucketCounts(Labels(|data|, period)[..i + 1], period)
  {
    var b := i % period;
    BucketsNext(data, Labels(|data|, period), i, period);
    sums[b] := sums[b] + data[i];
    counts[b] := counts[b] + 1;
  }

  method BucketTotals(data: seq<real>, period: int) returns (sums: array<real>, counts: array<int>)
    requires period > 0
    ensures fresh(sums) && fresh(counts) && sums.Length == counts.Length == period
    ensures sums[..] == BucketSums(data, Labels(|data|, period), period)
    ensures counts[..] == BucketCounts(Labels(|data|, period), period)
  {
    var n, labels := |data|, Labels(|data|, period);
    sums := new real[period](_ => 0.0);
    counts := new int[period](_ => 0);
    for i := 0 to n
      invariant sums[..] == BucketSums(data[..i], labels[..i], period)
      invariant counts[..] == BucketCounts(labels[..i], period)
    {
      Accumulate(data, i, period, sums, counts);
    }
    assert data[..n] == data && labels[..n] == labels;
  }

  method SumOfSquares(v: seq<real>, c: real) returns (sum: real)
    ensures sum == Spread(v, c)
  {
    sum := 0.0;
    for i := 0 to |v|
      invariant sum == Spread(v[..i], c)
    {
      assert v[..i + 1][..i] == v[..i];
      sum := sum + (v[i] - c) * (v[i] - c);
    }
    assert v[..|v|] == v;
  }
}
