/**
 For which lengths the strength recognises a season: the perfect ones are all
 called significant up to three periods of data, and beyond that not all, and
 from four full periods on none.
 */
module SeasonLengths {
  import opened Sums
  import opened Buckets
  import opened Division
  import opened Seasonality

  // A series that repeats and is not constant.
  ghost predicate PerfectSeason(v: seq<real>, n: nat, p: int)
    requires p > 0
  {
    |v| == n && Periodic(v, p) && exists i :: 0 <= i < |v| && v[i] != v[0]
  }

  // ---- Up to three periods ---------------------------------------------------------------

  lemma AtLeastShare(s: real, t: real, q: real)
    requires 0.0 < t && q > 0.0 && t <= Product(q, s)
    ensures s / t >= 1.0 / q
  {
    var x, y := s / t, 1.0 / q;
    assert x * t == s;
    assert y * q == 1.0;
    assert (q * x) * t == q * s;
    assert q * x < 1.0 ==> (q * x) * t < t;
    assert x < y ==> q * x < q * y;
  }

  lemma ShareAtLeast(counts: seq<real>, w: seq<real>, q: real, total: real)
    requires |counts| == |w| && q > 0.0 && total > 0.0
    requires forall b :: 0 <= b < |w| ==> counts[b] <= q && w[b] >= 0.0
    requires Dot(counts, w) == total
    ensures Total(w) / total >= 1.0 / q
  {
    Lighter(counts, w, q);
    AtLeastShare(Total(w), total, q);
  }

  lemma StrengthOverThreshold(v: seq<real>, p: int)
    requires p > 0 && |v| >= 2 * p && Spread(v, Mean(v)) > 0.0
    requires forall b :: 0 <= b < p ==> BucketCounts(Labels(|v|, p), p)[b] <= 3
    requires Between(Labels(|v|, p), SeasonalMeans(v, p), Mean(v)) == Spread(v, Mean(v))
    ensures Strength(v, p) > SIGNIFICANT
  {
    var w := SquaresFrom(SeasonalMeans(v, p), Mean(v));
    SpreadTotal(SeasonalMeans(v, p), Mean(v));
    ShareAtLeast(Reals(BucketCounts(Labels(|v|, p), p)), w, 3.0, Spread(v, Mean(v)));
  }

  // No bucket has more than three values, so a perfect season has a third.
  lemma ShortSeasonSignificant(v: seq<real>, n: nat, p: int)
    requires p > 0 && 2 * p <= n <= 3 * p && PerfectSeason(v, n, p)
    ensures Strength(v, p) > SIGNIFICANT
  {
    Periods(|v|, p);
    NotConstant(v, Mean(v));
    BetweenIsTotalIff(v, Labels(|v|, p), p, Mean(v));
    PeriodicAtMeans(v, p);
    StrengthOverThreshold(v, p);
  }

  // ---- One in every period ---------------------------------------------------------------

  function Spike(n: nat, p: int): (v: seq<real>)
    requires p > 0
  {
    seq(n, i requires 0 <= i < n => if i % p == 0 then 1.0 else 0.0)
  }

  lemma {:induction false} SpikeTotal(n: nat, p: int)
    requires p > 0
    ensures Total(Spike(n, p)) == BucketCounts(Labels(n, p), p)[0] as real
  {
    if n > 0 {
      assert Spike(n, p)[..n - 1] == Spike(n - 1, p) && Labels(n, p)[..n - 1] == Labels(n - 1, p);
      SpikeTotal(n - 1, p);
    }
  }

  lemma SpikeSeason(n: nat, p: int)
    requires p >= 2 && n >= 2 * p
    ensures PerfectSeason(Spike(n, p), n, p)
  {
    var v := Spike(n, p);
    SmallMod(0, p);
    SmallMod(1, p);
    assert v[0] == 1.0 && v[1] == 0.0;
    forall i | p <= i < n ensures v[i] == v[i % p] {
      SmallMod(i % p, p);
    }
  }

  // The spread of zeros and ones.
  lemma SpreadStep(total: real, n: real, one: real, zero: real)
    ensures Product(total, one) + Product(n - total, zero) + one == Product(total + 1.0, one) + Product(n + 1.0 - (total + 1.0), zero)
    ensures Product(total, one) + Product(n - total, zero) + zero == Product(total, one) + Product(n + 1.0 - total, zero)
  {
  }

  lemma {:induction false} BinarySpread(s: seq<real>, c: real)
    requires forall i :: 0 <= i < |s| ==> s[i] == 0.0 || s[i] == 1.0
    ensures Spread(s, c) == Product(Total(s), Square(1.0 - c)) + Product(|s| as real - Total(s), Square(0.0 - c))
  {
    if s == [] {
      assert Product(0.0, Square(1.0 - c)) == 0.0 && Product(0.0, Square(0.0 - c)) == 0.0;
    } else {
      var k := |s| - 1;
      BinarySpread(s[..k], c);
      SpreadStep(Total(s[..k]), k as real, Square(1.0 - c), Square(0.0 - c));
      assert |s| as real == k as real + 1.0;
    }
  }

  // ---- Between three and four periods ----------------------------------------------------

  lemma SpikeSpreads(s: real, t: real, n: real, p: real, mean: real)
    requires Product(n, mean) == 4.0
    requires s == Product(1.0, Square(1.0 - mean)) + Product(p - 1.0, Square(0.0 - mean))
    requires t == Product(4.0, Square(1.0 - mean)) + Product(n - 4.0, Square(0.0 - mean))
    ensures t == 4.0 - 4.0 * mean
    ensures s == 1.0 - 2.0 * mean + Product(p, Square(mean))
  {
    var m2 := mean * mean;
    assert Square(1.0 - mean) == 1.0 - 2.0 * mean + m2;
    assert Square(0.0 - mean) == m2;
    assert Product(n - 4.0, m2) == (n * mean) * mean - 4.0 * m2;
    assert Product(p - 1.0, m2) == Product(p, m2) - m2;
  }

  lemma SmallMean(n: real, p: real, mean: real)
    requires p >= 2.0 && n >= 3.0 * p + 1.0 && Product(n, mean) == 4.0
    ensures 0.0 < mean < 0.6 && Product(p, Square(mean)) <= (4.0 * mean - mean * mean) / 3.0
  {
    assert mean <= 0.0 ==> n * mean <= 0.0;
    assert mean >= 0.6 ==> n * mean >= n * 0.6;
    var m2 := mean * mean;
    ProductSign(mean, mean);
    assert m2 >= 0.0;
    var d := n - 3.0 * p - 1.0;
    ProductSign(d, m2);
    assert Product(d, m2) == (n * mean) * mean - 3.0 * (p * m2) - m2;
  }

  lemma SpikeBelow(s: real, t: real, n: real, p: real, mean: real)
    requires p >= 2.0 && n >= 3.0 * p + 1.0 && Product(n, mean) == 4.0
    requires t == 4.0 - 4.0 * mean && s == 1.0 - 2.0 * mean + Product(p, Square(mean))
    ensures t > 0.0 && s <= 0.3 * t
  {
    SmallMean(n, p, mean);
    ProductSign(1.0 - mean, 0.6 - mean);
    assert Product(1.0 - mean, 0.6 - mean) == 0.6 - 1.6 * mean + mean * mean;
  }

  lemma AtMostThreshold(s: real, t: real)
    requires t > 0.0 && s <= 0.3 * t
    ensures s / t <= 0.3
  {
    var x := s / t;
    assert x * t == s;
    assert x > 0.3 ==> x * t > 0.3 * t;
  }

  lemma SpikeFacts(n: nat, p: int)
    requires p >= 2 && 3 * p < n < 4 * p
    ensures Total(Spike(n, p)) == 4.0 && Total(Spike(p, p)) == 1.0
    ensures SeasonalMeans(Spike(n, p), p) == Spike(p, p)
    ensures Product(n as real, Mean(Spike(n, p))) == 4.0
  {
    SpikeTotal(n, p);
    CountsAre(n, p, 0);
    FullShare(n, p);
    SpikeTotal(p, p);
    CountsAre(p, p, 0);
    DivModIs(p, p, 1, 0);
    SpikeSeason(n, p);
    PeriodicAtMeans(Spike(n, p), p);
    assert forall b :: 0 <= b < p ==> Spike(n, p)[b] == Spike(p, p)[b];
    Divided(4.0, n);
  }

  // The season of one spike in every period is missed there.
  lemma SpikeMissed(n: nat, p: int)
    requires p >= 2 && 3 * p < n < 4 * p
    ensures Strength(Spike(n, p), p) <= SIGNIFICANT
  {
    var v, m := Spike(n, p), Spike(p, p);
    SpikeFacts(n, p);
    BinarySpread(v, Mean(v));
    BinarySpread(m, Mean(v));
    SpikeSpreads(Spread(m, Mean(v)), Spread(v, Mean(v)), n as real, p as real, Mean(v));
    SpikeBelow(Spread(m, Mean(v)), Spread(v, Mean(v)), n as real, p as real, Mean(v));
    AtMostThreshold(Spread(m, Mean(v)), Spread(v, Mean(v)));
  }

  // ---- The condition ---------------------------------------------------------------------

  // All perfect seasons of period p and length n are called significant exactly
  // when the data hold no more than three periods.
  lemma SeasonsRecognisedIff(n: nat, p: int)
    requires p >= 2 && n >= 2 * p
    ensures (forall v :: PerfectSeason(v, n, p) ==> Strength(v, p) > 0.3) <==> n <= 3 * p
  {
    if n <= 3 * p {
      forall v | PerfectSeason(v, n, p) ensures Strength(v, p) > SIGNIFICANT {
        ShortSeasonSignificant(v, n, p);
      }
    } else {
      SpikeSeason(n, p);
      if n < 4 * p {
        SpikeMissed(n, p);
      } else if Strength(Spike(n, p), p) > SIGNIFICANT {
        SignificantIsShort(Spike(n, p), p);
      }
    }
  }
}
