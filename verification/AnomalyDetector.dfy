/**
 The anomaly detector: models that keep what they were trained on, and the
 vote over their verdicts.
 */
module AnomalyDetectors {
  import opened Outcomes
  import opened Points
  import opened Sums
  import opened Sorting
  import opened SortedValues
  import opened AnomalyModels

  ghost predicate IsSqrt(sqrt: real -> real) {
    forall x: real :: x >= 0.0 ==> sqrt(x) >= 0.0 && Square(sqrt(x)) == x
  }

  lemma VarianceTimes(n: real, spread: real)
    requires n > 0.0 && spread >= 0.0
    ensures spread / n >= 0.0 && Product(n, spread / n) == spread
  {
  }

  class ZScoreModel {
    const threshold: real
    var history: seq<real>
    var mean: real
    var stddev: real

    constructor (threshold: real)
      ensures this.threshold == threshold && history == [] && mean == 0.0 && stddev == 0.0
    {
      this.threshold := threshold;
      history, mean, stddev := [], 0.0, 0.0;
    }

    method Train(data: seq<DataPoint>, sqrt: real -> real)
      requires IsSqrt(sqrt)
      modifies this
      ensures history == Values(data)
      ensures data == [] ==> mean == old(mean) && stddev == old(stddev)
      ensures data != [] ==>
                && mean == Mean(history) && stddev >= 0.0
                && Product(|history| as real, Square(stddev)) == Spread(history, mean)
    {
      history := Values(data);
      UpdateStats(sqrt);
    }

    method UpdateStats(sqrt: real -> real)
      requires IsSqrt(sqrt)
      modifies this`mean, this`stddev
      ensures history == [] ==> mean == old(mean) && stddev == old(stddev)
      ensures history != [] ==>
                && mean == Mean(history) && stddev >= 0.0
                && Product(|history| as real, Square(stddev)) == Spread(history, mean)
    {
      if |history| == 0 {
        return;
      }
      var n, sum := |history|, 0.0;
      for i := 0 to n
        invariant sum == Total(history[..i])
      {
        assert history[..i + 1][..i] == history[..i];
        sum := sum + history[i];
      }
      assert history[..n] == history;
      mean := sum / n as real;
      var sumSquared := 0.0;
      for i := 0 to n
        invariant sumSquared == Spread(history[..i], mean)
      {
        assert history[..i + 1][..i] == history[..i];
        sumSquared := sumSquared + Square(history[i] - mean);
      }
      assert history[..n] == history;
      SpreadZeroIff(history, mean);
      VarianceTimes(n as real, sumSquared);
      stddev := sqrt(sumSquared / n as real);
    }
  }

  class IQRModel {
    const multiplier: real
    var history: seq<real>
    var q1: real
    var q3: real
    var iqr: real

    constructor (multiplier: real)
      ensures this.multiplier == multiplier && history == [] && q1 == q3 == iqr == 0.0
    {
      this.multiplier := multiplier;
      history, q1, q3, iqr := [], 0.0, 0.0, 0.0;
    }

    // With fewer than four values the quartiles stay those of the training before.
    method Train(data: seq<DataPoint>)
      modifies this
      ensures history == Values(data)
      ensures |data| < 4 ==> q1 == old(q1) && q3 == old(q3) && iqr == old(iqr)
      ensures |data| >= 4 ==>
                && q1 == Sort(history)[|data| / 4] && q3 == Sort(history)[3 * |data| / 4] && iqr == q3 - q1
    {
      history := Values(data);
      var n := |history|;
      if n < 4 {
        return;
      }
      var sorted := Sort(history);
      q1 := sorted[n / 4];
      q3 := sorted[3 * n / 4];
      iqr := q3 - q1;
    }
  }

  class AnomalyDetector {
    const zScore: ZScoreModel
    const iqr: IQRModel

    constructor (threshold: real, multiplier: real)
      ensures fresh(zScore) && fresh(iqr)
      ensures Settings() == Config(threshold, multiplier) && Stats() == Fitted(0.0, 0.0, 0.0, 0.0, 0.0)
    {
      zScore := new ZScoreModel(threshold);
      iqr := new IQRModel(multiplier);
    }

    function Settings(): Config {
      Config(zScore.threshold, iqr.multiplier)
    }

    function Stats(): Fitted
      reads zScore, iqr
    {
      Fitted(zScore.mean, zScore.stddev, iqr.q1, iqr.q3, iqr.iqr)
    }

    // The data are sorted in place in the source; here the sorted data are returned.
    method TrainModels(data: seq<DataPoint>, sqrt: real -> real) returns (ok: bool, sorted: seq<DataPoint>)
      requires IsSqrt(sqrt)
      modifies zScore, iqr
      ensures ok <==> data != []
      ensures !ok ==> sorted == data && Stats() == old(Stats())
      ensures ok ==> multiset(sorted) == multiset(data) && SortedBy(sorted, BY_TIMESTAMP) && Trained(Values(sorted), Stats())
      ensures ok && |data| < 4 ==> iqr.iqr == old(iqr.iqr)
      ensures ok && Settings().threshold > 0.0 ==>
                var k := Count(data, FlagsPoint(Settings(), Stats()));
                && Product(k as real, Square(Settings().threshold)) <= |data| as real
                && (k > 0 ==> Product(k as real, Square(Settings().threshold)) < |data| as real)
    {
      sorted := data;
      if |data| == 0 {
        return false, sorted;
      }
      sorted := SortBy(data, BY_TIMESTAMP);
      SameSize(sorted, data);
      zScore.Train(sorted, sqrt);
      iqr.Train(sorted);
      ok := true;
      if Settings().threshold > 0.0 {
        FewPointsFlagged(sorted, data, Settings(), Stats());
      }
    }

    // The models are asked in the order of a map's iteration, which is any order.
    method DetectAnomalies(point: DataPoint, models: seq<Model>) returns (r: Verdict)
      requires multiset(models) == multiset(MODELS)
      ensures r == Decision(Verdicts(Settings(), Stats(), MODELS, point.value))
      ensures Stats().stddev >= 0.0 ==>
                var cfg, m, x := Settings(), Stats(), point.value;
                r.isAnomaly <==>
                  && m.stddev != 0.0 && m.iqr != 0.0
                  && (m.mean - x > Product(cfg.threshold, m.stddev) || x - m.mean > Product(cfg.threshold, m.stddev))
                  && (m.q1 - x > Product(cfg.multiplier, m.iqr) || x - m.q3 > Product(cfg.multiplier, m.iqr))
      ensures r.isAnomaly <==> r.confidence == Some(0.5)
    {
      var results: seq<Verdict> := [];
      for i := 0 to |models|
        invariant results == Verdicts(Settings(), Stats(), models[..i], point.value)
      {
        var result := Detect(Settings(), Stats(), models[i], point.value);
        results := results + [result];
      }
      assert models[..|models|] == models;
      TwoVotesNeeded(Settings(), Stats(), models, point.value);
      if Stats().stddev >= 0.0 {
        FlagMeans(Settings(), Stats(), point.value);
      }
      r := EnsembleDecision(results);
    }
  }

  const BY_TIMESTAMP: DataPoint -> int := (p: DataPoint) => p.ts

  method EnsembleDecision(results: seq<Verdict>) returns (r: Verdict)
    ensures r == Decision(results)
    ensures results != [] ==>
              var n, votes := |results|, Count(results, IsAnomaly());
              && (r.isAnomaly <==> 2 * votes >= n)
              && r.confidence.Some? && Product(r.confidence.value, n as real) == votes as real
              && (r.score.Some? <==> forall v :: v in results ==> v.score.Some?)
              && (r.score.Some? ==> Product(r.score.value, n as real) == Total(Scores(results)))
  {
    if |results| == 0 {
      return Verdict(false, Some(0.0), Some(0.0));
    }
    DecisionMeans(results);
    var anomalyVotes, totalScore := 0, Some(0.0);
    for i := 0 to |results|
      invariant anomalyVotes == Count(results[..i], IsAnomaly())
      invariant totalScore == ScoreSum(results[..i])
    {
      assert results[..i + 1] == results[..i] + [results[i]];
      CountSnoc(results[..i], results[i], IsAnomaly());
      ScoreSumSnoc(results[..i], results[i]);
      if results[i].isAnomaly {
        anomalyVotes := anomalyVotes + 1;
      }
      totalScore := Plus(totalScore, results[i].score);
    }
    assert results[..|results|] == results;
    var n := |results| as real;
    r := Verdict(anomalyVotes as real / n >= 0.5, Share(totalScore, n), Some(anomalyVotes as real / n));
  }

  function FlagsPoint(cfg: Config, m: Fitted): DataPoint -> bool {
    (p: DataPoint) => Flagged(cfg, m, p.value)
  }

  lemma {:induction false} CountValues(data: seq<DataPoint>, cfg: Config, m: Fitted)
    ensures Count(data, FlagsPoint(cfg, m)) == Count(Values(data), FlaggedBy(cfg, m))
  {
    if data != [] {
      var n := |data| - 1;
      assert Values(data)[..n] == Values(data[..n]);
      CountValues(data[..n], cfg, m);
    }
  }

  lemma SameSize<T>(a: seq<T>, b: seq<T>)
    requires multiset(a) == multiset(b)
    ensures |a| == |b|
  {
    assert |multiset(a)| == |a| && |multiset(b)| == |b|;
  }

  // However the points were ordered for the training.
  lemma FewPointsFlagged(sorted: seq<DataPoint>, data: seq<DataPoint>, cfg: Config, m: Fitted)
    requires multiset(sorted) == multiset(data) && Trained(Values(sorted), m) && cfg.threshold > 0.0
    ensures var k := Count(data, FlagsPoint(cfg, m));
            && Product(k as real, Square(cfg.threshold)) <= |data| as real
            && (k > 0 ==> Product(k as real, Square(cfg.threshold)) < |data| as real)
  {
    Permuted(sorted, data, FlagsPoint(cfg, m), (p: DataPoint) => 0.0);
    SameSize(sorted, data);
    CountValues(sorted, cfg, m);
    FewFlagged(Values(sorted), cfg, m);
  }
}
