/**
 The verdicts of the four anomaly models and of their vote, and how many of
 the training points they can flag.
 */
module AnomalyModels {
  import opened Outcomes
  import opened Sums
  import opened Sorting
  import opened SortedValues

  datatype Config = Config(threshold: real, multiplier: real)
  datatype Fitted = Fitted(mean: real, stddev: real, q1: real, q3: real, iqr: real)

  // What the source calls a vote is a result's anomaly flag.  A score or confidence
  // that comes of a division by zero is no number.
  datatype Verdict = Verdict(isAnomaly: bool, score: Option<real>, confidence: Option<real>)

  datatype Model = ZScore | IQR | Seasonal | IsolationForest

  const MODELS := [ZScore, IQR, Seasonal, IsolationForest]

  function Abs(x: real): real {
    if x < 0.0 then -x else x
  }

  function Min(x: real, y: real): real {
    if x <= y then x else y
  }

  predicate ZVote(cfg: Config, m: Fitted, x: real) {
    m.stddev != 0.0 && Abs(x - m.mean) / m.stddev > cfg.threshold
  }

  function Lower(cfg: Config, m: Fitted): real {
    m.q1 - Product(cfg.multiplier, m.iqr)
  }

  function Upper(cfg: Config, m: Fitted): real {
    m.q3 + Product(cfg.multiplier, m.iqr)
  }

  predicate IQRVote(cfg: Config, m: Fitted, x: real) {
    m.iqr != 0.0 && (x < Lower(cfg, m) || x > Upper(cfg, m))
  }

  // The verdict of one model; the last two never vote for an anomaly.
  function Detect(cfg: Config, m: Fitted, model: Model, x: real): Verdict {
    match model
    case ZScore =>
      if m.stddev == 0.0 then Verdict(false, Some(0.0), Some(0.0)) else
        var z := Abs(x - m.mean) / m.stddev;
        if cfg.threshold == 0.0 then Verdict(z > 0.0, None, if z > 0.0 then Some(1.0) else None) else
          Verdict(z > cfg.threshold, Some(z / cfg.threshold), Some(Min(z / cfg.threshold / 2.0, 1.0)))
    case IQR =>
      if m.iqr == 0.0 then Verdict(false, Some(0.0), Some(0.0)) else
        var lower, upper := Lower(cfg, m), Upper(cfg, m);
        var distance := if x < lower then lower - x else if x > upper then x - upper else 0.0;
        Verdict(x < lower || x > upper, Some(distance / m.iqr), Some(Min(distance / m.iqr / 2.0, 1.0)))
    case Seasonal => Verdict(false, Some(0.0), Some(0.5))
    case IsolationForest => Verdict(0.3 > 0.5, Some(0.3), Some(0.7))
  }

  // ---- The ensemble ----------------------------------------------------------------------

  predicate Flagged(cfg: Config, m: Fitted, x: real) {
    ZVote(cfg, m, x) && IQRVote(cfg, m, x)
  }

  function IsAnomaly(): Verdict -> bool {
    (v: Verdict) => v.isAnomaly
  }

  function ScoreOf(): Verdict -> real {
    (v: Verdict) => v.score.GetOr(0.0)
  }

  function NoScore(): Verdict -> bool {
    (v: Verdict) => v.score.None?
  }

  // The sum of the scores, no number if one of them is none.
  ghost function ScoreSum(results: seq<Verdict>): Option<real> {
    if Count(results, NoScore()) > 0 then None else Some(Score(results, ScoreOf()))
  }

  function Plus(a: Option<real>, b: Option<real>): Option<real> {
    if a.Some? && b.Some? then Some(a.value + b.value) else None
  }

  lemma ScoreSumSnoc(results: seq<Verdict>, v: Verdict)
    ensures ScoreSum(results + [v]) == Plus(ScoreSum(results), v.score)
  {
    CountSnoc(results, v, NoScore());
    ScoreSnoc(results, v, ScoreOf());
  }

  function Share(sum: Option<real>, n: real): Option<real>
    requires n > 0.0
  {
    if sum.Some? then Some(sum.value / n) else None
  }

  ghost function Decision(results: seq<Verdict>): Verdict {
    if results == [] then Verdict(false, Some(0.0), Some(0.0)) else
      var votes, n := Count(results, IsAnomaly()) as real, |results| as real;
      Verdict(votes / n >= 0.5, Share(ScoreSum(results), n), Some(votes / n))
  }

  function Scores(results: seq<Verdict>): (s: seq<real>)
  {
    seq(|results|, i requires 0 <= i < |results| => results[i].score.GetOr(0.0))
  }

  lemma {:induction false} ScoresAdd(results: seq<Verdict>)
    ensures ScoreSum(results).Some? <==> forall v :: v in results ==> v.score.Some?
    ensures Score(results, ScoreOf()) == Total(Scores(results))
  {
    if results != [] {
      var n := |results| - 1;
      ScoresAdd(results[..n]);
      ScoreSumSnoc(results[..n], results[n]);
      assert results == results[..n] + [results[n]];
      assert Scores(results)[..n] == Scores(results[..n]);
    }
  }

  lemma QuotientTimes(x: real, n: real)
    requires n > 0.0
    ensures Product(x / n, n) == x && (x / n >= 0.5 <==> 2.0 * x >= n)
  {
  }

  // At least half of the votes flag; the score is the mean, the confidence the share.
  lemma DecisionMeans(results: seq<Verdict>)
    requires results != []
    ensures var d, n, votes := Decision(results), |results|, Count(results, IsAnomaly());
            && (d.isAnomaly <==> 2 * votes >= n)
            && d.confidence.Some? && Product(d.confidence.value, n as real) == votes as real
            && (d.score.Some? <==> forall v :: v in results ==> v.score.Some?)
            && (d.score.Some? ==> Product(d.score.value, n as real) == Total(Scores(results)))
  {
    ScoresAdd(results);
    QuotientTimes(Count(results, IsAnomaly()) as real, |results| as real);
    QuotientTimes(Score(results, ScoreOf()), |results| as real);
  }

  // The order of the models, a map's in the source, does not matter.
  lemma OrderIrrelevant(a: seq<Verdict>, b: seq<Verdict>)
    requires multiset(a) == multiset(b)
    ensures Decision(a) == Decision(b)
  {
    Permuted(a, b, IsAnomaly(), ScoreOf());
    Permuted(a, b, NoScore(), ScoreOf());
    assert |a| == |multiset(a)| == |multiset(b)| == |b|;
  }

  function Verdicts(cfg: Config, m: Fitted, models: seq<Model>, x: real): (r: seq<Verdict>)
  {
    seq(|models|, i requires 0 <= i < |models| => Detect(cfg, m, models[i], x))
  }

  lemma {:induction false} VerdictsPermuted(cfg: Config, m: Fitted, a: seq<Model>, b: seq<Model>, x: real)
    requires multiset(a) == multiset(b)
    ensures multiset(Verdicts(cfg, m, a, x)) == multiset(Verdicts(cfg, m, b, x))
    decreases |a|
  {
    if a == [] {
      assert |multiset(b)| == 0;
      assert b == [];
    } else {
      var n := |a| - 1;
      assert a[n] in multiset(b);
      var k :| 0 <= k < |b| && b[k] == a[n];
      var rest := b[..k] + b[k + 1..];
      RemoveAt(a, n);
      assert a[..n] + a[n + 1..] == a[..n];
      RemoveAt(b, k);
      VerdictsPermuted(cfg, m, a[..n], rest, x);
      VerdictsRemove(cfg, m, a, n, x);
      assert a[..n] + a[n + 1..] == a[..n];
      VerdictsRemove(cfg, m, b, k, x);
    }
  }

  lemma VerdictsRemove(cfg: Config, m: Fitted, a: seq<Model>, k: nat, x: real)
    requires k < |a|
    ensures multiset(Verdicts(cfg, m, a, x))
            == multiset(Verdicts(cfg, m, a[..k] + a[k + 1..], x)) + multiset{Detect(cfg, m, a[k], x)}
  {
    var v := Verdicts(cfg, m, a, x);
    assert Verdicts(cfg, m, a[..k] + a[k + 1..], x) == v[..k] + v[k + 1..];
    assert v == v[..k] + [v[k]] + v[k + 1..];
  }

  // Half of the four votes is both of the two that are ever given.
  lemma TwoVotesNeeded(cfg: Config, m: Fitted, models: seq<Model>, x: real)
    requires multiset(models) == multiset(MODELS)
    ensures Decision(Verdicts(cfg, m, models, x)).isAnomaly <==> Flagged(cfg, m, x)
    ensures Decision(Verdicts(cfg, m, models, x)) == Decision(Verdicts(cfg, m, MODELS, x))
    ensures var confidence := Decision(Verdicts(cfg, m, models, x)).confidence;
            confidence.Some? && confidence.value <= 0.5 && (confidence.value == 0.5 <==> Flagged(cfg, m, x))
  {
    VerdictsPermuted(cfg, m, models, MODELS, x);
    OrderIrrelevant(Verdicts(cfg, m, models, x), Verdicts(cfg, m, MODELS, x));
    VotesOf(cfg, m, x);
  }

  lemma VotesOf(cfg: Config, m: Fitted, x: real)
    ensures Count(Verdicts(cfg, m, MODELS, x), IsAnomaly())
            == (if ZVote(cfg, m, x) then 1 else 0) + if IQRVote(cfg, m, x) then 1 else 0
    ensures |Verdicts(cfg, m, MODELS, x)| == 4
  {
    var v := Verdicts(cfg, m, MODELS, x);
    assert v[..3][..2] == v[..2] && v[..2][..1] == v[..1] && v[..1][..0] == [];
    assert Count(v[..1], IsAnomaly()) == if ZVote(cfg, m, x) then 1 else 0;
    assert Count(v[..2], IsAnomaly()) == Count(v[..1], IsAnomaly()) + if IQRVote(cfg, m, x) then 1 else 0;
    assert Count(v[..3], IsAnomaly()) == Count(v[..2], IsAnomaly());
  }

  lemma OverTimes(d: real, s: real, t: real)
    requires s > 0.0
    ensures d / s > t <==> d > Product(t, s)
  {
    var q := d / s;
    assert q * s == d;
    assert q > t ==> q * s > t * s;
    assert q <= t ==> q * s <= t * s;
  }

  // Half of the score, but not more than 1.
  ghost predicate HalfOfScore(v: Verdict) {
    && v.score.Some? && v.confidence.Some?
    && v.confidence.value <= 1.0 && 2.0 * v.confidence.value <= v.score.value
    && (v.confidence.value == 1.0 || 2.0 * v.confidence.value == v.score.value)
  }

  // The scores tell what the votes do: a z-score vote is a score above 1, an
  // interquartile vote a positive one.  The confidence is half of the score up to 1.
  lemma ScoresAgree(cfg: Config, m: Fitted, x: real)
    requires cfg.threshold > 0.0 && m.stddev >= 0.0 && m.iqr >= 0.0
    ensures Detect(cfg, m, ZScore, x).isAnomaly <==> Detect(cfg, m, ZScore, x).score.GetOr(0.0) > 1.0
    ensures Detect(cfg, m, IQR, x).isAnomaly <==> Detect(cfg, m, IQR, x).score.GetOr(0.0) > 0.0
    ensures HalfOfScore(Detect(cfg, m, ZScore, x)) && HalfOfScore(Detect(cfg, m, IQR, x))
  {
    if m.stddev > 0.0 {
      OverTimes(Abs(x - m.mean) / m.stddev, cfg.threshold, 1.0);
    }
    if m.iqr > 0.0 {
      OverTimes(Lower(cfg, m) - x, m.iqr, 0.0);
      OverTimes(x - Upper(cfg, m), m.iqr, 0.0);
    }
  }

  // A point is flagged when it is far from the mean, in deviations, and from the
  // quartiles, in interquartile ranges.
  lemma FlagMeans(cfg: Config, m: Fitted, x: real)
    requires m.stddev >= 0.0
    ensures Decision(Verdicts(cfg, m, MODELS, x)).isAnomaly <==>
              && m.stddev != 0.0 && m.iqr != 0.0
              && (m.mean - x > Product(cfg.threshold, m.stddev) || x - m.mean > Product(cfg.threshold, m.stddev))
              && (m.q1 - x > Product(cfg.multiplier, m.iqr) || x - m.q3 > Product(cfg.multiplier, m.iqr))
  {
    TwoVotesNeeded(cfg, m, MODELS, x);
    if m.stddev > 0.0 {
      OverTimes(Abs(x - m.mean), m.stddev, cfg.threshold);
    }
  }

  // A more tolerant setting flags no more.
  lemma FlagAntitone(cfg: Config, cfg': Config, m: Fitted, x: real)
    requires cfg.threshold <= cfg'.threshold && cfg.multiplier <= cfg'.multiplier
    requires m.stddev >= 0.0 && m.iqr >= 0.0
    ensures Decision(Verdicts(cfg', m, MODELS, x)).isAnomaly ==> Decision(Verdicts(cfg, m, MODELS, x)).isAnomaly
  {
    FlagMeans(cfg, m, x);
    FlagMeans(cfg', m, x);
    Larger(cfg.threshold, cfg'.threshold, m.stddev);
    Larger(cfg.multiplier, cfg'.multiplier, m.iqr);
  }

  lemma Larger(t: real, t': real, s: real)
    requires t <= t' && s >= 0.0
    ensures Product(t, s) <= Product(t', s)
  {
    assert (t' - t) * s >= 0.0;
  }

  lemma ScoreOfFour(cfg: Config, m: Fitted, x: real)
    ensures var z, q := Detect(cfg, m, ZScore, x).score, Detect(cfg, m, IQR, x).score;
            Decision(Verdicts(cfg, m, MODELS, x)).score
            == if z.None? || q.None? then None else Some((z.value + q.value + 0.3) / 4.0)
  {
    var v := Verdicts(cfg, m, MODELS, x);
    ScoreSumSnoc([], v[0]);
    ScoreSumSnoc(v[..1], v[1]);
    ScoreSumSnoc(v[..2], v[2]);
    ScoreSumSnoc(v[..3], v[3]);
    assert v[..1] == [] + [v[0]] && v[..2] == v[..1] + [v[1]] && v[..3] == v[..2] + [v[2]] && v == v[..3] + [v[3]];
  }

  // The score is the mean of four: how many thresholds x is from the mean, how many
  // interquartile ranges it is out of bounds, nothing and 0.3.  Divided by a threshold
  // of zero it is no number.
  lemma ScoreMeans(cfg: Config, m: Fitted, x: real)
    ensures var score := Decision(Verdicts(cfg, m, MODELS, x)).score;
            var far := if x < m.mean then m.mean - x else x - m.mean;
            var lower, upper := m.q1 - Product(cfg.multiplier, m.iqr), m.q3 + Product(cfg.multiplier, m.iqr);
            var out := if x < lower then lower - x else if x > upper then x - upper else 0.0;
            if m.stddev != 0.0 && cfg.threshold == 0.0 then score == None else
              var z := if m.stddev == 0.0 then 0.0 else far / m.stddev / cfg.threshold;
              var q := if m.iqr == 0.0 then 0.0 else out / m.iqr;
              score == Some((z + q + 0.3) / 4.0)
  {
    ScoreOfFour(cfg, m, x);
    assert Abs(x - m.mean) == if x < m.mean then m.mean - x else x - m.mean;
  }

  // ---- How many training points can be flagged -------------------------------------------

  // The stored statistics are those of the values: the standard deviation is of
  // the population.
  ghost predicate Trained(values: seq<real>, m: Fitted) {
    && values != []
    && m.mean == Mean(values) && m.stddev >= 0.0
    && Product(|values| as real, Square(m.stddev)) == Spread(values, m.mean)
    && (|values| >= 4 ==>
          m.q1 == Sort(values)[|values| / 4] && m.q3 == Sort(values)[3 * |values| / 4] && m.iqr == m.q3 - m.q1)
  }

  lemma OneMoreFar(k: nat, spread: real, bound: real, x: real)
    requires spread >= Product(k as real, bound) && x > bound
    ensures spread + x > Product((k + 1) as real, bound)
  {
    assert (k + 1) as real == k as real + 1.0;
    assert (k as real + 1.0) * bound == k as real * bound + bound;
  }

  lemma {:induction false} Chebyshev(v: seq<real>, c: real, f: real -> bool, bound: real)
    requires forall i :: 0 <= i < |v| && f(v[i]) ==> Square(v[i] - c) > bound
    ensures Spread(v, c) >= Product(Count(v, f) as real, bound)
    ensures Count(v, f) > 0 ==> Spread(v, c) > Product(Count(v, f) as real, bound)
  {
    if v != [] {
      var n := |v| - 1;
      Chebyshev(v[..n], c, f, bound);
      SquareZero(v[n] - c);
      if f(v[n]) {
        OneMoreFar(Count(v[..n], f), Spread(v[..n], c), bound, Square(v[n] - c));
      }
    }
  }

  lemma VoteIsFar(cfg: Config, m: Fitted, x: real)
    requires cfg.threshold > 0.0 && m.stddev > 0.0 && ZVote(cfg, m, x)
    ensures Square(x - m.mean) > Product(Square(cfg.threshold), Square(m.stddev))
  {
    var d, s, t := Abs(x - m.mean), m.stddev, cfg.threshold;
    var z := d / s;
    assert z * s == d;
    assert d > t * s by {
      assert z * s > t * s;
    }
    LargerSquare(d, t * s);
    assert Square(x - m.mean) == Square(d);
    assert (t * s) * (t * s) == (t * t) * (s * s);
  }

  lemma LargerSquare(a: real, b: real)
    requires a > b && b >= 0.0
    ensures Square(a) > Square(b)
  {
    assert Square(a) - Square(b) == (a - b) * (a + b);
    PositiveProduct(Square(a) - Square(b), a - b, a + b);
  }

  function FlaggedBy(cfg: Config, m: Fitted): real -> bool {
    (x: real) => Flagged(cfg, m, x)
  }

  lemma CancelVariance(k: real, t: real, s: real, n: real)
    requires s > 0.0
    ensures Product(k, Product(t, s)) <= Product(n, s) ==> Product(k, t) <= n
    ensures Product(k, Product(t, s)) < Product(n, s) ==> Product(k, t) < n
  {
    var y := k * t;
    assert k * (t * s) == y * s;
    assert y > n ==> y * s > n * s;
    assert y >= n ==> y * s >= n * s;
  }

  // Of the n points trained on, k are flagged with k t^2 <= n, and less if any is.
  lemma FewFlagged(values: seq<real>, cfg: Config, m: Fitted)
    requires Trained(values, m) && cfg.threshold > 0.0
    ensures var k := Count(values, FlaggedBy(cfg, m));
            && Product(k as real, Square(cfg.threshold)) <= |values| as real
            && (k > 0 ==> Product(k as real, Square(cfg.threshold)) < |values| as real)
  {
    var f := FlaggedBy(cfg, m);
    var t, s, k := Square(cfg.threshold), Square(m.stddev), Count(values, f);
    if m.stddev == 0.0 {
      CountNoneOf(values, f);
      assert Product(0.0, t) == 0.0;
    } else {
      forall i | 0 <= i < |values| && f(values[i]) ensures Square(values[i] - m.mean) > Product(t, s) {
        VoteIsFar(cfg, m, values[i]);
      }
      Chebyshev(values, m.mean, f, Product(t, s));
      SquareZero(m.stddev);
      CancelVariance(k as real, t, s, |values| as real);
    }
  }

  // With no more points than the squared threshold, none of them is flagged.
  lemma NoneFlagged(values: seq<real>, cfg: Config, m: Fitted)
    requires Trained(values, m) && cfg.threshold > 0.0 && |values| as real <= Square(cfg.threshold)
    ensures Count(values, FlaggedBy(cfg, m)) == 0
  {
    FewFlagged(values, cfg, m);
    var k := Count(values, FlaggedBy(cfg, m));
    SquareZero(cfg.threshold);
    AtLeastOnce(k as real, Square(cfg.threshold));
  }

  lemma AtLeastOnce(k: real, x: real)
    requires x >= 0.0
    ensures k >= 1.0 ==> Product(k, x) >= x
  {
    assert k >= 1.0 ==> (k - 1.0) * x >= 0.0;
    assert k * x == (k - 1.0) * x + x;
  }

  lemma FlaggedIsBeyond(cfg: Config, m: Fitted, x: real)
    requires cfg.multiplier >= 0.0 && m.iqr >= 0.0 && Flagged(cfg, m, x)
    ensures x < m.q1 || x > m.q3
  {
    assert Product(cfg.multiplier, m.iqr) >= 0.0;
  }

  // The quartiles bound it too: about half of the points, by position alone.
  lemma QuartilesFlagHalf(values: seq<real>, cfg: Config, m: Fitted)
    requires Trained(values, m) && |values| >= 4 && cfg.multiplier >= 0.0
    ensures Count(values, FlaggedBy(cfg, m)) <= |values| / 4 + (|values| - 1 - 3 * |values| / 4)
  {
    var low, high: nat := |values| / 4, 3 * |values| / 4;
    var below, above := (x: real) => x < m.q1, (x: real) => x > m.q3;
    assert low <= high < |values|;
    SortSorts(values);
    SortedAround(Sort(values), low);
    SortedAround(Sort(values), high);
    forall i | 0 <= i < |values| && FlaggedBy(cfg, m)(values[i]) ensures below(values[i]) || above(values[i]) {
      FlaggedIsBeyond(cfg, m, values[i]);
    }
    CountEither(values, FlaggedBy(cfg, m), below, above);
    BelowSorted(values, low, below);
    AboveSorted(values, high, above);
  }
}
