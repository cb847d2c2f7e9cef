/**
 The sliding-window detector: a point is judged against the quartiles of the
 window and then enters it.  With fewer than four values there is no judgement,
 and the point does not enter either.
 */
module WindowDetectors {
  import opened Sums
  import opened SortedValues
  import opened Percentiles

  // Infinite is the score of a point out of bounds when the quartiles are equal.
  datatype Score = Finite(value: real) | Infinite
  datatype Detection =
    | NotJudged
    | Judged(isAnomaly: bool, score: Score, min: real, max: real)

  const ENOUGH := 4

  function Quartiles(window: seq<real>): (real, real) {
    (Percentile(Sort(window), 25.0), Percentile(Sort(window), 75.0))
  }

  function ScoreOf(distance: real, iqr: real): Score {
    if distance == 0.0 then Finite(0.0) else if iqr == 0.0 then Infinite else Finite(distance / iqr)
  }

  lemma ScoreIs(distance: real, iqr: real)
    requires distance != 0.0
    ensures iqr == 0.0 ==> ScoreOf(distance, iqr) == Infinite
    ensures iqr != 0.0 ==> ScoreOf(distance, iqr).Finite? && Product(ScoreOf(distance, iqr).value, iqr) == distance
  {
  }

  function Judgement(q1: real, q3: real, multiplier: real, x: real): Detection {
    var iqr := q3 - q1;
    var lower, upper := q1 - Product(multiplier, iqr), q3 + Product(multiplier, iqr);
    var distance := if x < lower then lower - x else if x > upper then x - upper else 0.0;
    Judged(x < lower || x > upper, ScoreOf(distance, iqr), lower, upper)
  }

  function Verdict(window: seq<real>, multiplier: real, x: real): Detection {
    if |window| < ENOUGH then NotJudged else
      var q := Quartiles(window);
      Judgement(q.0, q.1, multiplier, x)
  }

  // Judged by quartiles in order: the bounds lie around them, and the flag, the
  // score and the bounds say the same.
  lemma JudgementIsOutside(q1: real, q3: real, multiplier: real, x: real)
    requires multiplier >= 0.0 && q1 <= q3
    ensures var d := Judgement(q1, q3, multiplier, x);
            && d.min <= q1 && q3 <= d.max
            && (d.isAnomaly <==> x < d.min || x > d.max)
            && (d.isAnomaly <==> d.score != Finite(0.0))
            && (d.score.Finite? ==> d.score.value >= 0.0)
  {
    ProductSign(multiplier, q3 - q1);
    var d := Judgement(q1, q3, multiplier, x);
    QuotientSign(d.min - x, q3 - q1);
    QuotientSign(x - d.max, q3 - q1);
  }

  lemma QuotientSign(x: real, y: real)
    ensures y > 0.0 && x > 0.0 ==> x / y > 0.0
  {
    if y > 0.0 && x > 0.0 {
      var q := x / y;
      assert q * y == x;
      assert q <= 0.0 ==> q * y <= 0.0;
    }
  }

  lemma LowQuartile(r: seq<real>, i: nat)
    requires Sorted(r) && 2 <= |r| && (|r| + 2) / 4 <= i < |r|
    ensures Percentile(r, 25.0) <= r[i]
  {
    IndexInRange(|r|, 25.0);
    assert IndexOf(|r|, 25.0) == (|r| - 1) as real / 4.0;
    AtIndexBetween(r, IndexOf(|r|, 25.0));
  }

  lemma HighQuartile(r: seq<real>, i: nat)
    requires Sorted(r) && 2 <= |r| && i <= |r| - 1 - (|r| + 2) / 4
    ensures r[i] <= Percentile(r, 75.0)
  {
    IndexInRange(|r|, 75.0);
    var index := IndexOf(|r|, 75.0);
    assert index == (|r| - 1) as real * 0.75;
    AtIndexBetween(r, index);
    assert i as real <= index;
    assert i <= index.Floor;
  }

  function FlaggedIn(window: seq<real>, multiplier: real): real -> bool {
    (x: real) => var d := Verdict(window, multiplier, x); d.Judged? && d.isAnomaly
  }

  lemma FlaggedBeyond(window: seq<real>, multiplier: real, x: real)
    requires |window| >= ENOUGH && multiplier >= 0.0 && FlaggedIn(window, multiplier)(x)
    ensures x < Quartiles(window).0 || x > Quartiles(window).1
  {
    SortSorts(window);
    PercentileMonotone(Sort(window), 25.0, 75.0);
    JudgementIsOutside(Quartiles(window).0, Quartiles(window).1, multiplier, x);
  }

  lemma FewBelow(window: seq<real>, f: real -> bool)
    requires |window| >= 2 && forall x :: f(x) ==> x < Percentile(Sort(window), 25.0)
    ensures Count(window, f) <= (|window| + 2) / 4
  {
    var n, r, k := |window|, Sort(window), (|window| + 2) / 4;
    SortSorts(window);
    forall i | k <= i < n ensures !f(r[i]) {
      LowQuartile(r, i);
    }
    BelowSorted(window, k, f);
  }

  lemma FewAbove(window: seq<real>, f: real -> bool)
    requires |window| >= 2 && forall x :: f(x) ==> x > Percentile(Sort(window), 75.0)
    ensures Count(window, f) <= (|window| + 2) / 4
  {
    var n, r, k := |window|, Sort(window), (|window| + 2) / 4;
    SortSorts(window);
    forall i | 0 <= i <= n - 1 - k ensures !f(r[i]) {
      HighQuartile(r, i);
    }
    AboveSorted(window, n - 1 - k, f);
  }

  // Of the n values in the window itself at most a quarter of n - 1, rounded up,
  // lies out of bounds on each side.
  lemma FewOfTheWindow(window: seq<real>, multiplier: real)
    requires |window| >= ENOUGH && multiplier >= 0.0
    ensures Count(window, FlaggedIn(window, multiplier)) <= 2 * ((|window| + 2) / 4)
  {
    var q := Quartiles(window);
    var below, above := (x: real) => x < q.0, (x: real) => x > q.1;
    forall i | 0 <= i < |window| && FlaggedIn(window, multiplier)(window[i]) ensures below(window[i]) || above(window[i]) {
      FlaggedBeyond(window, multiplier, window[i]);
    }
    CountEither(window, FlaggedIn(window, multiplier), below, above);
    FewBelow(window, below);
    FewAbove(window, above);
  }

  // ---- The window ------------------------------------------------------------------------

  function LastOf(s: seq<real>, size: nat): seq<real> {
    if |s| > size then s[|s| - size..] else s
  }

  function Slid(window: seq<real>, size: nat, x: real): seq<real> {
    if |window| < ENOUGH then window else
      var longer := window + [x];
      if |longer| > size then longer[1..] else longer
  }

  ghost function AfterStream(window: seq<real>, size: nat, xs: seq<real>): seq<real> {
    if xs == [] then window else Slid(AfterStream(window, size, xs[..|xs| - 1]), size, xs[|xs| - 1])
  }

  lemma LastOfLast(s: seq<real>, size: nat, x: real)
    ensures LastOf(LastOf(s, size) + [x], size) == LastOf(s + [x], size)
  {
  }

  // The window is the last values of all that was trained on and seen since,
  // provided training left enough; otherwise it never changes again.
  lemma {:induction false} WindowIs(trained: seq<real>, size: nat, xs: seq<real>)
    ensures var window := AfterStream(LastOf(trained, size), size, xs);
            if |trained| >= ENOUGH && size >= ENOUGH
            then window == LastOf(trained + xs, size) && |window| >= ENOUGH
            else window == LastOf(trained, size) && |window| < ENOUGH
  {
    if xs == [] {
      assert trained + xs == trained;
    } else {
      var n := |xs| - 1;
      WindowIs(trained, size, xs[..n]);
      assert trained + xs == trained + xs[..n] + [xs[n]];
      if |trained| >= ENOUGH && size >= ENOUGH {
        LastOfLast(trained + xs[..n], size, xs[n]);
      }
    }
  }

  // Points are judged exactly by the detectors trained on enough values, whatever came since.
  lemma {:induction false} JudgesIff(trained: seq<real>, size: nat, xs: seq<real>, multiplier: real, x: real)
    ensures Verdict(AfterStream(LastOf(trained, size), size, xs), multiplier, x).Judged?
            <==> |trained| >= ENOUGH && size >= ENOUGH
  {
    WindowIs(trained, size, xs);
  }

  // ---- Change of scale -------------------------------------------------------------------

  // The bounds move with the values; verdict and score stay.
  ghost predicate SameUpTo(d: Detection, d': Detection, a: real, b: real) {
    match d
    case NotJudged => d'.NotJudged?
    case Judged(isAnomaly, score, min, max) => d' == Judged(isAnomaly, score, Rescaled(min, a, b), Rescaled(max, a, b))
  }

  lemma DifferenceRescales(x: real, y: real, a: real, b: real)
    ensures Rescaled(x, a, b) - Rescaled(y, a, b) == Product(a, x - y)
  {
  }

  lemma ScoreRescales(distance: real, iqr: real, a: real)
    requires a > 0.0
    ensures ScoreOf(Product(a, distance), Product(a, iqr)) == ScoreOf(distance, iqr)
  {
    NonZeroProduct(a, distance);
    NonZeroProduct(a, iqr);
    if distance != 0.0 && iqr != 0.0 {
      QuotientRescales(distance, iqr, a);
    }
  }

  lemma NonZeroProduct(a: real, x: real)
    requires a > 0.0
    ensures Product(a, x) == 0.0 <==> x == 0.0
  {
    ProductSign(a, x);
  }

  lemma QuotientRescales(x: real, y: real, a: real)
    requires a != 0.0 && y != 0.0 && Product(a, y) != 0.0
    ensures Product(a, x) / Product(a, y) == x / y
  {
    var q, r := Product(a, x) / Product(a, y), x / y;
    assert q * (a * y) == a * x;
    assert r * y == x;
    assert (q - r) * (a * y) == 0.0;
  }

  lemma BoundsRescale(q1: real, q3: real, multiplier: real, a: real, b: real)
    ensures var iqr, iqr' := q3 - q1, Rescaled(q3, a, b) - Rescaled(q1, a, b);
            && Rescaled(q1, a, b) - Product(multiplier, iqr') == Rescaled(q1 - Product(multiplier, iqr), a, b)
            && Rescaled(q3, a, b) + Product(multiplier, iqr') == Rescaled(q3 + Product(multiplier, iqr), a, b)
  {
    var iqr := q3 - q1;
    DifferenceRescales(q3, q1, a, b);
    assert multiplier * (a * iqr) == a * (multiplier * iqr);
    assert a * (q1 - multiplier * iqr) == a * q1 - a * (multiplier * iqr);
    assert a * (q3 + multiplier * iqr) == a * q3 + a * (multiplier * iqr);
  }

  lemma JudgementRescales(q1: real, q3: real, multiplier: real, x: real, a: real, b: real)
    requires a > 0.0
    ensures SameUpTo(Judgement(q1, q3, multiplier, x),
                     Judgement(Rescaled(q1, a, b), Rescaled(q3, a, b), multiplier, Rescaled(x, a, b)), a, b)
  {
    var iqr := q3 - q1;
    var lower, upper := q1 - Product(multiplier, iqr), q3 + Product(multiplier, iqr);
    BoundsRescale(q1, q3, multiplier, a, b);
    RescaledOrder(lower, x, a, b);
    RescaledOrder(x, upper, a, b);
    DifferenceRescales(q3, q1, a, b);
    DifferenceRescales(lower, x, a, b);
    DifferenceRescales(x, upper, a, b);
    var distance := if x < lower then lower - x else if x > upper then x - upper else 0.0;
    ScoreRescales(distance, iqr, a);
  }

  lemma VerdictRescales(window: seq<real>, multiplier: real, x: real, a: real, b: real)
    requires a > 0.0
    ensures SameUpTo(Verdict(window, multiplier, x), Verdict(RescaledAll(window, a, b), multiplier, Rescaled(x, a, b)), a, b)
  {
    if |window| >= ENOUGH {
      SortRescales(window, a, b);
      PercentileRescales(Sort(window), 25.0, a, b);
      PercentileRescales(Sort(window), 75.0, a, b);
      var q := Quartiles(window);
      JudgementRescales(q.0, q.1, multiplier, x, a, b);
    }
  }

  lemma {:induction false} StreamRescales(window: seq<real>, size: nat, xs: seq<real>, a: real, b: real)
    ensures AfterStream(RescaledAll(window, a, b), size, RescaledAll(xs, a, b)) == RescaledAll(AfterStream(window, size, xs), a, b)
  {
    if xs != [] {
      var n := |xs| - 1;
      assert RescaledAll(xs, a, b)[..n] == RescaledAll(xs[..n], a, b);
      StreamRescales(window, size, xs[..n], a, b);
    }
  }

  // The unit of measurement does not matter: trained on and fed with rescaled
  // values, the detector judges every point of every stream alike.
  lemma DetectorRescales(trained: seq<real>, size: nat, xs: seq<real>, multiplier: real, x: real, a: real, b: real)
    requires a > 0.0
    ensures SameUpTo(Verdict(AfterStream(LastOf(trained, size), size, xs), multiplier, x),
                     Verdict(AfterStream(LastOf(RescaledAll(trained, a, b), size), size, RescaledAll(xs, a, b)),
                             multiplier, Rescaled(x, a, b)), a, b)
  {
    assert LastOf(RescaledAll(trained, a, b), size) == RescaledAll(LastOf(trained, size), a, b);
    StreamRescales(LastOf(trained, size), size, xs, a, b);
    VerdictRescales(AfterStream(LastOf(trained, size), size, xs), multiplier, x, a, b);
  }

  // ---- The detector ----------------------------------------------------------------------

  class IQRDetector {
    var multiplier: real
    const windowSize: nat
    var values: seq<real>

    constructor (multiplier: real, windowSize: nat)
      ensures this.multiplier == multiplier && this.windowSize == windowSize && values == []
    {
      this.multiplier, this.windowSize := multiplier, windowSize;
      values := [];
    }

    method SetThreshold(threshold: real)
      modifies this`multiplier
      ensures multiplier == threshold
    {
      multiplier := threshold;
    }

    method Train(points: seq<real>) returns (ok: bool)
      modifies this`values
      ensures ok <==> points != []
      ensures values == if ok then LastOf(points, windowSize) else old(values)
      ensures ok ==> |values| <= |points| && values == points[|points| - |values|..]
      ensures ok ==> |values| == if |points| < windowSize then |points| else windowSize
    {
      if |points| == 0 {
        return false;
      }
      values := points;
      if |values| > windowSize {
        values := values[|values| - windowSize..];
      }
      ok := true;
    }

    method Detect(x: real) returns (d: Detection)
      modifies this`values
      ensures d == Verdict(old(values), multiplier, x)
      ensures values == Slid(old(values), windowSize, x)
      ensures d.NotJudged? <==> |old(values)| < 4
      ensures d.NotJudged? ==> values == old(values)
      ensures d.Judged? ==> values == (if |old(values)| < windowSize then old(values) else old(values)[1..]) + [x]
      ensures d.Judged? ==>
                var sorted := Sort(old(values));
                var q1, q3 := Percentile(sorted, 25.0), Percentile(sorted, 75.0);
                var apart, iqr := Product(multiplier, q3 - q1), q3 - q1;
                && d.min == q1 - apart && d.max == q3 + apart
                && (d.isAnomaly <==> q1 - x > apart || x - q3 > apart)
                && (d.score == Infinite <==> d.isAnomaly && iqr == 0.0)
                && (!d.isAnomaly ==> d.score == Finite(0.0))
                && (d.isAnomaly && iqr != 0.0 ==>
                      Product(d.score.value, iqr) == if x < q1 - apart then q1 - apart - x else x - (q3 + apart))
    {
      if |values| < ENOUGH {
        return NotJudged;
      }
      var sortedValues := Sort(values);
      var q1 := Percentile(sortedValues, 25.0);
      var q3 := Percentile(sortedValues, 75.0);
      var iqrRange := q3 - q1;
      var lowerBound := q1 - Product(multiplier, iqrRange);
      var upperBound := q3 + Product(multiplier, iqrRange);
      var isAnomaly := x < lowerBound || x > upperBound;
      var score := Finite(0.0);
      if x < lowerBound {
        score := ScoreOf(lowerBound - x, iqrRange);
        ScoreIs(lowerBound - x, iqrRange);
      } else if x > upperBound {
        score := ScoreOf(x - upperBound, iqrRange);
        ScoreIs(x - upperBound, iqrRange);
      }
      values := values + [x];
      if |values| > windowSize {
        values := values[1..];
      }
      d := Judged(isAnomaly, score, lowerBound, upperBound);
    }
  }
}
