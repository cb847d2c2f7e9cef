/**
 Runs of the whole hot store: the law of the point counter, the limits that
 always hold, and the link from each live series to its own run.
 */
module HotAccounting {
  import opened Points
  import opened HotState
  import opened HotRuns

  datatype Op =
    | Add(id: string, t: int, v: real, now: int)
    | Cleanup(now: int, maxAge: int)

  ghost function Step(lim: Limits, hot: Hot, op: Op): Hot {
    match op
    case Add(id, t, v, now) => Added(lim, hot, id, t, v, now)
    case Cleanup(now, maxAge) => Cleaned(hot, now, maxAge)
  }

  ghost function Run(lim: Limits, ops: seq<Op>): Hot {
    if ops == [] then EMPTY else Step(lim, Run(lim, ops[..|ops| - 1]), ops[|ops| - 1])
  }

  // The series the next AddPoint of an accepted operation inserts into.
  ghost predicate Overwrites(lim: Limits, hot: Hot, op: Op) {
    op.Add? && Accepts(lim, hot, op.id) && Has(Evicted(Current(hot, op.id, op.now).points, lim.maxPoints), op.t)
  }

  // An insertion the counter misses: into an empty series whose cap is not positive.
  ghost predicate Misses(lim: Limits, hot: Hot, op: Op) {
    op.Add? && Accepts(lim, hot, op.id) && lim.maxPoints <= 0 && Current(hot, op.id, op.now).points == []
  }

  ghost function OverwriteCount(lim: Limits, ops: seq<Op>): nat {
    if ops == [] then 0 else
      OverwriteCount(lim, ops[..|ops| - 1])
      + if Overwrites(lim, Run(lim, ops[..|ops| - 1]), ops[|ops| - 1]) then 1 else 0
  }

  ghost function MissCount(lim: Limits, ops: seq<Op>): (n: nat)
    ensures lim.maxPoints >= 1 ==> n == 0
  {
    if ops == [] then 0 else
      MissCount(lim, ops[..|ops| - 1])
      + if Misses(lim, Run(lim, ops[..|ops| - 1]), ops[|ops| - 1]) then 1 else 0
  }

  // ---- Limits ----------------------------------------------------------------------

  ghost function AtLeast(a: int, b: int): int {
    if a < b then b else a
  }

  ghost predicate WithinLimits(lim: Limits, hot: Hot) {
    && |hot.series| <= AtLeast(lim.maxSeries, 0)
    && forall id :: id in hot.series ==>
         Increasing(hot.series[id].points) && 0 < |hot.series[id].points| <= AtLeast(lim.maxPoints, 1)
  }

  lemma AddCappedFits(s: SeriesState, cap: int, t: int, v: real, now: int)
    requires Increasing(s.points) && |s.points| <= AtLeast(cap, 1)
    ensures var after := AddCapped(s, cap, t, v, now).points;
      && Increasing(after) && 0 < |after| <= AtLeast(cap, 1)
      && |after| == |Evicted(s.points, cap)| + if Has(Evicted(s.points, cap), t) then 0 else 1
  {
    UpsertIncreasing(Evicted(s.points, cap), t, v);
    UpsertSize(Evicted(s.points, cap), t, v);
  }

  lemma StepWithinLimits(lim: Limits, hot: Hot, op: Op)
    requires WithinLimits(lim, hot)
    ensures WithinLimits(lim, Step(lim, hot, op))
  {
    match op
    case Add(id, t, v, now) =>
      if Accepts(lim, hot, id) {
        AddCappedFits(Current(hot, id, now), lim.maxPoints, t, v, now);
      }
    case Cleanup(now, maxAge) =>
      var after := Cleaned(hot, now, maxAge);
      assert |after.series| <= |hot.series| by {
        FewerKeys(hot.series, StaleIds(hot, now, maxAge));
      }
  }

  lemma FewerKeys<K, V>(m: map<K, V>, ks: set<K>)
    ensures |m - ks| <= |m|
  {
    assert (m - ks).Keys + (m.Keys * ks) == m.Keys;
    assert |m.Keys| == |(m - ks).Keys| + |m.Keys * ks|;
  }

  // After every run: no more series than allowed, no series above its cap,
  // every series sorted without repeated timestamps.
  lemma {:induction false} RunWithinLimits(lim: Limits, ops: seq<Op>)
    ensures WithinLimits(lim, Run(lim, ops))
  {
    if ops != [] {
      RunWithinLimits(lim, ops[..|ops| - 1]);
      StepWithinLimits(lim, Run(lim, ops[..|ops| - 1]), ops[|ops| - 1]);
    }
  }

  // After every run, one more point is taken exactly for the series there are and,
  // below the limit, for a new one; it is held then.  Otherwise nothing changes.
  lemma AddAfterRun(lim: Limits, ops: seq<Op>, id: string, t: int, v: real, now: int)
    ensures var before, after := Run(lim, ops), Run(lim, ops + [Add(id, t, v, now)]);
      if id in before.series || |before.series| < lim.maxSeries
      then id in after.series && DataPoint(t, v) in after.series[id].points && after.series - {id} == before.series - {id}
      else after == before
  {
    RunWithinLimits(lim, ops);
    assert (ops + [Add(id, t, v, now)])[..|ops|] == ops;
    AddStores(lim, Run(lim, ops), id, t, v, now);
  }

  // ---- The point counter -----------------------------------------------------------

  lemma AddLivePoints(hot: Hot, id: string, s: SeriesState)
    ensures SizeOf(hot.series[id := s], hot.series[id := s].Keys)
            == LivePoints(hot) + |s.points| - if id in hot.series then |hot.series[id].points| else 0
  {
    var after := hot.series[id := s];
    SizeOfSplit(after, after.Keys, id);
    SizeOfSame(after, hot.series, after.Keys - {id});
    if id in hot.series {
      SizeOfSplit(hot.series, hot.series.Keys, id);
      assert after.Keys == hot.series.Keys;
    } else {
      assert after.Keys - {id} == hot.series.Keys;
    }
  }

  lemma CleanedLivePoints(hot: Hot, now: int, maxAge: int)
    ensures LivePoints(Cleaned(hot, now, maxAge)) == LivePoints(hot) - SizeOf(hot.series, StaleIds(hot, now, maxAge))
  {
    var stale := StaleIds(hot, now, maxAge);
    var rest := hot.series - stale;
    SizeOfUnion(hot.series, stale, rest.Keys);
    assert stale + rest.Keys == hot.series.Keys;
    SizeOfSame(rest, hot.series, rest.Keys);
  }

  lemma StepAccounts(lim: Limits, hot: Hot, op: Op)
    requires WithinLimits(lim, hot)
    ensures var after := Step(lim, hot, op);
      after.totalPoints - hot.totalPoints
      == LivePoints(after) - LivePoints(hot)
         + (if Overwrites(lim, hot, op) then 1 else 0) - (if Misses(lim, hot, op) then 1 else 0)
  {
    match op
    case Add(id, t, v, now) =>
      if Accepts(lim, hot, id) {
        var s := Current(hot, id, now);
        AddCappedFits(s, lim.maxPoints, t, v, now);
        AddLivePoints(hot, id, AddCapped(s, lim.maxPoints, t, v, now));
      }
    case Cleanup(now, maxAge) =>
      CleanedLivePoints(hot, now, maxAge);
  }

  // The counter equals the points held plus the in-place overwrites ever made.
  // (It falls short by the insertions it misses, which need a cap below 1.)
  lemma {:induction false} AccountingLaw(lim: Limits, ops: seq<Op>)
    ensures Run(lim, ops).totalPoints
            == LivePoints(Run(lim, ops)) + OverwriteCount(lim, ops) - MissCount(lim, ops)
    ensures lim.maxPoints >= 1 ==>
      Run(lim, ops).totalPoints == LivePoints(Run(lim, ops)) + OverwriteCount(lim, ops)
  {
    if ops != [] {
      var front := ops[..|ops| - 1];
      AccountingLaw(lim, front);
      RunWithinLimits(lim, front);
      StepAccounts(lim, Run(lim, front), ops[|ops| - 1]);
    }
  }

  // ---- Each live series is its own capped run ----------------------------------------

  // The points written to a series since it was last created; none if it does not exist.
  ghost function WritesTo(lim: Limits, ops: seq<Op>, id: string): seq<DataPoint> {
    if ops == [] then [] else
      var front, op := ops[..|ops| - 1], ops[|ops| - 1];
      var hot := Run(lim, front);
      if id !in Run(lim, ops).series then []
      else if op.Add? && op.id == id && Accepts(lim, hot, id) then WritesTo(lim, front, id) + [DataPoint(op.t, op.v)]
      else WritesTo(lim, front, id)
  }

  lemma {:induction false} SeriesRun(lim: Limits, ops: seq<Op>, id: string)
    ensures id !in Run(lim, ops).series ==> WritesTo(lim, ops, id) == []
    ensures id in Run(lim, ops).series ==>
      Run(lim, ops).series[id].points == CappedRun(lim.maxPoints, WritesTo(lim, ops, id))
  {
    if ops != [] {
      var front, op := ops[..|ops| - 1], ops[|ops| - 1];
      SeriesRun(lim, front, id);
      if op.Add? && op.id == id && Accepts(lim, Run(lim, front), id) {
        var w := WritesTo(lim, front, id);
        assert (w + [DataPoint(op.t, op.v)])[..|w|] == w;
      }
    }
  }

  // The retention theorem for a series of the store: after any run, with a cap
  // K >= 1, it holds the K - 1 newest points written to it since its creation.
  lemma StoreRetains(lim: Limits, ops: seq<Op>, id: string)
    requires lim.maxPoints >= 1 && id in Run(lim, ops).series
    ensures var c, all := Run(lim, ops).series[id].points, UnboundedRun(WritesTo(lim, ops, id));
      var m := if lim.maxPoints - 1 <= |all| then lim.maxPoints - 1 else |all|;
      && m <= |c| <= lim.maxPoints && c[|c| - m..] == all[|all| - m..]
      && forall p :: p in c ==>
           p.ts in AsMap(WritesTo(lim, ops, id)) && AsMap(WritesTo(lim, ops, id))[p.ts] == p.value
  {
    SeriesRun(lim, ops, id);
    RetentionTheorem(lim.maxPoints, WritesTo(lim, ops, id));
  }
}
