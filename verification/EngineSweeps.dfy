/**
 Cleanup sweeps after any run: what they lose, and when they lose nothing.
 */
module EngineSweeps {
  import opened Points
  import opened HotState
  import opened HotAccounting
  import opened WarmLog
  import opened WarmState
  import opened EngineState
  import opened EngineRuns

  // After any run, for every series and every time of the sweep: its queries
  // keep all answers exactly when what goes of one layer is found in the other.
  lemma SweepInvisibleIff(cfg: Config, ops: seq<EngineOp>, now: int, id: string, start: int, end: int)
    ensures var e := EngineRun(cfg, ops);
      (forall r :: Answers(e, id, start, end, r) <==> Answers(SweepStep(cfg, e, now), id, start, end, r))
      <==> SweepLosesNothing(e, id in StaleIds(e.hot, now, cfg.hotRetention),
                             id in ExpiredIds(e.warm, now, cfg.warmRetention), id, start, end)
  {
    var e := EngineRun(cfg, ops);
    RunInvariant(cfg, ops);
    LossIff(e, SweepStep(cfg, e, now), id in StaleIds(e.hot, now, cfg.hotRetention),
            id in ExpiredIds(e.warm, now, cfg.warmRetention), id, start, end);
  }

  // Of a stale series whose file stays: exactly when every timestamp in the range
  // lies in a block that starts in the range.
  lemma StaleSweepInvisibleIff(cfg: Config, ops: seq<EngineOp>, now: int, id: string, start: int, end: int)
    requires id in StaleIds(EngineRun(cfg, ops).hot, now, cfg.hotRetention)
    requires id !in ExpiredIds(EngineRun(cfg, ops).warm, now, cfg.warmRetention)
    ensures var e := EngineRun(cfg, ops);
      (forall r :: Answers(e, id, start, end, r) <==> Answers(SweepStep(cfg, e, now), id, start, end, r))
      <==> AllSupplied(e.hot.series[id].points, FileBlocks(e.warm, id), start, end)
  {
    SweepInvisibleIff(cfg, ops, now, id, start, end);
  }

  // A stale series that was never tiered is lost: its queries find nothing afterwards.
  lemma UntieredSweepLosesAll(cfg: Config, ops: seq<EngineOp>, now: int, id: string, start: int, end: int, r: seq<DataPoint>)
    requires id in StaleIds(EngineRun(cfg, ops).hot, now, cfg.hotRetention) && id !in EngineRun(cfg, ops).warm
    ensures Answers(SweepStep(cfg, EngineRun(cfg, ops), now), id, start, end, r) <==> r == []
  {
    if r != [] && Answers(SweepStep(cfg, EngineRun(cfg, ops), now), id, start, end, r) {
      AnswerTime(multiset{}, r, r[0].ts);
    }
  }

  // It happens: one point added, and a sweep before any tiering.
  lemma UntieredSweepLoses(cfg: Config, t: int, v: real)
    requires cfg.lim.maxSeries >= 1
    ensures var e, now := EngineRun(cfg, [Put("s", t, v, 0)]), cfg.hotRetention + 1;
      && Answers(e, "s", t, t, [DataPoint(t, v)])
      && !Answers(SweepStep(cfg, e, now), "s", t, t, [DataPoint(t, v)])
      && Answers(SweepStep(cfg, e, now), "s", t, t, [])
  {
    var ops, now := [Put("s", t, v, 0)], cfg.hotRetention + 1;
    var e := EngineRun(cfg, ops);
    assert ops[..0] == [];
    assert EngineRun(cfg, ops[..0]) == Engine(EMPTY, map[]);
    assert e.warm == map[] && e.hot.series["s"] == SeriesState([DataPoint(t, v)], 0);
    assert InRange([DataPoint(t, v)], t, t) == [DataPoint(t, v)];
    UntieredSweepLosesAll(cfg, ops, now, "s", t, t, [DataPoint(t, v)]);
    UntieredSweepLosesAll(cfg, ops, now, "s", t, t, []);
  }

  // After any run and at any time: a sweep is invisible for a series tiered since
  // its last point was added whose file stays, to queries that start no later
  // than the series does.
  lemma TieredSweepUnnoticed(
      cfg: Config, ops: seq<EngineOp>, now: int, id: string, start: int, end: int, r: seq<DataPoint>)
    requires id in TieredSince(cfg, ops) && id !in ExpiredIds(EngineRun(cfg, ops).warm, now, cfg.warmRetention)
    requires forall p :: p in HotPoints(EngineRun(cfg, ops), id) ==> start <= p.ts
    ensures Answers(EngineRun(cfg, ops), id, start, end, r)
      <==> Answers(SweepStep(cfg, EngineRun(cfg, ops), now), id, start, end, r)
  {
    var e := EngineRun(cfg, ops);
    RunInvariant(cfg, ops);
    SweepInvisibleIff(cfg, ops, now, id, start, end);
    assert IsTiered(e, id);
    if id in e.hot.series {
      TieredSupplied(e.hot.series[id].points, id, FileBlocks(e.warm, id), start, end);
    }
  }

  lemma TieredSupplied(points: seq<DataPoint>, id: string, blocks: seq<Block>, start: int, end: int)
    requires points != [] && Increasing(points) && BlockOf(id, points) in blocks && start <= points[0].ts
    ensures AllSupplied(points, blocks, start, end)
  {
    forall p | p in points && start <= p.ts <= end ensures Supplied(blocks, start, end, p.ts) {
      var i :| 0 <= i < |points| && points[i] == p;
      assert points[0].ts <= p.ts;
      assert HoldsTime(BlockOf(id, points), p.ts);
    }
  }

  // Series have points, so at one time the tiering rule and the cleanup rule pick the same series.
  lemma DueIsStale(lim: Limits, hot: Hot, now: int, retention: int)
    requires WithinLimits(lim, hot)
    ensures Eligible(hot, now, retention) == StaleIds(hot, now, retention)
  {
  }

  // A complete tiering followed by a sweep at any time before the file expires:
  // each series that was due still gives every answer it gave, to queries that
  // start no later than the series does.
  lemma TierThenSweepSafe(
      cfg: Config, ops: seq<EngineOp>, tieredAt: int, order: seq<string>, sweptAt: int,
      id: string, start: int, end: int, r: seq<DataPoint>)
    requires IsTierOrder(cfg, EngineRun(cfg, ops), tieredAt, order) && Writable(EngineRun(cfg, ops).hot, order)
    requires DoneCount(cfg.codec, EngineRun(cfg, ops).hot, order) == |order|
    requires sweptAt - cfg.warmRetention <= tieredAt
    requires id in StaleIds(EngineRun(cfg, ops).hot, tieredAt, cfg.hotRetention)
    requires forall p :: p in EngineRun(cfg, ops).hot.series[id].points ==> start <= p.ts
    ensures var tiered := TierStep(cfg, EngineRun(cfg, ops), tieredAt, order);
      && (sweptAt >= tieredAt ==> id !in SweepStep(cfg, tiered, sweptAt).hot.series)
      && (Answers(tiered, id, start, end, r) <==> Answers(SweepStep(cfg, tiered, sweptAt), id, start, end, r))
  {
    var e, all := EngineRun(cfg, ops), ops + [Tier(tieredAt, order)];
    assert all[..|all| - 1] == ops;
    RunInvariant(cfg, ops);
    DueIsStale(cfg.lim, e.hot, tieredAt, cfg.hotRetention);
    var i :| 0 <= i < |order| && order[i] == id;
    TieringWrites(cfg.codec, e.hot, e.warm, order, tieredAt, i);
    assert EngineRun(cfg, all) == TierStep(cfg, e, tieredAt, order);
    assert id in WrittenBy(cfg, e, Tier(tieredAt, order));
    TieredSweepUnnoticed(cfg, all, sweptAt, id, start, end, r);
  }
}
