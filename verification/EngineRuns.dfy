/**
 Runs of add, tier and cleanup steps over both layers.  A series whose current
 points were tiered can leave the hot layer unnoticed, whatever happened before.
 */
module EngineRuns {
  import opened Points
  import opened HotState
  import opened HotAccounting
  import opened WarmLog
  import opened WarmState
  import opened EngineState

  datatype Config = Config(lim: Limits, hotRetention: int, warmRetention: int, codec: Codec)

  datatype EngineOp =
    | Put(id: string, t: int, v: real, now: int)
    | Tier(now: int, order: seq<string>)
    | Sweep(now: int)

  // The series due for tiering.
  ghost function Eligible(hot: Hot, now: int, retention: int): set<string> {
    set id | id in hot.series && hot.series[id].lastSeen < now - retention && hot.series[id].points != []
  }

  ghost predicate Lists(order: seq<string>, ids: set<string>) {
    && (forall i, j :: 0 <= i < j < |order| ==> order[i] != order[j])
    && (forall i :: 0 <= i < |order| ==> order[i] in ids)
    && (forall id :: id in ids ==> id in order)
  }

  // Every listed series has points to write.
  ghost predicate Writable(hot: Hot, order: seq<string>) {
    forall i :: 0 <= i < |order| ==> order[i] in hot.series && hot.series[order[i]].points != []
  }

  ghost predicate Encodes(c: Codec, hot: Hot, id: string)
    requires id in hot.series && hot.series[id].points != []
  {
    c.enc(BlockOf(id, hot.series[id].points)).Some?
  }

  // How many of the listed series are written: tiering stops at the first failure.
  ghost function DoneCount(c: Codec, hot: Hot, order: seq<string>): (n: nat)
    requires Writable(hot, order)
    ensures n <= |order|
    ensures forall i :: 0 <= i < n ==> Encodes(c, hot, order[i])
  {
    if order == [] || !Encodes(c, hot, order[0]) then 0 else 1 + DoneCount(c, hot, order[1..])
  }

  ghost function TieredWarm(c: Codec, hot: Hot, warm: Warm, order: seq<string>, now: int): Warm
    requires Writable(hot, order)
    decreases order
  {
    if order == [] then warm else
      var next := Written(c, warm, order[0], hot.series[order[0]].points, now);
      if Encodes(c, hot, order[0]) then TieredWarm(c, hot, next, order[1..], now) else next
  }

  ghost predicate IsTierOrder(cfg: Config, e: Engine, now: int, order: seq<string>) {
    Lists(order, Eligible(e.hot, now, cfg.hotRetention))
  }

  ghost function TierStep(cfg: Config, e: Engine, now: int, order: seq<string>): Engine
    requires Writable(e.hot, order)
  {
    e.(warm := TieredWarm(cfg.codec, e.hot, e.warm, order, now))
  }

  ghost function SweepStep(cfg: Config, e: Engine, now: int): Engine {
    Engine(Cleaned(e.hot, now, cfg.hotRetention), e.warm - ExpiredIds(e.warm, now, cfg.warmRetention))
  }

  // A tier operation whose order does not list the series due is no step.
  ghost function EngineStep(cfg: Config, e: Engine, op: EngineOp): Engine {
    match op
    case Put(id, t, v, now) => e.(hot := Added(cfg.lim, e.hot, id, t, v, now))
    case Tier(now, order) => if IsTierOrder(cfg, e, now, order) then TierStep(cfg, e, now, order) else e
    case Sweep(now) => SweepStep(cfg, e, now)
  }

  ghost function EngineRun(cfg: Config, ops: seq<EngineOp>): Engine {
    if ops == [] then Engine(EMPTY, map[]) else EngineStep(cfg, EngineRun(cfg, ops[..|ops| - 1]), ops[|ops| - 1])
  }

  ghost function WrittenBy(cfg: Config, e: Engine, op: EngineOp): set<string> {
    if op.Tier? && IsTierOrder(cfg, e, op.now, op.order)
    then set i | 0 <= i < DoneCount(cfg.codec, e.hot, op.order) :: op.order[i] else {}
  }

  // The series tiered since their last point was added, with an unexpired warm file.
  ghost function TieredSince(cfg: Config, ops: seq<EngineOp>): set<string> {
    if ops == [] then {} else
      var front, op := ops[..|ops| - 1], ops[|ops| - 1];
      var e, ids := EngineRun(cfg, front), TieredSince(cfg, front);
      match op
      case Put(id, t, v, now) => ids - {id}
      case Tier(now, order) => ids + WrittenBy(cfg, e, op)
      case Sweep(now) => ids - ExpiredIds(e.warm, now, cfg.warmRetention)
  }

  // ---- What tiering does to the files ------------------------------------------------

  lemma WrittenKeeps(c: Codec, warm: Warm, id: string, points: seq<DataPoint>, now: int, other: string)
    requires points != []
    ensures FileBlocks(warm, other) <= FileBlocks(Written(c, warm, id, points, now), other)
    ensures c.enc(BlockOf(id, points)).Some? ==> BlockOf(id, points) in FileBlocks(Written(c, warm, id, points, now), id)
  {
  }

  lemma {:induction false} TieringKeeps(c: Codec, hot: Hot, warm: Warm, order: seq<string>, now: int, id: string)
    requires Writable(hot, order)
    ensures FileBlocks(warm, id) <= FileBlocks(TieredWarm(c, hot, warm, order, now), id)
    decreases |order|
  {
    if order != [] {
      var points := hot.series[order[0]].points;
      WrittenKeeps(c, warm, order[0], points, now, id);
      if Encodes(c, hot, order[0]) {
        TieringKeeps(c, hot, Written(c, warm, order[0], points, now), order[1..], now, id);
      }
    }
  }

  // Every series counted as done has its points in its file, written at `now`.
  lemma {:induction false} TieringWrites(c: Codec, hot: Hot, warm: Warm, order: seq<string>, now: int, i: nat)
    requires Writable(hot, order) && i < DoneCount(c, hot, order)
    requires forall i, j :: 0 <= i < j < |order| ==> order[i] != order[j]
    ensures var after := TieredWarm(c, hot, warm, order, now);
      && order[i] in after && after[order[i]].lastModified == now
      && BlockOf(order[i], hot.series[order[i]].points) in FileBlocks(after, order[i])
    decreases |order|
  {
    var points := hot.series[order[0]].points;
    var next := Written(c, warm, order[0], points, now);
    WrittenKeeps(c, warm, order[0], points, now, order[0]);
    if i > 0 {
      TieringWrites(c, hot, next, order[1..], now, i - 1);
    } else {
      TieringKeeps(c, hot, next, order[1..], now, order[0]);
      TieringSpares(c, hot, next, order[1..], now, order[0]);
    }
  }

  lemma {:induction false} TieringSpares(c: Codec, hot: Hot, warm: Warm, order: seq<string>, now: int, id: string)
    requires Writable(hot, order) && id in warm && id !in order
    ensures id in TieredWarm(c, hot, warm, order, now) && TieredWarm(c, hot, warm, order, now)[id] == warm[id]
    decreases |order|
  {
    if order != [] && Encodes(c, hot, order[0]) {
      TieringSpares(c, hot, Written(c, warm, order[0], hot.series[order[0]].points, now), order[1..], now, id);
    }
  }

  lemma OrderWritable(hot: Hot, now: int, retention: int, order: seq<string>)
    requires Lists(order, Eligible(hot, now, retention))
    ensures Writable(hot, order)
  {
  }

  // ---- The invariant of all runs -------------------------------------------------------

  ghost predicate AllTiered(e: Engine, ids: set<string>) {
    forall id :: id in ids ==> IsTiered(e, id)
  }

  lemma TierKeepsTiered(cfg: Config, e: Engine, ids: set<string>, now: int, order: seq<string>)
    requires AllTiered(e, ids) && IsTierOrder(cfg, e, now, order)
    ensures AllTiered(TierStep(cfg, e, now, order), ids + WrittenBy(cfg, e, Tier(now, order)))
  {
    OrderWritable(e.hot, now, cfg.hotRetention, order);
    var after := TierStep(cfg, e, now, order);
    forall id | id in ids + WrittenBy(cfg, e, Tier(now, order)) ensures IsTiered(after, id) {
      if id in ids {
        TieringKeeps(cfg.codec, e.hot, e.warm, order, now, id);
        assert IsTiered(e, id);
      } else {
        var i :| 0 <= i < DoneCount(cfg.codec, e.hot, order) && order[i] == id;
        TieringWrites(cfg.codec, e.hot, e.warm, order, now, i);
      }
    }
  }

  lemma StepKeepsTiered(cfg: Config, e: Engine, ids: set<string>, op: EngineOp)
    requires AllTiered(e, ids)
    ensures op.Put? ==> AllTiered(EngineStep(cfg, e, op), ids - {op.id})
    ensures op.Tier? ==> AllTiered(EngineStep(cfg, e, op), ids + WrittenBy(cfg, e, op))
    ensures op.Sweep? ==> AllTiered(EngineStep(cfg, e, op), ids - ExpiredIds(e.warm, op.now, cfg.warmRetention))
  {
    match op
    case Put(id, t, v, now) =>
      forall other | other in ids - {id} ensures IsTiered(EngineStep(cfg, e, op), other) {
        assert IsTiered(e, other);
      }
    case Tier(now, order) =>
      if IsTierOrder(cfg, e, now, order) {
        TierKeepsTiered(cfg, e, ids, now, order);
      }
    case Sweep(now) =>
      forall id | id in ids - ExpiredIds(e.warm, now, cfg.warmRetention) ensures IsTiered(SweepStep(cfg, e, now), id) {
        assert IsTiered(e, id);
      }
  }

  lemma {:induction false} RunInvariant(cfg: Config, ops: seq<EngineOp>)
    ensures AllTiered(EngineRun(cfg, ops), TieredSince(cfg, ops))
    ensures WithinLimits(cfg.lim, EngineRun(cfg, ops).hot)
  {
    if ops != [] {
      var front, op := ops[..|ops| - 1], ops[|ops| - 1];
      var e := EngineRun(cfg, front);
      RunInvariant(cfg, front);
      StepKeepsTiered(cfg, e, TieredSince(cfg, front), op);
      match op
      case Put(id, t, v, now) => StepWithinLimits(cfg.lim, e.hot, Add(id, t, v, now));
      case Tier(now, order) =>
      case Sweep(now) => StepWithinLimits(cfg.lim, e.hot, Cleanup(now, cfg.hotRetention));
    }
  }

  // After any run: a series tiered since its last AddPoint can be removed from
  // the hot layer without changing any answer to a query that starts no later
  // than the series does.
  lemma TieredSeriesDropsUnnoticed(cfg: Config, ops: seq<EngineOp>, id: string, start: int, end: int, r: seq<DataPoint>)
    requires id in TieredSince(cfg, ops) && id in EngineRun(cfg, ops).hot.series
    requires forall p :: p in EngineRun(cfg, ops).hot.series[id].points ==> start <= p.ts
    ensures Answers(EngineRun(cfg, ops), id, start, end, r)
      <==> Answers(Dropped(EngineRun(cfg, ops), id), id, start, end, r)
  {
    RunInvariant(cfg, ops);
    DropInvisible(EngineRun(cfg, ops), id, start, end, r);
  }

  // ---- Tiering again -----------------------------------------------------------------

  // A file gains the series' block exactly if the tiering gets to the series.
  lemma {:induction false} TieringAppends(c: Codec, hot: Hot, warm: Warm, order: seq<string>, now: int, id: string)
    requires Writable(hot, order) && forall i, j :: 0 <= i < j < |order| ==> order[i] != order[j]
    ensures var after := FileBlocks(TieredWarm(c, hot, warm, order, now), id);
      if id in order[..DoneCount(c, hot, order)]
      then id in hot.series && hot.series[id].points != [] && after == FileBlocks(warm, id) + [BlockOf(id, hot.series[id].points)]
      else after == FileBlocks(warm, id)
    decreases |order|
  {
    if order != [] && Encodes(c, hot, order[0]) {
      var next := Written(c, warm, order[0], hot.series[order[0]].points, now);
      var n := DoneCount(c, hot, order[1..]);
      TieringAppends(c, hot, next, order[1..], now, id);
      assert order[..n + 1] == [order[0]] + order[1..][..n];
      if order[0] == id {
        assert id !in order[1..][..n];
      }
    }
  }

  lemma {:induction false} AllDoneIff(c: Codec, hot: Hot, order: seq<string>)
    requires Writable(hot, order)
    ensures DoneCount(c, hot, order) == |order| <==> forall id :: id in order ==>
      var points := hot.series[id].points;
      c.enc(Block(id, points[0].ts, points[|points| - 1].ts, |points|, points)).Some?
  {
    if order != [] {
      AllDoneIff(c, hot, order[1..]);
      assert order == [order[0]] + order[1..];
    }
  }

  // A tiering that writes all of them leaves each in its file, as the last block.
  lemma AllTieredComplete(c: Codec, hot: Hot, warm: Warm, order: seq<string>, now: int)
    requires Writable(hot, order) && forall i, j :: 0 <= i < j < |order| ==> order[i] != order[j]
    requires DoneCount(c, hot, order) == |order|
    ensures forall id :: id in order ==>
      var points, after := hot.series[id].points, TieredWarm(c, hot, warm, order, now);
      id in after && after[id].lastModified == now
      && after[id].blocks == FileBlocks(warm, id) + [Block(id, points[0].ts, points[|points| - 1].ts, |points|, points)]
  {
    assert order[..|order|] == order;
    forall id | id in order
      ensures var points, after := hot.series[id].points, TieredWarm(c, hot, warm, order, now);
        id in after && after[id].lastModified == now
        && after[id].blocks == FileBlocks(warm, id) + [Block(id, points[0].ts, points[|points| - 1].ts, |points|, points)]
    {
      var i :| 0 <= i < |order| && order[i] == id;
      TieringWrites(c, hot, warm, order, now, i);
      TieringAppends(c, hot, warm, order, now, id);
    }
  }

  // After any run a tiering is invisible to every query of a series that it does
  // not write, or that was tiered since its last point was added.
  lemma RetieringInvisible(
      cfg: Config, ops: seq<EngineOp>, now: int, order: seq<string>, id: string, start: int, end: int, r: seq<DataPoint>)
    requires IsTierOrder(cfg, EngineRun(cfg, ops), now, order) && Writable(EngineRun(cfg, ops).hot, order)
    requires id in WrittenBy(cfg, EngineRun(cfg, ops), Tier(now, order)) ==> id in TieredSince(cfg, ops)
    ensures Answers(EngineRun(cfg, ops), id, start, end, r)
      <==> Answers(TierStep(cfg, EngineRun(cfg, ops), now, order), id, start, end, r)
  {
    var e := EngineRun(cfg, ops);
    var n := DoneCount(cfg.codec, e.hot, order);
    TieringAppends(cfg.codec, e.hot, e.warm, order, now, id);
    if id in order[..n] {
      var i :| 0 <= i < n && order[i] == id;
      RunInvariant(cfg, ops);
      assert IsTiered(e, id);
      var points := e.hot.series[id].points;
      RetierInvisible(InRange(points, start, end), FileBlocks(e.warm, id), BlockOf(id, points), start, end, r);
    }
  }
}
