/**
 The storage engine as an object over both stores.  Its operations are proved
 equal to the value-level steps of EngineRuns.
 */
module Engine {
  import opened Maps
  import Merge
  import opened Points
  import opened HotState
  import HotStorage
  import WarmStore
  import opened WarmLog
  import opened WarmState
  import opened EngineState
  import opened EngineRuns

  class StorageEngine {
    const hot: HotStorage.Storage
    const warm: WarmStore.Store?  // null when the warm layer is disabled
    const hotRetention: int

    ghost predicate Valid()
      reads this, hot, hot.series.Values, warm, if warm == null then {} else warm.files.Values
    {
      hot.Valid() && (warm != null ==> warm.Valid())
    }

    ghost function State(): EngineState.Engine
      reads this, hot, hot.series.Values, warm, if warm == null then {} else warm.files.Values
    {
      EngineState.Engine(hot.State(), if warm == null then map[] else warm.State())
    }

    constructor (hot: HotStorage.Storage, warm: WarmStore.Store?, hotRetention: int)
      ensures this.hot == hot && this.warm == warm && this.hotRetention == hotRetention
    {
      this.hot, this.warm, this.hotRetention := hot, warm, hotRetention;
    }

    method AddPoint(seriesID: string, timestamp: int, value: real, now: int) returns (ok: bool)
      requires Valid()
      modifies hot, hot.series.Values
      ensures Valid()
      ensures ok <==> Accepts(hot.Limits(), old(hot.State()), seriesID)
      ensures ok <==> seriesID in old(hot.series) || |old(hot.series)| < hot.maxSeries
      ensures ok ==> seriesID in hot.series && DataPoint(timestamp, value) in hot.series[seriesID].points
      ensures State() == old(State()).(hot := Added(hot.Limits(), old(hot.State()), seriesID, timestamp, value, now))
    {
      ok := hot.AddPoint(seriesID, timestamp, value, now);
      WarmStays();
    }

    // Only the hot store was written to.
    twostate lemma WarmStays()
      requires old(Valid())
      requires warm != null ==> unchanged(warm) && unchanged(warm.files.Values)
      ensures warm != null ==> warm.Valid() && warm.State() == old(warm.State())
    {
      if warm != null {
        forall k | k in warm.files
          ensures WarmStore.StatesOf(warm.files)[k] == old(WarmStore.StatesOf(warm.files))[k]
        {
          assert unchanged(warm.files[k]);
        }
        MapSame(WarmStore.StatesOf(warm.files), old(WarmStore.StatesOf(warm.files)));
      }
    }

    method GetRange(seriesID: string, start: int, end: int) returns (result: seq<DataPoint>)
      requires Valid()
      ensures Answers(State(), seriesID, start, end, result)
    {
      var hotPoints := HotRange(seriesID, start, end);
      var warmPoints := WarmRange(seriesID, start, end);
      result := hotPoints + warmPoints;
      if |result| > 1 {
        result := Merge.MergeSortedPoints(result);
      }
      MergedIsAnswer(hotPoints, warmPoints, result);
    }

    method HotRange(seriesID: string, start: int, end: int) returns (points: seq<DataPoint>)
      requires Valid()
      ensures points == InRange(HotPoints(State(), seriesID), start, end)
    {
      points := [];
      if seriesID in hot.series {
        points := hot.series[seriesID].GetRange(start, end);
      }
    }

    method WarmRange(seriesID: string, start: int, end: int) returns (points: seq<DataPoint>)
      requires Valid()
      ensures multiset(points) == RangeOf(FileBlocks(State().warm, seriesID), start, end)
    {
      points := [];
      if warm != null {
        var read := warm.ReadSeriesRange(seriesID, start, end);
        points := read.value;
      }
    }

    // Writes every series due to its warm file, in some order, until one write fails.
    method PerformTiering(now: int) returns (ok: bool, ghost order: seq<string>)
      requires Valid()
      modifies warm, if warm == null then {} else warm.files.Values
      ensures Valid()
      ensures warm == null ==> !ok && State() == old(State())
      ensures warm != null ==>
        && Lists(order, Eligible(old(hot.State()), now, hotRetention))
        && Writable(old(hot.State()), order)
        && State() == old(State()).(warm := TieredWarm(warm.codec, old(hot.State()), old(warm.State()), order, now))
        && (ok <==> DoneCount(warm.codec, old(hot.State()), order) == |order|)
      ensures warm != null ==> forall id :: id in order <==>
        id in hot.series && hot.series[id].lastSeen < now - hotRetention && hot.series[id].points != []
      ensures ok <==> warm != null && forall id :: id in order ==>
        var points := old(hot.State()).series[id].points;
        warm.codec.enc(Block(id, points[0].ts, points[|points| - 1].ts, |points|, points)).Some?
    {
      if warm == null {
        return false, [];
      }
      var seriesToTier := SeriesDue(now);
      order := seriesToTier;
      OrderWritable(hot.State(), now, hotRetention, order);
      AllDoneIff(warm.codec, hot.State(), order);
      ok := WriteAll(seriesToTier, now);
    }

    // The series due, found by ranging over the map in some order.
    method SeriesDue(now: int) returns (due: seq<string>)
      requires Valid()
      ensures Lists(due, Eligible(hot.State(), now, hotRetention))
      ensures forall i, j :: 0 <= i < j < |due| ==> due[i] != due[j]
      ensures forall id :: id in due <==>
        id in hot.series && hot.series[id].lastSeen < now - hotRetention && hot.series[id].points != []
    {
      due := [];
      var rest := hot.series;
      ghost var seen: set<string> := {};
      while |rest| > 0
        invariant rest.Keys <= hot.series.Keys && seen == hot.series.Keys - rest.Keys
        invariant forall id :: id in rest ==> rest[id] == hot.series[id]
        invariant Lists(due, Eligible(hot.State(), now, hotRetention) * seen)
        decreases rest.Keys
      {
        var id := AnyKey(rest);
        KeysWithout(rest, id);
        DueStep(due, Eligible(hot.State(), now, hotRetention), seen, id);
        var size := rest[id].Size();
        if rest[id].lastSeen < now - hotRetention && size > 0 {
          due := due + [id];
        }
        seen := seen + {id};
        rest := rest - {id};
      }
      assert Eligible(hot.State(), now, hotRetention) * seen == Eligible(hot.State(), now, hotRetention);
    }

    method WriteAll(order: seq<string>, now: int) returns (ok: bool)
      requires Valid() && warm != null
      requires Writable(hot.State(), order)
      modifies warm, warm.files.Values
      ensures Valid()
      ensures State() == old(State()).(warm := TieredWarm(warm.codec, hot.State(), old(warm.State()), order, now))
      ensures ok <==> DoneCount(warm.codec, hot.State(), order) == |order|
    {
      ghost var h, w := hot.State(), warm.State();
      ghost var files := warm.files;
      for i := 0 to |order|
        invariant Valid() && hot.State() == h
        invariant forall id :: id in warm.files ==> fresh(warm.files[id]) || (id in files && warm.files[id] == files[id])
        invariant TieredWarm(warm.codec, h, w, order, now) == TieredWarm(warm.codec, h, warm.State(), order[i..], now)
        invariant DoneCount(warm.codec, h, order) == i + DoneCount(warm.codec, h, order[i..])
      {
        TierNext(warm.codec, h, warm.State(), order, now, i);
        ok := WriteOne(order[i], now);
        if !ok {
          return false;
        }
      }
      ok := true;
    }

    // All points of the series go to its warm file.
    method WriteOne(id: string, now: int) returns (ok: bool)
      requires Valid() && warm != null
      requires id in hot.series && hot.series[id].points != []
      modifies warm, warm.files.Values
      ensures Valid() && hot.State() == old(hot.State())
      ensures forall k :: k in warm.files ==>
        fresh(warm.files[k]) || (k in old(warm.files) && warm.files[k] == old(warm.files)[k])
      ensures warm.State() == Written(warm.codec, old(warm.State()), id, old(hot.series[id].points), now)
      ensures ok <==> warm.codec.enc(BlockOf(id, old(hot.series[id].points))).Some?
    {
      var points := AllPoints(id);
      ok := warm.WriteSeriesData(id, points, now);
      HotStays();
    }

    method AllPoints(id: string) returns (points: seq<DataPoint>)
      requires Valid() && id in hot.series
      ensures points == hot.series[id].points
    {
      var size := hot.series[id].Size();
      points := hot.series[id].GetLatest(size);
    }

    // Only the warm store was written to.
    twostate lemma HotStays()
      requires old(Valid())
      requires unchanged(hot) && unchanged(hot.series.Values)
      ensures hot.Valid() && hot.State() == old(hot.State())
    {
      forall k | k in hot.series
        ensures HotStorage.StatesOf(hot.series)[k] == old(HotStorage.StatesOf(hot.series))[k]
      {
        assert unchanged(hot.series[k]);
      }
      MapSame(HotStorage.StatesOf(hot.series), old(HotStorage.StatesOf(hot.series)));
    }

    method PerformCleanup(now: int) returns (hotCleaned: nat, warmCleaned: nat)
      requires Valid()
      modifies hot, warm
      ensures Valid()
      ensures State().hot == Cleaned(old(hot.State()), now, hotRetention)
      ensures warm != null ==>
        State().warm == old(warm.State()) - ExpiredIds(old(warm.State()), now, warm.retentionPeriod)
      ensures hotCleaned == |StaleIds(old(hot.State()), now, hotRetention)|
      ensures warmCleaned == if warm == null then 0 else |ExpiredIds(old(warm.State()), now, warm.retentionPeriod)|
      ensures forall id :: id in hot.series <==>
        id in old(hot.series) && now - old(hot.series[id].lastSeen) <= hotRetention
      ensures warm != null ==> forall id :: id in warm.files <==>
        id in old(warm.files) && now - old(warm.files[id].lastModified) <= warm.retentionPeriod
    {
      hotCleaned := hot.CleanupStale(hotRetention, now);
      WarmStays();
      warmCleaned := CleanWarm(now);
    }

    method CleanWarm(now: int) returns (count: nat)
      requires Valid()
      modifies warm
      ensures Valid() && hot.State() == old(hot.State())
      ensures warm != null ==>
        State().warm == old(warm.State()) - ExpiredIds(old(warm.State()), now, warm.retentionPeriod)
      ensures count == if warm == null then 0 else |ExpiredIds(old(warm.State()), now, warm.retentionPeriod)|
      ensures warm != null ==> forall id :: id in warm.files <==>
        id in old(warm.files) && now - old(warm.files[id].lastModified) <= warm.retentionPeriod
    {
      count := 0;
      if warm != null {
        count := warm.CleanupExpired(now);
      }
      HotStays();
    }
  }

  lemma TierNext(c: Codec, h: Hot, w: Warm, order: seq<string>, now: int, i: nat)
    requires Writable(h, order) && i < |order|
    ensures order[i] in h.series && h.series[order[i]].points != []
    ensures var next := Written(c, w, order[i], h.series[order[i]].points, now);
      TieredWarm(c, h, w, order[i..], now)
      == if Encodes(c, h, order[i]) then TieredWarm(c, h, next, order[i + 1..], now) else next
    ensures DoneCount(c, h, order[i..]) == if Encodes(c, h, order[i]) then 1 + DoneCount(c, h, order[i + 1..]) else 0
  {
    assert order[i..][1..] == order[i + 1..];
  }

  lemma DueStep(due: seq<string>, ids: set<string>, seen: set<string>, id: string)
    requires Lists(due, ids * seen) && id !in seen
    ensures id in ids ==> Lists(due + [id], ids * (seen + {id}))
    ensures id !in ids ==> Lists(due, ids * (seen + {id}))
  {
    if id in ids {
      assert ids * (seen + {id}) == ids * seen + {id};
    } else {
      assert ids * (seen + {id}) == ids * seen;
    }
  }
}
