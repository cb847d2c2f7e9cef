/**
 The hot store as an object over series objects.  Each operation is proved
 equal to the value-level operation of HotState.
 */
module HotStorage {
  import opened Points
  import opened TimeSeries
  import opened HotRuns
  import opened HotState
  import opened Maps

  ghost function StateOf(s: Series): SeriesState
    reads s
  {
    SeriesState(s.points, s.lastSeen)
  }

  ghost function StatesOf(series: map<string, Series>): map<string, SeriesState>
    reads series.Values
  {
    map id | id in series :: StateOf(series[id])
  }

  ghost function Created(hot: Hot, id: string, now: int): Hot {
    hot.(series := hot.series[id := Current(hot, id, now)])
  }

  ghost function AddedTo(lim: Limits, hot: Hot, id: string, t: int, v: real, now: int): Hot
    requires id in hot.series
  {
    var s := hot.series[id];
    Hot(hot.series[id := AddCapped(s, lim.maxPoints, t, v, now)],
        if |s.points| >= lim.maxPoints then hot.totalPoints else hot.totalPoints + 1)
  }

  lemma AddedInTwoSteps(lim: Limits, hot: Hot, mid: Hot, id: string, t: int, v: real, now: int)
    requires Accepts(lim, hot, id) && mid == Created(hot, id, now)
    ensures AddedTo(lim, mid, id, t, v, now) == Added(lim, hot, id, t, v, now)
  {
    MapSetTwice(hot.series, id, Current(hot, id, now), AddCapped(Current(hot, id, now), lim.maxPoints, t, v, now));
  }

  // Makes room at capacity, then adds; tells whether the point counter goes up.
  method AddToSeries(s: Series, cap: int, timestamp: int, value: real, now: int) returns (counted: bool)
    requires s.Valid()
    modifies s
    ensures s.Valid() && StateOf(s) == AddCapped(old(StateOf(s)), cap, timestamp, value, now)
    ensures counted <==> old(|s.points|) < cap
  {
    var size := s.Size();
    counted := size < cap;
    if size >= cap {
      if |s.points| > 0 {
        s.points := s.points[1..];
      }
    }
    s.AddPoint(timestamp, value, now);
  }

  lemma CleanupStep(hot: Hot, now: int, maxAge: int, seen: set<string>, id: string)
    requires id in hot.series && id !in seen
    ensures var ids := StaleIds(hot, now, maxAge);
      (seen + {id}) * ids == if Stale(hot.series[id], now, maxAge) then seen * ids + {id} else seen * ids
    ensures var ids := StaleIds(hot, now, maxAge);
      SizeOf(hot.series, (seen + {id}) * ids) == SizeOf(hot.series, seen * ids)
        + if Stale(hot.series[id], now, maxAge) then |hot.series[id].points| else 0
  {
    var ids := StaleIds(hot, now, maxAge);
    if id in ids {
      SizeOfSplit(hot.series, seen * ids + {id}, id);
      assert seen * ids + {id} - {id} == seen * ids;
    }
  }

  class Storage {
    const maxSeries: int
    const maxPointsPerSeries: int
    var series: map<string, Series>
    var totalPoints: int

    ghost predicate Valid()
      reads this, series.Values
    {
      forall id :: id in series ==> series[id].Valid() && series[id].id == id
    }

    ghost function Limits(): Limits {
      HotState.Limits(maxSeries, maxPointsPerSeries)
    }

    // The stored state as a value.
    ghost function State(): Hot
      reads this, series.Values
    {
      Hot(StatesOf(series), totalPoints)
    }

    constructor (maxSeries: int, maxPointsPerSeries: int)
      ensures Valid() && State() == EMPTY && series == map[]
      ensures this.maxSeries == maxSeries && this.maxPointsPerSeries == maxPointsPerSeries
    {
      this.maxSeries, this.maxPointsPerSeries := maxSeries, maxPointsPerSeries;
      series, totalPoints := map[], 0;
    }

    method AddPoint(seriesID: string, timestamp: int, value: real, now: int) returns (ok: bool)
      requires Valid()
      modifies this, series.Values
      ensures Valid()
      ensures forall id :: id in series ==> fresh(series[id]) || (id in old(series) && series[id] == old(series)[id])
      ensures ok <==> Accepts(Limits(), old(State()), seriesID)
      ensures State() == Added(Limits(), old(State()), seriesID, timestamp, value, now)
      ensures ok <==> seriesID in old(series) || |old(series)| < maxSeries
      ensures ok ==> seriesID in series && DataPoint(timestamp, value) in series[seriesID].points
      ensures !ok ==> State() == old(State())
    {
      ghost var hot := State();
      assert hot.series.Keys == series.Keys && |hot.series.Keys| == |hot.series| && |series.Keys| == |series|;
      AddStores(Limits(), hot, seriesID, timestamp, value, now);
      ok := GetOrCreate(seriesID, now);
      if ok {
        ghost var mid := State();
        AddTo(seriesID, timestamp, value, now);
        AddedInTwoSteps(Limits(), hot, mid, seriesID, timestamp, value, now);
      }
    }

    // The series limit applies only to new series.
    method GetOrCreate(seriesID: string, now: int) returns (ok: bool)
      requires Valid()
      modifies this`series
      ensures Valid()
      ensures ok <==> seriesID in old(series) || |old(series)| < maxSeries
      ensures ok <==> Accepts(Limits(), old(State()), seriesID)
      ensures State() == if ok then Created(old(State()), seriesID, now) else old(State())
      ensures forall id :: id in series ==> fresh(series[id]) || (id in old(series) && series[id] == old(series)[id])
      ensures ok ==> seriesID in series
      ensures seriesID in old(series) || !ok ==> series == old(series)
      ensures ok && seriesID !in old(series) ==> series[seriesID].points == [] && series[seriesID].lastSeen == now
    {
      ghost var states := StatesOf(series);
      assert states.Keys == series.Keys;
      if seriesID in series {
        MapSetSame(states, seriesID);
        return true;
      }
      if |series| >= maxSeries {
        return false;
      }
      Create(seriesID, now);
      ok := true;
    }

    method Create(seriesID: string, now: int)
      requires Valid() && seriesID !in series
      modifies this`series
      ensures Valid()
      ensures seriesID in series && fresh(series[seriesID]) && series == old(series)[seriesID := series[seriesID]]
      ensures series[seriesID].points == [] && series[seriesID].lastSeen == now
      ensures State() == Created(old(State()), seriesID, now)
    {
      ghost var states := StatesOf(series);
      var s := new Series(seriesID, now);
      series := series[seriesID := s];
      assert forall id :: id in states ==> StateOf(series[id]) == states[id];
      MapSet(states, StatesOf(series), seriesID, SeriesState([], now));
    }

    method AddTo(seriesID: string, timestamp: int, value: real, now: int)
      requires Valid() && seriesID in series
      modifies this`totalPoints, series[seriesID]
      ensures Valid()
      ensures State() == AddedTo(Limits(), old(State()), seriesID, timestamp, value, now)
    {
      ghost var states := StatesOf(series);
      var counted := AddToSeries(series[seriesID], maxPointsPerSeries, timestamp, value, now);
      forall id | id in states && id != seriesID ensures StatesOf(series)[id] == states[id] {
        assert series[id] != series[seriesID];
      }
      MapSet(states, StatesOf(series), seriesID, StateOf(series[seriesID]));
      if counted {
        totalPoints := totalPoints + 1;
      }
    }

    method CleanupStale(maxAge: int, now: int) returns (count: nat)
      requires Valid()
      modifies this
      ensures Valid() && series.Values <= old(series.Values)
      ensures count == |StaleIds(old(State()), now, maxAge)|
      ensures State() == Cleaned(old(State()), now, maxAge)
      ensures forall id :: id in series <==> id in old(series) && now - old(series[id].lastSeen) <= maxAge
      ensures forall id :: id in series ==> series[id] == old(series[id])
    {
      ghost var hot := State();
      var staleIDs, points := FindStale(maxAge, now);
      totalPoints := totalPoints - points;
      series := series - staleIDs;
      MapDrop(hot.series, StatesOf(series), staleIDs);
      count := |staleIDs|;
    }

    // The first loop of CleanupStale: the stale series, in any order, and the points they hold.
    method FindStale(maxAge: int, now: int) returns (staleIDs: set<string>, points: nat)
      requires Valid()
      ensures staleIDs == StaleIds(State(), now, maxAge)
      ensures points == SizeOf(State().series, staleIDs)
    {
      ghost var hot := State();
      ghost var seen := {};
      staleIDs, points := {}, 0;
      var todo := series.Keys;
      while todo != {}
        invariant todo <= series.Keys && seen == series.Keys - todo
        invariant staleIDs == seen * StaleIds(hot, now, maxAge)
        invariant points == SizeOf(hot.series, staleIDs)
        decreases todo
      {
        var id :| id in todo;
        CleanupStep(hot, now, maxAge, seen, id);
        if now - series[id].lastSeen > maxAge {
          staleIDs := staleIDs + {id};
          var size := series[id].Size();
          points := points + size;
        }
        seen := seen + {id};
        todo := todo - {id};
      }
      assert staleIDs == StaleIds(hot, now, maxAge);
    }
  }
}
