/**
 The hot store as values: what one AddPoint and one CleanupStale do to the
 live series and to the point counter.
 */
module HotState {
  import opened Points

  datatype SeriesState = SeriesState(points: seq<DataPoint>, lastSeen: int)
  datatype Limits = Limits(maxSeries: int, maxPoints: int)
  datatype Hot = Hot(series: map<string, SeriesState>, totalPoints: int)

  const EMPTY: Hot := Hot(map[], 0)

  // The oldest point gives way once the series is at capacity, before the insertion.
  ghost function Evicted(points: seq<DataPoint>, cap: int): seq<DataPoint> {
    if |points| >= cap && |points| > 0 then points[1..] else points
  }

  ghost function AddCapped(s: SeriesState, cap: int, t: int, v: real, now: int): SeriesState {
    var kept := Evicted(s.points, cap);
    SeriesState(Upsert(kept, t, v), if Has(kept, t) then s.lastSeen else now)
  }

  // A new series is refused at the series limit.
  ghost predicate Accepts(lim: Limits, hot: Hot, id: string) {
    id in hot.series || |hot.series| < lim.maxSeries
  }

  ghost function Current(hot: Hot, id: string, now: int): SeriesState {
    if id in hot.series then hot.series[id] else SeriesState([], now)
  }

  ghost function Added(lim: Limits, hot: Hot, id: string, t: int, v: real, now: int): Hot {
    if !Accepts(lim, hot, id) then hot else
      var s := Current(hot, id, now);
      Hot(hot.series[id := AddCapped(s, lim.maxPoints, t, v, now)],
          if |s.points| >= lim.maxPoints then hot.totalPoints else hot.totalPoints + 1)
  }

  ghost predicate Stale(s: SeriesState, now: int, maxAge: int) {
    now - s.lastSeen > maxAge
  }

  ghost function StaleIds(hot: Hot, now: int, maxAge: int): set<string> {
    set id | id in hot.series && Stale(hot.series[id], now, maxAge)
  }

  // Removing a series takes its current size off the counter.
  ghost function Cleaned(hot: Hot, now: int, maxAge: int): Hot {
    var stale := StaleIds(hot, now, maxAge);
    Hot(hot.series - stale, hot.totalPoints - SizeOf(hot.series, stale))
  }

  // ---- Sizes -------------------------------------------------------------------

  ghost function SizeOf(series: map<string, SeriesState>, ids: set<string>): nat
    requires ids <= series.Keys
  {
    if ids == {} then 0 else
      var id :| id in ids;
      |series[id].points| + SizeOf(series, ids - {id})
  }

  lemma {:induction false} SizeOfSplit(series: map<string, SeriesState>, ids: set<string>, id: string)
    requires ids <= series.Keys && id in ids
    ensures SizeOf(series, ids) == |series[id].points| + SizeOf(series, ids - {id})
    decreases ids
  {
    var k :| k in ids && SizeOf(series, ids) == |series[k].points| + SizeOf(series, ids - {k});
    if k != id {
      SizeOfSplit(series, ids - {k}, id);
      SizeOfSplit(series, ids - {id}, k);
      assert ids - {k} - {id} == ids - {id} - {k};
    }
  }

  lemma {:induction false} SizeOfSame(a: map<string, SeriesState>, b: map<string, SeriesState>, ids: set<string>)
    requires ids <= a.Keys && ids <= b.Keys
    requires forall id :: id in ids ==> a[id] == b[id]
    ensures SizeOf(a, ids) == SizeOf(b, ids)
    decreases ids
  {
    if ids != {} {
      var id :| id in ids;
      SizeOfSplit(a, ids, id);
      SizeOfSplit(b, ids, id);
      SizeOfSame(a, b, ids - {id});
    }
  }

  lemma {:induction false} SizeOfUnion(series: map<string, SeriesState>, a: set<string>, b: set<string>)
    requires a <= series.Keys && b <= series.Keys && a !! b
    ensures SizeOf(series, a + b) == SizeOf(series, a) + SizeOf(series, b)
    decreases a
  {
    if a == {} {
      assert a + b == b;
    } else {
      var id :| id in a;
      SizeOfSplit(series, a, id);
      SizeOfSplit(series, a + b, id);
      assert a + b - {id} == (a - {id}) + b;
      SizeOfUnion(series, a - {id}, b);
    }
  }

  // Points held by all live series.
  ghost function LivePoints(hot: Hot): nat {
    SizeOf(hot.series, hot.series.Keys)
  }
}
