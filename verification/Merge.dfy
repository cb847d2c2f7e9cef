/**
 Merging points of several layers: duplicates are resolved through a map, the
 map is listed in whatever order, and the listing is sorted by exchanges.
 */
module Merge {
  import opened Maps
  import opened Points
  import opened Sorting

  // One point per timestamp of m, with its value.
  ghost predicate Lists(s: seq<DataPoint>, m: map<int, real>) {
    && (forall i, j :: 0 <= i < j < |s| ==> s[i].ts != s[j].ts)
    && (forall i :: 0 <= i < |s| ==> s[i].ts in m && m[s[i].ts] == s[i].value)
    && |s| == |m|
  }

  ghost predicate Settled(s: seq<DataPoint>, i: nat) {
    forall a, b :: 0 <= a < i && a < b < |s| ==> s[a].ts <= s[b].ts
  }

  lemma SwapLists(s: seq<DataPoint>, m: map<int, real>, i: nat, j: nat)
    requires i < j < |s| && Lists(s, m)
    ensures Lists(Swap(s, i, j), m) && (Settled(s, i) ==> Settled(Swap(s, i, j), i))
  {
    var t := Swap(s, i, j);
    assert forall k :: 0 <= k < |t| ==> t[k] == if k == i then s[j] else if k == j then s[i] else s[k];
  }

  lemma {:induction false} ListedMap(s: seq<DataPoint>, m: map<int, real>)
    requires Lists(s, m) && Increasing(s)
    ensures AsMap(s) == m
  {
    IncreasingSize(s);
    forall t | t in AsMap(s) ensures t in m && m[t] == AsMap(s)[t] {
      AsMapKeys(s, t);
      var i :| 0 <= i < |s| && s[i].ts == t;
      IncreasingAt(s, i);
    }
    SubsetSize(AsMap(s).Keys, m.Keys);
  }

  // The exchange sort at the end of mergeSortedPoints.
  method SortPoints(points: seq<DataPoint>, ghost m: map<int, real>) returns (result: seq<DataPoint>)
    requires Lists(points, m)
    ensures Lists(result, m) && Increasing(result)
  {
    result := points;
    var n := |result|;
    var i := 0;
    while i < n - 1
      invariant |result| == n && 0 <= i && (n > 0 ==> i <= n - 1)
      invariant Lists(result, m) && Settled(result, i)
    {
      var j := i + 1;
      while j < n
        invariant i + 1 <= j <= n && |result| == n
        invariant Lists(result, m) && Settled(result, i)
        invariant forall b :: i < b < j ==> result[i].ts <= result[b].ts
      {
        if result[i].ts > result[j].ts {
          SwapLists(result, m, i, j);
          result := Swap(result, i, j);
        }
        j := j + 1;
      }
      i := i + 1;
    }
  }

  // Increasing timestamps, exactly those of the input, the last occurrence
  // winning; by Points.Canonical this leaves one result for every order in
  // which the map is listed.
  method MergeSortedPoints(points: seq<DataPoint>) returns (result: seq<DataPoint>)
    ensures Increasing(result) && AsMap(result) == AsMap(points)
  {
    if |points| <= 1 {
      return points;
    }
    var pointMap: map<int, DataPoint> := map[];
    for i := 0 to |points|
      invariant Mirrors(pointMap, AsMap(points[..i]))
    {
      AsMapSnoc(points[..i], points[i]);
      assert points[..i + 1] == points[..i] + [points[i]];
      pointMap := pointMap[points[i].ts := points[i]];
    }
    assert points[..|points|] == points;
    var listed := ListMap(pointMap, AsMap(points));
    result := SortPoints(listed, AsMap(points));
    ListedMap(result, AsMap(points));
  }

  ghost predicate Mirrors(pm: map<int, DataPoint>, m: map<int, real>) {
    pm.Keys == m.Keys && forall t :: t in pm ==> pm[t] == DataPoint(t, m[t])
  }

  // Ranging over the map yields its points in an arbitrary order.
  method ListMap(pm: map<int, DataPoint>, ghost m: map<int, real>) returns (listed: seq<DataPoint>)
    requires Mirrors(pm, m)
    ensures Lists(listed, m)
  {
    listed := [];
    var rest := pm;
    RemoveAllKeys(m, rest.Keys);
    while |rest| > 0
      invariant rest.Keys <= m.Keys && Lists(listed, m - rest.Keys)
      invariant forall t :: t in rest ==> rest[t] == DataPoint(t, m[t])
      decreases rest.Keys
    {
      var t := AnyKey(rest);
      KeysWithout(rest, t);
      ListsMore(listed, m, rest.Keys, t);
      listed := listed + [rest[t]];
      rest := rest - {t};
    }
    RemoveNoKeys(m, rest);
  }

  lemma ListsMore(s: seq<DataPoint>, m: map<int, real>, todo: set<int>, t: int)
    requires t in todo && todo <= m.Keys && Lists(s, m - todo)
    ensures Lists(s + [DataPoint(t, m[t])], m - (todo - {t}))
  {
    var before, after := m - todo, m - (todo - {t});
    assert after == before[t := m[t]];
    assert forall i :: 0 <= i < |s| ==> s[i].ts in before && s[i].ts != t;
    assert after.Keys == before.Keys + {t};
  }
}
