/**
 One series held in memory: points sorted by timestamp, found by binary
 search, shifted and overwritten in place.
 */
module TimeSeries {
  import opened Points

  // Binary search for the first index at which f holds; f never goes back to false.
  method Search(s: seq<DataPoint>, f: DataPoint -> bool) returns (pos: nat)
    requires forall i, j :: 0 <= i <= j < |s| && f(s[i]) ==> f(s[j])
    ensures pos <= |s|
    ensures forall i :: 0 <= i < |s| ==> (f(s[i]) <==> i >= pos)
  {
    var i, j := 0, |s|;
    while i < j
      invariant 0 <= i <= j <= |s|
      invariant forall k :: 0 <= k < i ==> !f(s[k])
      invariant forall k :: j <= k < |s| ==> f(s[k])
    {
      var h := (i + j) / 2;
      if !f(s[h]) {
        i := h + 1;
      } else {
        j := h;
      }
    }
    pos := i;
  }

  lemma {:induction false} UpsertAtGap(s: seq<DataPoint>, t: int, v: real, pos: nat)
    requires pos <= |s|
    requires forall i :: 0 <= i < |s| ==> if i < pos then s[i].ts < t else s[i].ts > t
    ensures Upsert(s, t, v) == s[..pos] + [DataPoint(t, v)] + s[pos..]
  {
    if pos < |s| {
      var n := |s| - 1;
      UpsertAtGap(s[..n], t, v, pos);
      assert s[pos..] == s[..n][pos..] + [s[n]];
    }
  }

  lemma {:induction false} UpsertAtHit(s: seq<DataPoint>, t: int, v: real, k: nat)
    requires Increasing(s) && k < |s| && s[k].ts == t
    ensures Upsert(s, t, v) == s[k := DataPoint(t, v)]
  {
    var n := |s| - 1;
    if k < n {
      UpsertAtHit(s[..n], t, v, k);
      assert s[k := DataPoint(t, v)] == s[..n][k := DataPoint(t, v)] + [s[n]];
    }
  }

  class Series {
    const id: string
    var points: seq<DataPoint>
    var lastSeen: int

    ghost predicate Valid()
      reads this
    {
      Increasing(points)
    }

    constructor (id: string, now: int)
      ensures Valid() && this.id == id && points == [] && lastSeen == now
    {
      this.id, points, lastSeen := id, [], now;
    }

    // Overwriting an existing timestamp leaves lastSeen as it was.
    method AddPoint(timestamp: int, value: real, now: int)
      requires Valid()
      modifies this
      ensures Valid()
      ensures points == Upsert(old(points), timestamp, value)
      ensures lastSeen == if Has(old(points), timestamp) then old(lastSeen) else now
    {
      UpsertIncreasing(points, timestamp, value);
      var pos := Search(points, (p: DataPoint) => p.ts > timestamp);
      if pos > 0 && points[pos - 1].ts == timestamp {
        UpsertAtHit(points, timestamp, value, pos - 1);
        points := points[pos - 1 := DataPoint(timestamp, value)];
        return;
      }
      UpsertAtGap(points, timestamp, value, pos);
      // The tail moves up by one and the point takes the free place.
      points := points[..pos] + [DataPoint(timestamp, value)] + points[pos..];
      lastSeen := now;
    }

    // The linear filter start <= ts <= end, for all bounds.
    method GetRange(start: int, end: int) returns (result: seq<DataPoint>)
      requires Valid()
      ensures result == InRange(points, start, end)
    {
      var startIdx := Search(points, (p: DataPoint) => p.ts > start || p.ts == start);
      var endIdx := Search(points, (p: DataPoint) => p.ts > end);
      InRangeSlice(points, start, end, startIdx, endIdx);
      if startIdx >= |points| || startIdx >= endIdx {
        return [];
      }
      result := points[startIdx..endIdx];
    }

    method GetLatest(count: int) returns (result: seq<DataPoint>)
      ensures count <= 0 ==> result == []
      ensures count > 0 ==> |result| == if count < |points| then count else |points|
      ensures result == points[|points| - |result|..]
    {
      if count <= 0 || |points| == 0 {
        return [];
      }
      var start := |points| - count;
      if start < 0 {
        start := 0;
      }
      result := points[start..];
    }

    method Size() returns (n: nat)
      ensures n == |points|
    {
      n := |points|;
    }
  }
}
