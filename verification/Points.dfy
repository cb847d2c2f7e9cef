/**
 Data points and the two readings of a list of points: a map from timestamp
 to value in which a later entry wins, and its only increasing listing.
 Timestamps are integer nanoseconds.
 */
module Points {

  datatype DataPoint = DataPoint(ts: int, value: real)

  function Values(data: seq<DataPoint>): (y: seq<real>)
  {
    seq(|data|, i requires 0 <= i < |data| => data[i].value)
  }

  ghost predicate Increasing(s: seq<DataPoint>) {
    forall i, j :: 0 <= i < j < |s| ==> s[i].ts < s[j].ts
  }

  // The last occurrence of a timestamp wins.
  ghost function AsMap(s: seq<DataPoint>): map<int, real> {
    if s == [] then map[] else AsMap(s[..|s| - 1])[s[|s| - 1].ts := s[|s| - 1].value]
  }

  lemma {:induction false} AsMapKeys(s: seq<DataPoint>, t: int)
    ensures t in AsMap(s) <==> exists i :: 0 <= i < |s| && s[i].ts == t
  {
    if s != [] {
      var n := |s| - 1;
      AsMapKeys(s[..n], t);
      if t in AsMap(s[..n]) {
        var i :| 0 <= i < n && s[..n][i].ts == t;
        assert s[i].ts == t;
      } else if i :| 0 <= i < |s| && s[i].ts == t {
        assert i == n || s[..n][i].ts == t;
      }
    }
  }

  // The value of a timestamp is that of its last occurrence.
  lemma {:induction false} AsMapLast(s: seq<DataPoint>, i: nat)
    requires i < |s| && forall j :: i < j < |s| ==> s[j].ts != s[i].ts
    ensures s[i].ts in AsMap(s) && AsMap(s)[s[i].ts] == s[i].value
  {
    if i < |s| - 1 {
      AsMapLast(s[..|s| - 1], i);
    }
  }

  lemma {:induction false} AsMapAppend(a: seq<DataPoint>, b: seq<DataPoint>)
    ensures AsMap(a + b) == AsMap(a) + AsMap(b)
  {
    if b == [] {
      assert a + b == a;
    } else {
      var n := |b| - 1;
      AsMapAppend(a, b[..n]);
      assert (a + b)[..|a + b| - 1] == a + b[..n];
    }
  }

  lemma IncreasingAt(s: seq<DataPoint>, i: nat)
    requires Increasing(s) && i < |s|
    ensures s[i].ts in AsMap(s) && AsMap(s)[s[i].ts] == s[i].value
  {
    AsMapLast(s, i);
  }

  lemma {:induction false} IncreasingSize(s: seq<DataPoint>)
    requires Increasing(s)
    ensures |AsMap(s)| == |s|
  {
    if s != [] {
      var front, last := s[..|s| - 1], s[|s| - 1];
      IncreasingSize(front);
      AsMapKeys(front, last.ts);
      assert AsMap(s).Keys == AsMap(front).Keys + {last.ts};
    }
  }

  // An increasing list is determined by its map.
  lemma {:induction false} Canonical(a: seq<DataPoint>, b: seq<DataPoint>)
    requires Increasing(a) && Increasing(b) && AsMap(a) == AsMap(b)
    ensures a == b
  {
    IncreasingSize(a);
    IncreasingSize(b);
    if a != [] {
      var n := |a| - 1;
      LastAgrees(a, b);
      LastAgrees(b, a);
      assert a[n].ts == b[n].ts;
      IncreasingAt(a, n);
      IncreasingAt(b, n);
      DropLast(a);
      DropLast(b);
      Canonical(a[..n], b[..n]);
      assert a == a[..n] + [a[n]] && b == b[..n] + [b[n]];
    }
  }

  lemma LastAgrees(a: seq<DataPoint>, b: seq<DataPoint>)
    requires Increasing(a) && Increasing(b) && AsMap(a) == AsMap(b) && |a| == |b| > 0
    ensures a[|a| - 1].ts <= b[|b| - 1].ts
  {
    IncreasingAt(a, |a| - 1);
    AsMapKeys(b, a[|a| - 1].ts);
  }

  lemma DropLast(s: seq<DataPoint>)
    requires Increasing(s) && s != []
    ensures AsMap(s[..|s| - 1]) == AsMap(s) - {s[|s| - 1].ts}
  {
    var front, last := s[..|s| - 1], s[|s| - 1];
    AsMapKeys(front, last.ts);
    UpdateUndone(AsMap(front), last.ts, last.value);
  }

  lemma UpdateUndone<K, V>(m: map<K, V>, k: K, v: V)
    requires k !in m
    ensures m[k := v] - {k} == m
  {
  }

  // ---- Insert or overwrite -----------------------------------------------------

  // The increasing list with the point at t set to v.
  ghost function Upsert(s: seq<DataPoint>, t: int, v: real): seq<DataPoint> {
    if s == [] then [DataPoint(t, v)] else
      var front, last := s[..|s| - 1], s[|s| - 1];
      if last.ts < t then s + [DataPoint(t, v)]
      else if last.ts == t then front + [DataPoint(t, v)]
      else Upsert(front, t, v) + [last]
  }

  ghost function Has(s: seq<DataPoint>, t: int): bool {
    exists i :: 0 <= i < |s| && s[i].ts == t
  }

  lemma {:induction false} UpsertBelow(s: seq<DataPoint>, t: int, v: real, bound: int)
    requires Increasing(s) && t < bound && forall i :: 0 <= i < |s| ==> s[i].ts < bound
    ensures forall i :: 0 <= i < |Upsert(s, t, v)| ==> Upsert(s, t, v)[i].ts < bound
  {
    if s != [] && s[|s| - 1].ts > t {
      UpsertBelow(s[..|s| - 1], t, v, bound);
    }
  }

  lemma AsMapSnoc(s: seq<DataPoint>, p: DataPoint)
    ensures AsMap(s + [p]) == AsMap(s)[p.ts := p.value]
  {
    assert (s + [p])[..|s|] == s;
  }

  lemma UpdatesCommute<K, V>(m: map<K, V>, a: K, x: V, b: K, y: V)
    requires a != b
    ensures m[a := x][b := y] == m[b := y][a := x]
  {
  }

  // Upsert acts as the map update m[t := v].
  lemma {:induction false} UpsertMap(s: seq<DataPoint>, t: int, v: real)
    requires Increasing(s)
    ensures AsMap(Upsert(s, t, v)) == AsMap(s)[t := v]
  {
    var p := DataPoint(t, v);
    if s == [] {
      assert s + [p] == [p];
      AsMapSnoc(s, p);
    } else {
      var front, last := s[..|s| - 1], s[|s| - 1];
      if last.ts == t {
        AsMapSnoc(front, p);
      } else if last.ts > t {
        UpsertMap(front, t, v);
        AsMapSnoc(Upsert(front, t, v), last);
        UpdatesCommute(AsMap(front), t, v, last.ts, last.value);
      } else {
        AsMapSnoc(s, p);
      }
    }
  }

  // Upsert keeps the list increasing.
  lemma {:induction false} UpsertIncreasing(s: seq<DataPoint>, t: int, v: real)
    requires Increasing(s)
    ensures Increasing(Upsert(s, t, v))
  {
    if s != [] && s[|s| - 1].ts > t {
      UpsertIncreasing(s[..|s| - 1], t, v);
      UpsertBelow(s[..|s| - 1], t, v, s[|s| - 1].ts);
    }
  }

  lemma {:induction false} UpsertSize(s: seq<DataPoint>, t: int, v: real)
    requires Increasing(s)
    ensures |Upsert(s, t, v)| == |s| + if Has(s, t) then 0 else 1
  {
    if s != [] {
      HasFront(s, t);
      if s[|s| - 1].ts == t {
        assert Has(s, t);
      } else {
        UpsertSize(s[..|s| - 1], t, v);
      }
    }
  }

  lemma HasFront(s: seq<DataPoint>, t: int)
    requires s != []
    ensures Has(s, t) <==> Has(s[..|s| - 1], t) || s[|s| - 1].ts == t
  {
    var n := |s| - 1;
    if i :| 0 <= i < n && s[..n][i].ts == t {
      assert s[i].ts == t;
    }
    if i :| 0 <= i < |s| && s[i].ts == t {
      assert i == n || s[..n][i].ts == t;
    }
  }

  // ---- Ranges --------------------------------------------------------------------

  function InRange(s: seq<DataPoint>, start: int, end: int): seq<DataPoint> {
    if s == [] then [] else
      var front, last := s[..|s| - 1], s[|s| - 1];
      if start <= last.ts <= end then InRange(front, start, end) + [last] else InRange(front, start, end)
  }

  lemma {:induction false} InRangeMembers(s: seq<DataPoint>, start: int, end: int, p: DataPoint)
    ensures p in InRange(s, start, end) <==> p in s && start <= p.ts <= end
  {
    if s != [] {
      InRangeMembers(s[..|s| - 1], start, end, p);
      assert s == s[..|s| - 1] + [s[|s| - 1]];
    }
  }

  lemma Slices<T>(s: seq<T>, lo: nat, hi: nat)
    requires lo <= |s| && hi <= |s| && s != []
    ensures var n := |s| - 1;
            && (lo <= n < hi ==> s[lo..hi] == s[..n][lo..n] + [s[n]])
            && (lo < hi <= n ==> s[lo..hi] == s[..n][lo..hi])
  {
  }

  // On an increasing list the range is one slice.
  lemma {:induction false} InRangeSlice(s: seq<DataPoint>, start: int, end: int, lo: nat, hi: nat)
    requires lo <= |s| && hi <= |s|
    requires forall i :: 0 <= i < |s| ==> (i >= lo <==> s[i].ts >= start) && (i >= hi <==> s[i].ts > end)
    ensures InRange(s, start, end) == if lo < hi then s[lo..hi] else []
  {
    if s != [] {
      var n := |s| - 1;
      InRangeSlice(s[..n], start, end, if lo > n then n else lo, if hi > n then n else hi);
      Slices(s, lo, hi);
      assert start <= s[n].ts <= end <==> lo <= n < hi;
    }
  }

  lemma {:induction false} InRangeIncreasing(s: seq<DataPoint>, start: int, end: int)
    requires Increasing(s)
    ensures Increasing(InRange(s, start, end))
  {
    if s != [] {
      var front, last := s[..|s| - 1], s[|s| - 1];
      InRangeIncreasing(front, start, end);
      forall i | 0 <= i < |InRange(front, start, end)| ensures InRange(front, start, end)[i].ts < last.ts {
        InRangeMembers(front, start, end, InRange(front, start, end)[i]);
      }
    }
  }
}
