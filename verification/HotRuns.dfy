/**
 What holds after any run of the hot store, in whatever timestamp order the
 points arrive: which points a capped series still holds, and what the point
 counter counts.
 */
module HotRuns {
  import opened Points
  import opened HotState

  // ---- One series ----------------------------------------------------------------

  ghost function UnboundedRun(writes: seq<DataPoint>): seq<DataPoint> {
    if writes == [] then [] else
      var w := writes[|writes| - 1];
      Upsert(UnboundedRun(writes[..|writes| - 1]), w.ts, w.value)
  }

  ghost function CappedRun(cap: int, writes: seq<DataPoint>): seq<DataPoint> {
    if writes == [] then [] else
      var w := writes[|writes| - 1];
      Upsert(Evicted(CappedRun(cap, writes[..|writes| - 1]), cap), w.ts, w.value)
  }

  // Without a cap the run is the increasing listing of the last-written values.
  lemma {:induction false} UnboundedRunIs(writes: seq<DataPoint>)
    ensures Increasing(UnboundedRun(writes)) && AsMap(UnboundedRun(writes)) == AsMap(writes)
  {
    if writes != [] {
      var w := writes[|writes| - 1];
      var before := UnboundedRun(writes[..|writes| - 1]);
      UnboundedRunIs(writes[..|writes| - 1]);
      UpsertIncreasing(before, w.ts, w.value);
      UpsertMap(before, w.ts, w.value);
    }
  }

  lemma {:induction false} UpsertMembers(s: seq<DataPoint>, t: int, v: real, p: DataPoint)
    requires Increasing(s)
    ensures p in Upsert(s, t, v) <==> p == DataPoint(t, v) || (p in s && p.ts != t)
  {
    if s != [] {
      var front, last := s[..|s| - 1], s[|s| - 1];
      assert s == front + [last];
      if last.ts > t {
        UpsertMembers(front, t, v, p);
      } else {
        assert forall i :: 0 <= i < |front| ==> front[i].ts < last.ts;
      }
    }
  }

  // A point is taken for every series the store has, and for a new one below the
  // limit; then it is held, and no other series changes.
  lemma AddStores(lim: Limits, hot: Hot, id: string, t: int, v: real, now: int)
    requires id in hot.series ==> Increasing(hot.series[id].points)
    ensures var after := Added(lim, hot, id, t, v, now);
      if id in hot.series || |hot.series| < lim.maxSeries
      then id in after.series && DataPoint(t, v) in after.series[id].points && after.series - {id} == hot.series - {id}
      else after == hot
  {
    var kept := Evicted(Current(hot, id, now).points, lim.maxPoints);
    UpsertMembers(kept, t, v, DataPoint(t, v));
  }

  // The series was seen now, unless the point only overwrites one that is held.
  lemma AddSeen(lim: Limits, hot: Hot, id: string, t: int, v: real, now: int)
    requires id in hot.series
    ensures var before, seen := hot.series[id].points, hot.series[id].lastSeen;
      var kept := if |before| >= lim.maxPoints && before != [] then before[1..] else before;
      Added(lim, hot, id, t, v, now).series[id].lastSeen == if exists p :: p in kept && p.ts == t then seen else now
  {
    var kept := Evicted(hot.series[id].points, lim.maxPoints);
    assert forall i :: 0 <= i < |kept| ==> kept[i] in kept;
  }

  ghost function NumAfter(s: seq<DataPoint>, x: int): (n: nat)
    ensures n <= |s|
  {
    if s == [] then 0 else NumAfter(s[..|s| - 1], x) + if s[|s| - 1].ts > x then 1 else 0
  }

  lemma {:induction false} UpsertKeepsLater(s: seq<DataPoint>, t: int, v: real, x: int)
    requires Increasing(s)
    ensures NumAfter(Upsert(s, t, v), x) >= NumAfter(s, x)
  {
    if s != [] {
      var front, last := s[..|s| - 1], s[|s| - 1];
      if last.ts > t {
        UpsertKeepsLater(front, t, v, x);
        assert (Upsert(front, t, v) + [last])[..|Upsert(front, t, v)|] == Upsert(front, t, v);
      } else if last.ts == t {
        assert (front + [DataPoint(t, v)])[..|front|] == front;
      } else {
        assert (s + [DataPoint(t, v)])[..|s|] == s;
      }
    }
  }

  lemma {:induction false} NumAfterTail(s: seq<DataPoint>, x: int)
    requires s != []
    ensures NumAfter(s, x) == NumAfter(s[1..], x) + if s[0].ts > x then 1 else 0
  {
    if |s| > 1 {
      NumAfterTail(s[..|s| - 1], x);
      assert s[1..][..|s| - 2] == s[..|s| - 1][1..];
    }
  }

  lemma {:induction false} NumAfterAll(s: seq<DataPoint>, x: int)
    requires forall i :: 0 <= i < |s| ==> s[i].ts > x
    ensures NumAfter(s, x) == |s|
  {
    if s != [] {
      NumAfterAll(s[..|s| - 1], x);
    }
  }

  // k later points are the last k points.
  lemma {:induction false} NumAfterLast(s: seq<DataPoint>, x: int, k: nat)
    requires Increasing(s) && 0 < k <= NumAfter(s, x)
    ensures s[|s| - k].ts > x
  {
    if k > 1 {
      NumAfterLast(s[..|s| - 1], x, k - 1);
    } else if s[|s| - 1].ts <= x {
      NoneAfter(s[..|s| - 1], x);
    }
  }

  lemma {:induction false} NoneAfter(s: seq<DataPoint>, x: int)
    requires forall i :: 0 <= i < |s| ==> s[i].ts <= x
    ensures NumAfter(s, x) == 0
  {
    if s != [] {
      NoneAfter(s[..|s| - 1], x);
    }
  }

  // Every written point is held, or K - 1 later ones are.
  ghost predicate HeldOrOld(c: seq<DataPoint>, u: DataPoint, K: int) {
    u in c || NumAfter(c, u.ts) >= K - 1
  }

  ghost predicate Retains(c: seq<DataPoint>, all: seq<DataPoint>, K: int) {
    && Increasing(c) && Increasing(all) && |c| <= K
    && (forall p :: p in c ==> p in all)
    && (forall u :: u in all ==> HeldOrOld(c, u, K))
  }

  lemma EvictKeeps(c: seq<DataPoint>, u: DataPoint, K: int)
    requires K >= 1 && Increasing(c) && |c| <= K && HeldOrOld(c, u, K)
    ensures HeldOrOld(Evicted(c, K), u, K)
  {
    if |c| >= K {
      NumAfterTail(c, u.ts);
      if u in c && u !in c[1..] {
        assert u == c[0];
        NumAfterAll(c[1..], u.ts);
      } else if u !in c && c[0].ts > u.ts {
        NumAfterAll(c[1..], u.ts);
      }
    }
  }

  lemma RetainsStep(c: seq<DataPoint>, all: seq<DataPoint>, K: int, t: int, v: real)
    requires K >= 1 && Retains(c, all, K)
    ensures Retains(Upsert(Evicted(c, K), t, v), Upsert(all, t, v), K)
  {
    var e := Evicted(c, K);
    var c', all' := Upsert(e, t, v), Upsert(all, t, v);
    UpsertIncreasing(e, t, v);
    UpsertIncreasing(all, t, v);
    UpsertSize(e, t, v);
    forall p | p in c' ensures p in all' {
      UpsertMembers(e, t, v, p);
      UpsertMembers(all, t, v, p);
    }
    forall u | u in all' ensures HeldOrOld(c', u, K) {
      UpsertMembers(all, t, v, u);
      UpsertMembers(e, t, v, u);
      if u in all {
        EvictKeeps(c, u, K);
        UpsertKeepsLater(e, t, v, u.ts);
      }
    }
  }

  lemma {:induction false} RunRetains(K: int, writes: seq<DataPoint>)
    requires K >= 1
    ensures Retains(CappedRun(K, writes), UnboundedRun(writes), K)
  {
    if writes != [] {
      var w := writes[|writes| - 1];
      RunRetains(K, writes[..|writes| - 1]);
      RetainsStep(CappedRun(K, writes[..|writes| - 1]), UnboundedRun(writes[..|writes| - 1]), K, w.ts, w.value);
    }
  }

  // The i-th points from the back are the same.
  ghost predicate AgreeAt(c: seq<DataPoint>, all: seq<DataPoint>, i: int) {
    0 < i <= |c| && i <= |all| && c[|c| - i] == all[|all| - i]
  }

  // The last m points of both lists agree, one at a time from the back.
  lemma {:induction false} NewestAgree(c: seq<DataPoint>, all: seq<DataPoint>, K: int, m: nat)
    requires Retains(c, all, K) && m <= K - 1 && m <= |all|
    ensures m <= |c| && forall i :: 1 <= i <= m ==> AgreeAt(c, all, i)
  {
    if m > 0 {
      NewestAgree(c, all, K, m - 1);
      var u := all[|all| - m];
      assert HeldOrOld(c, u, K);
      if u in c {
        var k :| 0 <= k < |c| && c[k] == u;
        HeldInPlace(c, all, m, k);
      } else {
        NumAfterLast(c, u.ts, K - 1);
        PlaceTaken(c, all, m);
        assert false;
      }
    }
  }

  lemma HeldInPlace(c: seq<DataPoint>, all: seq<DataPoint>, m: nat, k: nat)
    requires Increasing(c) && Increasing(all) && 0 < m <= |all|
    requires forall p :: p in c ==> p in all
    requires m - 1 <= |c| && forall i :: 1 <= i <= m - 1 ==> AgreeAt(c, all, i)
    requires k < |c| && c[k] == all[|all| - m]
    ensures k == |c| - m
  {
    var i := |c| - k;
    assert i <= m - 1 ==> AgreeAt(c, all, i);
    if k < |c| - m {
      PlaceTaken(c, all, m);
    }
  }

  // Nothing lies strictly between two neighbours of the complete list.
  lemma PlaceTaken(c: seq<DataPoint>, all: seq<DataPoint>, m: nat)
    requires Increasing(c) && Increasing(all) && 0 < m <= |all| && m <= |c|
    requires forall p :: p in c ==> p in all
    requires forall i :: 1 <= i <= m - 1 ==> AgreeAt(c, all, i)
    ensures c[|c| - m].ts <= all[|all| - m].ts
  {
    var p := c[|c| - m];
    assert p in all;
    var j :| 0 <= j < |all| && all[j] == p;
    var i := |all| - j;
    assert i <= m - 1 ==> AgreeAt(c, all, i);
  }

  // For writes in any order and a cap K >= 1, a series agrees with the
  // uncapped one on the K - 1 newest points (on all of them if there are
  // fewer), holds at most K points, and every point it holds is a last-written one.
  lemma RetentionTheorem(K: int, writes: seq<DataPoint>)
    requires K >= 1
    ensures var c, all := CappedRun(K, writes), UnboundedRun(writes);
      var m := if K - 1 <= |all| then K - 1 else |all|;
      && Increasing(c) && m <= |c| <= K
      && c[|c| - m..] == all[|all| - m..]
      && forall p :: p in c ==> p.ts in AsMap(writes) && AsMap(writes)[p.ts] == p.value
  {
    var c, all := CappedRun(K, writes), UnboundedRun(writes);
    RunRetains(K, writes);
    NewestRetained(c, all, K);
    HeldAreLastWritten(c, writes);
  }

  lemma NewestRetained(c: seq<DataPoint>, all: seq<DataPoint>, K: int)
    requires K >= 1 && Retains(c, all, K)
    ensures var m := if K - 1 <= |all| then K - 1 else |all|;
            m <= |c| && c[|c| - m..] == all[|all| - m..]
  {
    var m := if K - 1 <= |all| then K - 1 else |all|;
    NewestAgree(c, all, K, m);
    SuffixesAgree(c, all, m);
  }

  lemma HeldAreLastWritten(c: seq<DataPoint>, writes: seq<DataPoint>)
    requires forall p :: p in c ==> p in UnboundedRun(writes)
    ensures forall p :: p in c ==> p.ts in AsMap(writes) && AsMap(writes)[p.ts] == p.value
  {
    forall p | p in c ensures p.ts in AsMap(writes) && AsMap(writes)[p.ts] == p.value {
      LastWritten(writes, p);
    }
  }

  lemma LastWritten(writes: seq<DataPoint>, p: DataPoint)
    requires p in UnboundedRun(writes)
    ensures p.ts in AsMap(writes) && AsMap(writes)[p.ts] == p.value
  {
    var all := UnboundedRun(writes);
    UnboundedRunIs(writes);
    var i :| 0 <= i < |all| && all[i] == p;
    IncreasingAt(all, i);
  }

  lemma SuffixesAgree(c: seq<DataPoint>, all: seq<DataPoint>, m: nat)
    requires m <= |c| && m <= |all| && forall i :: 1 <= i <= m ==> AgreeAt(c, all, i)
    ensures c[|c| - m..] == all[|all| - m..]
  {
    var a, b := c[|c| - m..], all[|all| - m..];
    forall i | 0 <= i < m ensures a[i] == b[i] {
      assert AgreeAt(c, all, m - i);
    }
  }

  ghost function Newest(s: seq<DataPoint>, k: nat): seq<DataPoint> {
    if |s| <= k then s else s[|s| - k..]
  }

  lemma {:induction false} UpsertTail(s: seq<DataPoint>, t: int, v: real)
    requires Increasing(s) && s != [] && t > s[0].ts
    ensures Upsert(s, t, v) == [s[0]] + Upsert(s[1..], t, v)
  {
    var n := |s| - 1;
    if n > 0 {
      assert s[1..][..n - 1] == s[..n][1..];
      if s[n].ts > t {
        UpsertTail(s[..n], t, v);
      }
    }
  }

  lemma {:induction false} UpsertFirst(s: seq<DataPoint>, t: int, v: real)
    requires forall i :: 0 <= i < |s| ==> t < s[i].ts
    ensures Upsert(s, t, v) == [DataPoint(t, v)] + s
  {
    if s != [] {
      UpsertFirst(s[..|s| - 1], t, v);
    }
  }

  // At capacity one AddPoint keeps the K newest points exactly when the
  // timestamp equals the oldest one held, or is later than it and not held.
  // A late point pushes out a newer one, and overwriting a held point loses one.
  lemma EvictionKeepsNewestIff(s: seq<DataPoint>, t: int, v: real)
    requires Increasing(s) && s != []
    ensures Upsert(Evicted(s, |s|), t, v) == Newest(Upsert(s, t, v), |s|)
      <==> t == s[0].ts || (t > s[0].ts && !Has(s, t))
  {
    var K := |s|;
    assert s == [s[0]] + s[1..];
    UpsertSize(s, t, v);
    if t > s[0].ts {
      UpsertTail(s, t, v);
      UpsertSize(s[1..], t, v);
    } else {
      UpsertFirst(s[1..], t, v);
      if t == s[0].ts {
        UpsertReplacesFirst(s, t, v);
      } else {
        UpsertFirst(s, t, v);
        assert Newest(Upsert(s, t, v), K) == s;
        assert Upsert(s[1..], t, v)[0].ts == t;
      }
    }
  }

  lemma {:induction false} UpsertReplacesFirst(s: seq<DataPoint>, t: int, v: real)
    requires Increasing(s) && s != [] && t == s[0].ts
    ensures Upsert(s, t, v) == [DataPoint(t, v)] + s[1..]
  {
    var n := |s| - 1;
    if n > 0 {
      UpsertReplacesFirst(s[..n], t, v);
      assert s[1..] == s[..n][1..] + [s[n]];
    }
  }
}
