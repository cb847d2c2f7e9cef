/**
 Walking round a circular list and collecting entries without repetition.

 The list's entries are nodes; a walk from a start position collects each node
 the first time it is met.  When the list is ordered by a distance, the walk's
 result is described without positions: the nearest nodes, nearest first.
 */
module Walks {
  import opened Maps

  ghost predicate Injective<T>(d: map<T, int>) {
    forall a, b :: a in d && b in d && a != b ==> d[a] != d[b]
  }

  // The rf nodes of smallest distance, nearest first; all of them if there are fewer.
  ghost predicate NearestFirst<T>(d: map<T, int>, rf: nat, list: seq<T>) {
    && |list| <= rf
    && (forall i :: 0 <= i < |list| ==> list[i] in d)
    && (forall i, j :: 0 <= i < j < |list| ==> d[list[i]] < d[list[j]])
    && (forall n :: n in d && n !in list ==> |list| == rf && Beyond(d, list, n))
  }

  ghost predicate Beyond<T>(d: map<T, int>, list: seq<T>, n: T)
    requires n in d && forall i :: 0 <= i < |list| ==> list[i] in d
  {
    forall i :: 0 <= i < |list| ==> d[list[i]] < d[n]
  }

  // Once lists agree before i they agree at i.
  lemma NearestAgree<T>(d: map<T, int>, rf: nat, a: seq<T>, b: seq<T>, i: nat)
    requires NearestFirst(d, rf, a) && NearestFirst(d, rf, b)
    requires i < |a| && i <= |b| && forall j :: 0 <= j < i ==> a[j] == b[j]
    ensures i < |b| && a[i] == b[i]
  {
    NotEarlier(d, a, i);
    var x := a[i];
    assert x in d && forall j :: 0 <= j < i ==> b[j] != x;
    if i < |b| && a[i] != b[i] {
      NotEarlier(d, b, i);
      AtMostTheOther(d, rf, b, i, a[i]);
      AtMostTheOther(d, rf, a, i, b[i]);
    }
  }

  lemma NotEarlier<T>(d: map<T, int>, a: seq<T>, i: nat)
    requires forall k :: 0 <= k < |a| ==> a[k] in d
    requires forall j, k :: 0 <= j < k < |a| ==> d[a[j]] < d[a[k]]
    requires i < |a|
    ensures forall j :: 0 <= j < i ==> a[j] != a[i]
  {
  }

  lemma AtMostTheOther<T>(d: map<T, int>, rf: nat, b: seq<T>, i: nat, x: T)
    requires NearestFirst(d, rf, b) && i < |b|
    requires x in d && b[i] != x && forall j :: 0 <= j < i ==> b[j] != x
    ensures d[b[i]] < d[x]
  {
    if x !in b {
      assert Beyond(d, b, x);
    }
  }

  lemma NearestUnique<T>(d: map<T, int>, rf: nat, a: seq<T>, b: seq<T>)
    requires NearestFirst(d, rf, a) && NearestFirst(d, rf, b)
    ensures a == b
  {
    for i := 0 to |a|
      invariant i <= |b| && forall j :: 0 <= j < i ==> a[j] == b[j]
    {
      NearestAgree(d, rf, a, b, i);
    }
    if |a| < |b| {
      NearestAgree(d, rf, b, a, |a|);
    }
  }

  // ---- The walk as a loop state --------------------------------------------

  datatype Walk<T> = Walk(idx: nat, nodes: seq<T>)

  // The index after i, wrapping round.
  function Next(i: nat, n: nat): (r: nat)
    requires i < n
    ensures r < n
  {
    if i + 1 < n then i + 1 else 0
  }

  lemma NextIsMod(i: nat, n: nat)
    requires i < n
    ensures (i + 1) % n == Next(i, n)
  {
  }

  function Collected<T(==)>(nodes: seq<T>, node: T): seq<T> {
    if node in nodes then nodes else nodes + [node]
  }

  // The loop variables after k executions of the loop body.
  ghost function WalkAfter<T>(own: seq<T>, start: nat, k: nat): (w: Walk<T>)
    requires start < |own|
    ensures w.idx < |own|
  {
    if k == 0 then Walk(start, []) else
      var w := WalkAfter(own, start, k - 1);
      Walk(Next(w.idx, |own|), Collected(w.nodes, own[w.idx]))
  }

  // ---- Lists without repetition --------------------------------------------

  ghost predicate Distinct<T>(s: seq<T>) {
    forall i, j :: 0 <= i < j < |s| ==> s[i] != s[j]
  }

  function NodeSet<T(==)>(s: seq<T>): set<T> {
    set n | n in s
  }

  lemma {:induction false} DistinctSize<T>(s: seq<T>)
    requires Distinct(s)
    ensures |NodeSet(s)| == |s|
  {
    if s != [] {
      var t := s[..|s| - 1];
      DistinctSize(t);
      assert s[|s| - 1] !in NodeSet(t);
      assert s == t + [s[|s| - 1]];
      NodeSetAppend(t, s[|s| - 1]);
    }
  }

  lemma NodeSetAppend<T>(nodes: seq<T>, node: T)
    ensures NodeSet(nodes + [node]) == NodeSet(nodes) + {node}
  {
  }

  lemma CollectedSet<T>(nodes: seq<T>, node: T)
    requires Distinct(nodes)
    ensures Distinct(Collected(nodes, node))
    ensures NodeSet(Collected(nodes, node)) == NodeSet(nodes) + {node}
  {
  }

  // After any number of iterations: only owners are collected, each once.
  lemma {:induction false} WalkCollects<T>(own: seq<T>, start: nat, k: nat)
    requires start < |own|
    ensures Distinct(WalkAfter(own, start, k).nodes)
    ensures NodeSet(WalkAfter(own, start, k).nodes) <= NodeSet(own)
    ensures |WalkAfter(own, start, k).nodes| <= |NodeSet(own)|
  {
    if k > 0 {
      WalkCollects(own, start, k - 1);
      var w := WalkAfter(own, start, k - 1);
      CollectedSet(w.nodes, own[w.idx]);
    }
    var nodes := WalkAfter(own, start, k).nodes;
    DistinctSize(nodes);
    SubsetSize(NodeSet(nodes), NodeSet(own));
  }

  // ---- The first turn ------------------------------------------------------

  function Position(n: nat, start: nat, i: nat): (j: nat)
    requires start < n && i <= n
    ensures j < n
  {
    if start + i < n then start + i else start + i - n
  }

  // The first k entries met from position `start` on, wrapping round.
  ghost function Turn<T>(s: seq<T>, start: nat, k: nat): (t: seq<T>)
    requires start < |s| && k <= |s|
    ensures |t| == k && forall i :: 0 <= i < k ==> t[i] == s[Position(|s|, start, i)]
  {
    if k == 0 then [] else Turn(s, start, k - 1) + [s[Position(|s|, start, k - 1)]]
  }

  // First occurrences, in order.
  ghost function Dedup<T>(s: seq<T>): seq<T> {
    if s == [] then [] else Collected(Dedup(s[..|s| - 1]), s[|s| - 1])
  }

  lemma {:induction false} FirstTurn<T>(own: seq<T>, start: nat, k: nat)
    requires start < |own| && k <= |own|
    ensures WalkAfter(own, start, k).idx == Position(|own|, start, k)
    ensures WalkAfter(own, start, k).nodes == Dedup(Turn(own, start, k))
  {
    if k > 0 {
      FirstTurn(own, start, k - 1);
      assert Turn(own, start, k)[..k - 1] == Turn(own, start, k - 1);
    }
  }

  lemma {:induction false} DedupSet<T>(s: seq<T>)
    ensures Distinct(Dedup(s)) && NodeSet(Dedup(s)) == NodeSet(s)
  {
    if s != [] {
      var t := s[..|s| - 1];
      DedupSet(t);
      CollectedSet(Dedup(t), s[|s| - 1]);
      assert NodeSet(s) == NodeSet(t) + {s[|s| - 1]};
    }
  }

  ghost predicate NonDecreasing(g: seq<int>) {
    forall i, j :: 0 <= i <= j < |g| ==> g[i] <= g[j]
  }

  // g lists, along one turn, how far clockwise each step lies; d is the owners' least distance.
  ghost predicate IsTurn<T>(turn: seq<T>, g: seq<int>, d: map<T, int>) {
    && |g| == |turn|
    && NonDecreasing(g)
    && (forall i :: 0 <= i < |turn| ==> turn[i] in d && d[turn[i]] <= g[i])
    && (forall n :: n in d ==> exists i :: 0 <= i < |turn| && turn[i] == n && d[n] == g[i])
    && Injective(d)
  }

  // A node met in the first k steps is nearer than every node that is not.
  lemma {:induction false} MetIsNearer<T>(turn: seq<T>, g: seq<int>, d: map<T, int>, k: nat, m: T, n: T)
    requires IsTurn(turn, g, d) && k <= |turn|
    requires m in turn[..k] && n in d && n !in turn[..k]
    ensures d[m] < d[n]
  {
    var i :| 0 <= i < k && turn[i] == m;
    var j :| 0 <= j < |turn| && turn[j] == n && d[n] == g[j];
    assert forall x :: 0 <= x < k ==> turn[x] in turn[..k];
  }

  // One entry more: kept if it is new.
  lemma DedupSnoc<T>(s: seq<T>, k: nat)
    requires 0 < k <= |s|
    ensures var before := Dedup(s[..k - 1]);
      Dedup(s[..k]) == if s[k - 1] in NodeSet(before) then before else before + [s[k - 1]]
  {
    assert s[..k][..k - 1] == s[..k - 1];
  }

  lemma DedupEntries<T>(s: seq<T>, k: nat, i: nat, j: nat)
    requires 0 < k <= |s| && i < j < |Dedup(s[..k])|
    ensures i < |Dedup(s[..k - 1])|
    ensures var list, before := Dedup(s[..k]), Dedup(s[..k - 1]);
      (list[i], list[j]) == (before[i], if j < |before| then before[j] else s[k - 1])
    ensures j >= |Dedup(s[..k - 1])| ==> s[k - 1] !in NodeSet(Dedup(s[..k - 1]))
  {
    DedupSnoc(s, k);
  }

  // An entry met before a new one is nearer.
  lemma DedupLast<T>(turn: seq<T>, g: seq<int>, d: map<T, int>, k: nat, i: nat)
    requires IsTurn(turn, g, d) && 0 < k <= |turn| && turn[k - 1] in d
    requires turn[k - 1] !in NodeSet(Dedup(turn[..k - 1]))
    requires i < |Dedup(turn[..k - 1])| && Dedup(turn[..k - 1])[i] in d
    ensures d[Dedup(turn[..k - 1])[i]] < d[turn[k - 1]]
  {
    var before := Dedup(turn[..k - 1]);
    DedupSet(turn[..k - 1]);
    assert before[i] in NodeSet(before);
    MetIsNearer(turn, g, d, k - 1, before[i], turn[k - 1]);
  }

  lemma {:induction false} DedupOrdered<T>(
      turn: seq<T>, g: seq<int>, d: map<T, int>, k: nat, list: seq<T>, i: nat, j: nat)
    requires IsTurn(turn, g, d) && 0 < k <= |turn| && list == Dedup(turn[..k])
    requires i < j < |list| && list[i] in d && list[j] in d
    ensures d[list[i]] < d[list[j]]
    decreases k
  {
    DedupEntries(turn, k, i, j);
    var before := Dedup(turn[..k - 1]);
    if j < |before| {
      assert turn[..0] == [];
      DedupOrdered(turn, g, d, k - 1, before, i, j);
    } else {
      DedupLast(turn, g, d, k, i);
    }
  }

  // The first occurrences in a prefix of the turn are its nearest nodes.
  lemma DedupNearest<T>(turn: seq<T>, g: seq<int>, d: map<T, int>, k: nat, rf: nat)
    requires IsTurn(turn, g, d) && k <= |turn|
    requires |Dedup(turn[..k])| <= rf
    requires |Dedup(turn[..k])| == rf || NodeSet(Dedup(turn[..k])) == d.Keys
    ensures NearestFirst(d, rf, Dedup(turn[..k]))
  {
    var list := Dedup(turn[..k]);
    DedupSet(turn[..k]);
    forall i | 0 <= i < |list| ensures list[i] in d && list[i] in turn[..k] {
      assert list[i] in NodeSet(list);
    }
    forall i, j | 0 <= i < j < |list| ensures d[list[i]] < d[list[j]] {
      DedupOrdered(turn, g, d, k, list, i, j);
    }
    forall n | n in d && n !in list ensures |list| == rf && Beyond(d, list, n) {
      assert n !in NodeSet(list);
      forall i | 0 <= i < |list| ensures d[list[i]] < d[n] {
        MetIsNearer(turn, g, d, k, list[i], n);
      }
    }
  }

  lemma TurnPrefix<T>(s: seq<T>, start: nat, k: nat)
    requires start < |s| && k <= |s|
    ensures Turn(s, start, |s|)[..k] == Turn(s, start, k)
  {
  }

  lemma TurnSet<T>(own: seq<T>, start: nat)
    requires start < |own|
    ensures NodeSet(Turn(own, start, |own|)) == NodeSet(own)
  {
    var n := |own|;
    var turn := Turn(own, start, n);
    forall i | 0 <= i < n ensures own[i] in turn {
      assert turn[if i >= start then i - start else i + n - start] == own[i];
    }
  }
}
