/**
 How replica lists change when nodes join: a join inserts the new node into a
 key's list and drops at most the last entry, and the order in which nodes
 join does not matter as long as their virtual nodes do not collide.
 */
module RingChanges {
  import opened HashRing
  import opened Maps
  import opened Walks

  function Insert<T>(list: seq<T>, p: nat, x: T): seq<T>
    requires p <= |list|
  {
    list[..p] + [x] + list[p..]
  }

  function Truncate<T>(list: seq<T>, rf: nat): seq<T> {
    if |list| <= rf then list else list[..rf]
  }

  // ---- One more node at a known distance -------------------------------------

  // x belongs in front of list[p] by distance.
  ghost predicate Fits<T>(d: map<T, int>, list: seq<T>, dx: int, p: nat) {
    && p <= |list|
    && (forall i :: 0 <= i < |list| ==> list[i] in d)
    && (forall i :: 0 <= i < p ==> d[list[i]] < dx)
    && (forall i :: p <= i < |list| ==> dx < d[list[i]])
  }

  lemma FitExists<T>(d: map<T, int>, rf: nat, list: seq<T>, dx: int) returns (p: nat)
    requires NearestFirst(d, rf, list)
    requires forall n :: n in d ==> d[n] != dx
    ensures Fits(d, list, dx, p)
  {
    p := 0;
    while p < |list| && d[list[p]] < dx
      invariant p <= |list| && forall i :: 0 <= i < p ==> d[list[i]] < dx
    {
      p := p + 1;
    }
    if p < |list| {
      assert d[list[p]] > dx;
    }
  }

  lemma InsertAt<T>(list: seq<T>, p: nat, x: T, i: nat)
    requires p <= |list| && i <= |list|
    ensures |Insert(list, p, x)| == |list| + 1
    ensures Insert(list, p, x)[i] == if i < p then list[i] else if i == p then x else list[i - 1]
  {
  }

  // Where the entry at i of the grown list stands among all distances.
  lemma JoinedAt<T>(d: map<T, int>, list: seq<T>, x: T, dx: int, p: nat, i: nat)
    requires x !in d && Fits(d, list, dx, p) && i <= |list|
    ensures |Insert(list, p, x)| == |list| + 1
    ensures Insert(list, p, x)[i] in d[x := dx]
    ensures i < p ==> d[x := dx][Insert(list, p, x)[i]] == d[list[i]] < dx
    ensures i == p ==> d[x := dx][Insert(list, p, x)[i]] == dx
    ensures i > p ==> d[x := dx][Insert(list, p, x)[i]] == d[list[i - 1]] > dx
  {
    InsertAt(list, p, x, i);
  }

  lemma JoinOrdered<T>(d: map<T, int>, rf: nat, list: seq<T>, x: T, dx: int, p: nat)
    requires NearestFirst(d, rf, list) && x !in d && Fits(d, list, dx, p)
    ensures var d', joined := d[x := dx], Insert(list, p, x);
      && (forall i :: 0 <= i < |joined| ==> joined[i] in d')
      && (forall i, j :: 0 <= i < j < |joined| ==> d'[joined[i]] < d'[joined[j]])
  {
    var d', joined := d[x := dx], Insert(list, p, x);
    forall i | 0 <= i < |joined| ensures joined[i] in d' {
      JoinedAt(d, list, x, dx, p, i);
    }
    forall i, j | 0 <= i < j < |joined| ensures d'[joined[i]] < d'[joined[j]] {
      JoinedAt(d, list, x, dx, p, i);
      JoinedAt(d, list, x, dx, p, j);
    }
  }

  lemma TruncateAt<T>(joined: seq<T>, rf: nat)
    requires |joined| >= rf
    ensures |Truncate(joined, rf)| == rf
    ensures forall i :: 0 <= i < rf ==> Truncate(joined, rf)[i] == joined[i]
    ensures |joined| == rf ==> Truncate(joined, rf) == joined
  {
  }

  lemma TruncateKeeps<T>(joined: seq<T>, rf: nat, k: nat)
    requires k < |joined|
    ensures k < rf ==> joined[k] in Truncate(joined, rf)
  {
    if k < rf <= |joined| {
      TruncateAt(joined, rf);
      assert Truncate(joined, rf)[k] == joined[k];
    }
  }

  // A node cut off the grown list is beyond everything kept.
  lemma JoinCutOff<T>(d: map<T, int>, rf: nat, list: seq<T>, x: T, dx: int, p: nat, n: T)
    requires NearestFirst(d, rf, list) && x !in d && Fits(d, list, dx, p)
    requires n in Insert(list, p, x) && n !in Truncate(Insert(list, p, x), rf)
    ensures |Insert(list, p, x)| > rf && n in d[x := dx]
    ensures forall i :: 0 <= i < rf ==> Insert(list, p, x)[i] in d[x := dx] && d[x := dx][Insert(list, p, x)[i]] < d[x := dx][n]
  {
    var joined := Insert(list, p, x);
    var k :| 0 <= k < |joined| && joined[k] == n;
    JoinOrdered(d, rf, list, x, dx, p);
    TruncateKeeps(joined, rf, k);
  }

  // So is a node of d that was not on the list.
  lemma JoinAbsent<T>(d: map<T, int>, rf: nat, list: seq<T>, x: T, dx: int, p: nat, n: T)
    requires NearestFirst(d, rf, list) && x !in d && Fits(d, list, dx, p)
    requires n in d && n !in list
    ensures |Insert(list, p, x)| > rf && n in d[x := dx]
    ensures forall i :: 0 <= i < rf ==> Insert(list, p, x)[i] in d[x := dx] && d[x := dx][Insert(list, p, x)[i]] < d[x := dx][n]
  {
    assert Beyond(d, list, n) && |list| == rf;
    forall i | 0 <= i < rf
      ensures Insert(list, p, x)[i] in d[x := dx] && d[x := dx][Insert(list, p, x)[i]] < d[x := dx][n]
    {
      JoinedAt(d, list, x, dx, p, i);
      if i >= p { assert dx < d[list[p]] < d[n]; }
    }
    InsertAt(list, p, x, 0);
  }

  lemma InsertHas<T>(list: seq<T>, p: nat, x: T, n: T)
    requires p <= |list|
    ensures n in Insert(list, p, x) <==> n == x || n in list
  {
    InsertAt(list, p, x, p);
    if n in list {
      var i :| 0 <= i < |list| && list[i] == n;
      InsertAt(list, p, x, if i < p then i else i + 1);
    }
    if n in Insert(list, p, x) {
      var i :| 0 <= i < |Insert(list, p, x)| && Insert(list, p, x)[i] == n;
      InsertAt(list, p, x, i);
    }
  }

  // A node of d missing from the list is beyond everything kept.
  lemma JoinOutsider<T>(d: map<T, int>, rf: nat, list: seq<T>, x: T, dx: int, p: nat, n: T)
    requires NearestFirst(d, rf, list) && x !in d && Fits(d, list, dx, p)
    requires n in d[x := dx] && n !in Truncate(Insert(list, p, x), rf)
    ensures |Truncate(Insert(list, p, x), rf)| == rf
    ensures forall i :: 0 <= i < rf ==>
      Truncate(Insert(list, p, x), rf)[i] in d[x := dx] && d[x := dx][Truncate(Insert(list, p, x), rf)[i]] < d[x := dx][n]
  {
    InsertHas(list, p, x, n);
    if n in Insert(list, p, x) {
      JoinCutOff(d, rf, list, x, dx, p, n);
    } else {
      JoinAbsent(d, rf, list, x, dx, p, n);
    }
    TruncateAt(Insert(list, p, x), rf);
  }

  lemma JoinNearest<T>(d: map<T, int>, rf: nat, list: seq<T>, x: T, dx: int, p: nat)
    requires NearestFirst(d, rf, list) && x !in d && Fits(d, list, dx, p)
    ensures NearestFirst(d[x := dx], rf, Truncate(Insert(list, p, x), rf))
  {
    var d', kept := d[x := dx], Truncate(Insert(list, p, x), rf);
    JoinOrdered(d, rf, list, x, dx, p);
    forall n | n in d' && n !in kept ensures |kept| == rf && Beyond(d', kept, n) {
      JoinOutsider(d, rf, list, x, dx, p, n);
    }
  }

  // ---- Distances of the grown ring -------------------------------------------

  // ring' adds hashes of the new node x to ring and moves no other hash.
  ghost predicate Joins(ring: Ring, ring': Ring, x: string) {
    && x !in ring.Values && x in ring'.Values
    && (forall h :: h in ring ==> h in ring' && ring'[h] == ring[h])
    && (forall h :: h in ring' && h !in ring ==> ring'[h] == x)
  }

  lemma SameDistance(ring: Ring, ring': Ring, x: string, from: Hash, n: string, v: int, v': int)
    requires Joins(ring, ring', x) && n != x
    requires IsDistance(ring, from, n, v) && IsDistance(ring', from, n, v')
    ensures v == v'
  {
    var g :| g in ring && ring[g] == n && v == Clockwise(from, g);
    var h :| h in ring' && ring'[h] == n && v' == Clockwise(from, h);
  }

  lemma JoinOwners(ring: Ring, ring': Ring, x: string)
    requires Joins(ring, ring', x)
    ensures ring'.Values == ring.Values + {x}
  {
    forall n | n in ring'.Values ensures n in ring.Values + {x} {
      var h :| h in ring' && ring'[h] == n;
    }
    forall n | n in ring.Values ensures n in ring'.Values {
      var h :| h in ring && ring[h] == n;
      assert ring'[h] == n;
    }
  }

  lemma JoinDistances(ring: Ring, ring': Ring, x: string, from: Hash)
    requires Joins(ring, ring', x)
    ensures x in Distances(ring', from) && x !in Distances(ring, from)
    ensures Distances(ring', from) == Distances(ring, from)[x := Distances(ring', from)[x]]
  {
    var d, d' := Distances(ring, from), Distances(ring', from);
    DistancesAre(ring, from);
    DistancesAre(ring', from);
    JoinOwners(ring, ring', x);
    forall n | n in d ensures d[n] == d'[n] {
      SameDistance(ring, ring', x, from, n, d[n], d'[n]);
    }
  }

  // ---- Minimal movement ------------------------------------------------------

  // A join inserts the new node at one place of a key's list and cuts the list
  // back to rf entries; all other entries stay, in the same order.
  lemma MinimalMovement(ring: Ring, ring': Ring, x: string, from: Hash, rf: nat, list: seq<string>, list': seq<string>)
    requires Joins(ring, ring', x)
    requires IsReplicaList(ring, from, rf, list) && IsReplicaList(ring', from, rf, list')
    ensures exists p :: 0 <= p <= |list| && list' == Truncate(Insert(list, p, x), rf)
  {
    var d, d' := Distances(ring, from), Distances(ring', from);
    JoinDistances(ring, ring', x, from);
    DistancesAre(ring', from);
    DistancesInjective(ring', from, d');
    assert forall n :: n in d ==> n in d' && d'[n] == d[n];
    var p := FitExists(d, rf, list, d'[x]);
    JoinNearest(d, rf, list, x, d'[x], p);
    NearestUnique(d', rf, list', Truncate(Insert(list, p, x), rf));
  }

  // With a full list: either nothing changes, or exactly the last entry gives
  // way to the new node and the others keep their order.
  lemma FullListMovement(ring: Ring, ring': Ring, x: string, from: Hash, rf: nat, list: seq<string>, list': seq<string>)
    requires Joins(ring, ring', x)
    requires IsReplicaList(ring, from, rf, list) && IsReplicaList(ring', from, rf, list')
    requires rf <= |ring.Values|
    ensures |list| == |list'| == rf
    ensures list' == list || exists p :: 0 <= p < rf && list' == list[..p] + [x] + list[p..rf - 1]
  {
    ListLength(ring, from, rf, list);
    MinimalMovement(ring, ring', x, from, rf, list, list');
    InsertedFull(list, list', x, rf);
  }

  lemma InsertFull<T>(list: seq<T>, p: nat, x: T)
    requires p <= |list|
    ensures |Truncate(Insert(list, p, x), |list|)| == |list|
    ensures Truncate(Insert(list, p, x), |list|) ==
            if p == |list| then list else list[..p] + [x] + list[p..|list| - 1]
  {
  }

  lemma InsertedFull<T>(list: seq<T>, list': seq<T>, x: T, rf: nat)
    requires |list| == rf
    requires exists p :: 0 <= p <= |list| && list' == Truncate(Insert(list, p, x), rf)
    ensures |list'| == rf
    ensures list' == list || exists p :: 0 <= p < rf && list' == list[..p] + [x] + list[p..rf - 1]
  {
    var p :| 0 <= p <= |list| && list' == Truncate(Insert(list, p, x), rf);
    InsertFull(list, p, x);
  }

  lemma ListLength(ring: Ring, from: Hash, rf: nat, list: seq<string>)
    requires IsReplicaList(ring, from, rf, list)
    ensures Distinct(list) && NodeSet(list) <= ring.Values
    ensures |list| == if rf <= |ring.Values| then rf else |ring.Values|
  {
    var d := Distances(ring, from);
    DistancesAre(ring, from);
    DistinctByDistance(d, rf, list);
    DistinctSize(list);
    assert NodeSet(list) <= d.Keys;
    SubsetSize(NodeSet(list), d.Keys);
    if |list| < rf {
      assert NodeSet(list) == d.Keys;
    }
  }

  lemma DistinctByDistance<T>(d: map<T, int>, rf: nat, list: seq<T>)
    requires NearestFirst(d, rf, list)
    ensures Distinct(list)
  {
    forall i, j | 0 <= i < j < |list| ensures list[i] != list[j] {
      assert d[list[i]] < d[list[j]];
    }
  }

  // ---- Joins of the partitioner, in any order --------------------------------

  ghost predicate Fresh(hash: string -> Hash, ring: Ring, node: string, n: nat) {
    forall i :: 0 <= i < n ==> hash(VirtualKey(node, i)) !in ring
  }

  // AddNode of a new node with at least one virtual node and no collision is a join.
  lemma PlacedJoins(hash: string -> Hash, ring: Ring, node: string, n: nat)
    requires node !in ring.Values && n > 0 && Fresh(hash, ring, node, n)
    ensures Joins(ring, Placed(hash, ring, node, n), node)
  {
    PlacedAt(hash, ring, node, n);
    var hs := VirtualHashes(hash, node, n);
    assert forall h :: h in hs ==> h !in ring;
    assert hs[0] in Placed(hash, ring, node, n);
  }

  // The ring after adding the nodes one after the other to an empty one.
  function RingOf(hash: string -> Hash, vn: nat, nodes: seq<string>): Ring {
    if nodes == [] then map[] else
      Placed(hash, RingOf(hash, vn, nodes[..|nodes| - 1]), nodes[|nodes| - 1], vn)
  }

  // Virtual nodes of different nodes have different hashes.
  ghost predicate CollisionFree(hash: string -> Hash, vn: nat, nodes: set<string>) {
    forall a, b, h :: a in nodes && b in nodes && h in VirtualHashes(hash, a, vn) && h in VirtualHashes(hash, b, vn)
      ==> a == b
  }

  lemma {:induction false} RingOfAt(hash: string -> Hash, vn: nat, nodes: seq<string>)
    requires CollisionFree(hash, vn, NodeSet(nodes))
    ensures forall n, h :: n in nodes && h in VirtualHashes(hash, n, vn) ==>
      h in RingOf(hash, vn, nodes) && RingOf(hash, vn, nodes)[h] == n
    ensures forall h :: h in RingOf(hash, vn, nodes) ==>
      RingOf(hash, vn, nodes)[h] in nodes && h in VirtualHashes(hash, RingOf(hash, vn, nodes)[h], vn)
  {
    if nodes != [] {
      var front, last := nodes[..|nodes| - 1], nodes[|nodes| - 1];
      assert nodes == front + [last];
      NodeSetAppend(front, last);
      RingOfAt(hash, vn, front);
      PlacedAt(hash, RingOf(hash, vn, front), last, vn);
    }
  }

  // Rings built from the same collision-free nodes in any order, with any
  // repetition, are equal; so every key has one replica list.
  lemma JoinOrderIrrelevant(
      hash: string -> Hash, vn: nat, a: seq<string>, b: seq<string>, from: Hash, rf: nat, la: seq<string>, lb: seq<string>)
    requires NodeSet(a) == NodeSet(b) && CollisionFree(hash, vn, NodeSet(a))
    requires IsReplicaList(RingOf(hash, vn, a), from, rf, la)
    requires IsReplicaList(RingOf(hash, vn, b), from, rf, lb)
    ensures RingOf(hash, vn, a) == RingOf(hash, vn, b) && la == lb
  {
    SameRing(hash, vn, a, b);
    NearestUnique(Distances(RingOf(hash, vn, a), from), rf, la, lb);
  }

  lemma SameRing(hash: string -> Hash, vn: nat, a: seq<string>, b: seq<string>)
    requires NodeSet(a) == NodeSet(b) && CollisionFree(hash, vn, NodeSet(a))
    ensures RingOf(hash, vn, a) == RingOf(hash, vn, b)
  {
    RingOfAt(hash, vn, a);
    RingOfAt(hash, vn, b);
    var ra, rb := RingOf(hash, vn, a), RingOf(hash, vn, b);
    forall h | h in ra ensures h in rb && rb[h] == ra[h] {
      assert ra[h] in NodeSet(b);
    }
    forall h | h in rb ensures h in ra {
      assert rb[h] in NodeSet(a);
    }
  }

  // Without collision freedom the order does matter: two joins commute exactly
  // when the two nodes share no virtual hash.
  lemma JoinsCommuteIff(hash: string -> Hash, vn: nat, ring: Ring, a: string, b: string)
    requires a != b
    ensures Placed(hash, Placed(hash, ring, a, vn), b, vn) == Placed(hash, Placed(hash, ring, b, vn), a, vn)
      <==> forall h :: h in VirtualHashes(hash, a, vn) ==> h !in VirtualHashes(hash, b, vn)
  {
    var ab, ba := Placed(hash, Placed(hash, ring, a, vn), b, vn), Placed(hash, Placed(hash, ring, b, vn), a, vn);
    TwoPlacedAt(hash, vn, ring, a, b);
    TwoPlacedAt(hash, vn, ring, b, a);
    var va, vb := VirtualHashes(hash, a, vn), VirtualHashes(hash, b, vn);
    if h :| h in va && h in vb {
      assert ab[h] == b && ba[h] == a;
    } else {
      assert ab.Keys == ba.Keys;
      forall h: Hash | h in ab ensures ab[h] == ba[h] {
        if h in vb { assert h !in va; }
      }
    }
  }

  lemma TwoPlacedAt(hash: string -> Hash, vn: nat, ring: Ring, a: string, b: string)
    ensures var ab := Placed(hash, Placed(hash, ring, a, vn), b, vn);
      var va, vb := VirtualHashes(hash, a, vn), VirtualHashes(hash, b, vn);
      && ab.Keys == ring.Keys + HashSet(va) + HashSet(vb)
      && (forall h :: h in ab ==> ab[h] == if h in vb then b else if h in va then a else ring[h])
  {
    PlacedAt(hash, ring, a, vn);
    PlacedAt(hash, Placed(hash, ring, a, vn), b, vn);
  }
}
