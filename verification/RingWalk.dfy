/**
 The loop of GetNodes on a consistent-hash ring: when its guard fails, and that
 what it has collected then is the replica list.
 */
module RingWalk {
  import opened HashRing
  import opened Maps
  import opened Walks

  ghost predicate Guard(ring: Ring, rf: nat, w: Walk<string>) {
    |w.nodes| < rf && |w.nodes| < |ring|
  }

  // The condition under which the walk ends: enough owners, or one owner per hash.
  predicate Enough(ring: Ring, rf: nat) {
    rf <= |ring.Values| || |ring.Values| == |ring|
  }

  // ---- The walk on a ring --------------------------------------------------

  ghost function Hops(hs: seq<Hash>, from: Hash): (g: seq<int>)
    ensures |g| == |hs| && forall i :: 0 <= i < |hs| ==> g[i] == Clockwise(from, hs[i])
  {
    if hs == [] then [] else Hops(hs[..|hs| - 1], from) + [Clockwise(from, hs[|hs| - 1])]
  }

  // rot lists the ring's hashes and turn their owners.
  ghost predicate Covers(ring: Ring, rot: seq<Hash>, turn: seq<string>) {
    && |turn| == |rot|
    && (forall i :: 0 <= i < |rot| ==> rot[i] in ring && turn[i] == ring[rot[i]])
    && (forall h :: h in ring ==> h in rot)
  }

  lemma TurnFrom(ring: Ring, from: Hash, rot: seq<Hash>, turn: seq<string>, d: map<string, int>)
    requires Covers(ring, rot, turn) && IsDistances(ring, from, d) && NonDecreasing(Hops(rot, from))
    ensures IsTurn(turn, Hops(rot, from), d)
  {
    var g := Hops(rot, from);
    DistancesInjective(ring, from, d);
    forall n | n in d ensures exists i :: 0 <= i < |turn| && turn[i] == n && d[n] == g[i] {
      var h :| h in ring && ring[h] == n && d[n] == Clockwise(from, h);
      var i :| 0 <= i < |rot| && rot[i] == h;
      assert turn[i] == n;
    }
  }

  lemma TurnCovers(ring: Ring, hs: seq<Hash>, own: seq<string>, start: nat)
    requires RingOk(ring, hs) && IsOwners(ring, hs, own) && start < |hs|
    ensures Covers(ring, Turn(hs, start, |hs|), Turn(own, start, |hs|))
  {
    var n := |hs|;
    var rot, turn := Turn(hs, start, n), Turn(own, start, n);
    forall i | 0 <= i < n ensures rot[i] in ring && turn[i] == ring[rot[i]] {
      var j := Position(n, start, i);
      assert rot[i] == hs[j] && turn[i] == own[j];
    }
    forall h | h in ring ensures h in rot {
      HashIsMet(hs, start, h);
    }
  }

  lemma HashIsMet(hs: seq<Hash>, start: nat, h: Hash)
    requires start < |hs| && h in HashSet(hs)
    ensures h in Turn(hs, start, |hs|)
  {
    var n := |hs|;
    var i :| 0 <= i < n && hs[i] == h;
    assert Turn(hs, start, n)[if i >= start then i - start else i + n - start] == h;
  }

  lemma HopsMonotone(hs: seq<Hash>, from: Hash, start: nat)
    requires Sorted(hs) && IsStart(hs, from, start)
    ensures NonDecreasing(Hops(Turn(hs, start, |hs|), from))
  {
    var g := Hops(Turn(hs, start, |hs|), from);
    forall i, j | 0 <= i <= j < |g| ensures g[i] <= g[j] {
      var a, b := Position(|hs|, start, i), Position(|hs|, start, j);
      assert g[i] == Clockwise(from, hs[a]) && g[j] == Clockwise(from, hs[b]);
    }
  }

  lemma RingTurn(ring: Ring, hs: seq<Hash>, own: seq<string>, from: Hash, start: nat, d: map<string, int>)
    requires RingOk(ring, hs) && IsOwners(ring, hs, own) && IsStart(hs, from, start) && IsDistances(ring, from, d)
    ensures IsTurn(Turn(own, start, |hs|), Hops(Turn(hs, start, |hs|), from), d)
  {
    HopsMonotone(hs, from, start);
    TurnCovers(ring, hs, own, start);
    TurnFrom(ring, from, Turn(hs, start, |hs|), Turn(own, start, |hs|), d);
  }

  lemma OwnersAre(ring: Ring, hs: seq<Hash>, own: seq<string>)
    requires RingOk(ring, hs) && IsOwners(ring, hs, own)
    ensures NodeSet(own) == ring.Values
  {
    forall n | n in ring.Values ensures n in own {
      var h :| h in ring && ring[h] == n;
      assert h in HashSet(hs);
      var i :| 0 <= i < |hs| && hs[i] == h;
      assert own[i] == n;
    }
  }

  lemma {:induction false} ValuesAtMostKeys(ring: Ring)
    ensures |ring.Values| <= |ring|
    decreases |ring|
  {
    if |ring| > 0 {
      var h :| h in ring;
      var rest := ring - {h};
      assert ring.Keys == rest.Keys + {h};
      ValuesAtMostKeys(rest);
      assert ring.Values <= rest.Values + {ring[h]} by {
        forall n | n in ring.Values ensures n in rest.Values + {ring[h]} {
          var g :| g in ring && ring[g] == n;
          if g != h { assert g in rest && rest[g] == n; }
        }
      }
      SubsetSize(ring.Values, rest.Values + {ring[h]});
    }
  }

  // When the guard fails before rf nodes are collected, every owner is collected.
  lemma AllCollected(ring: Ring, hs: seq<Hash>, own: seq<string>, start: nat, k: nat)
    requires RingOk(ring, hs) && IsOwners(ring, hs, own) && start < |hs|
    requires |WalkAfter(own, start, k).nodes| >= |ring|
    ensures NodeSet(WalkAfter(own, start, k).nodes) == ring.Values
  {
    var nodes := WalkAfter(own, start, k).nodes;
    ValuesAtMostKeys(ring);
    OwnersAre(ring, hs, own);
    WalkCollects(own, start, k);
    DistinctSize(nodes);
    SubsetSize(NodeSet(nodes), ring.Values);
  }

  // Once the guard fails the collected nodes are the replica list.
  lemma WalkResult(ring: Ring, hs: seq<Hash>, own: seq<string>, from: Hash, start: nat, rf: nat, k: nat)
    requires RingOk(ring, hs) && IsOwners(ring, hs, own) && IsStart(hs, from, start) && k <= |hs|
    requires !Guard(ring, rf, WalkAfter(own, start, k))
    requires |WalkAfter(own, start, k).nodes| <= rf
    ensures IsReplicaList(ring, from, rf, WalkAfter(own, start, k).nodes)
  {
    var nodes := WalkAfter(own, start, k).nodes;
    var d := Distances(ring, from);
    DistancesAre(ring, from);
    RingTurn(ring, hs, own, from, start, d);
    if |nodes| != rf {
      AllCollected(ring, hs, own, start, k);
    }
    FirstTurn(own, start, k);
    TurnPrefix(own, start, k);
    DedupNearest(Turn(own, start, |hs|), Hops(Turn(hs, start, |hs|), from), d, k, rf);
  }

  lemma EmptyRingList(ring: Ring, from: Hash, rf: nat)
    requires ring == map[]
    ensures IsReplicaList(ring, from, rf, [])
  {
    DistancesAre(ring, from);
  }

  // One turn collects every owner.
  lemma FullTurn(ring: Ring, hs: seq<Hash>, own: seq<string>, start: nat)
    requires RingOk(ring, hs) && IsOwners(ring, hs, own) && start < |hs|
    ensures |WalkAfter(own, start, |hs|).nodes| == |ring.Values|
  {
    OwnersAre(ring, hs, own);
    FirstTurn(own, start, |hs|);
    DedupSet(Turn(own, start, |hs|));
    TurnSet(own, start);
    DistinctSize(WalkAfter(own, start, |hs|).nodes);
  }

  // On a ring with enough owners the loop does not outlast the first turn.
  lemma StillTurning(ring: Ring, hs: seq<Hash>, own: seq<string>, start: nat, rf: nat, k: nat)
    requires RingOk(ring, hs) && IsOwners(ring, hs, own) && start < |hs| && k <= |hs| && Enough(ring, rf)
    requires Guard(ring, rf, WalkAfter(own, start, k))
    ensures k < |hs|
  {
    if k == |hs| {
      FullTurn(ring, hs, own, start);
      ValuesAtMostKeys(ring);
    }
  }

  // The walk ends exactly when the ring has enough owners, and then within one turn.
  lemma WalkEndsIff(ring: Ring, hs: seq<Hash>, own: seq<string>, start: nat, rf: nat)
    requires RingOk(ring, hs) && IsOwners(ring, hs, own) && start < |hs|
    ensures (exists k: nat :: var n := |WalkAfter(own, start, k).nodes|; n >= rf || n >= |ring|)
            <==> rf <= |ring.Values| || |ring.Values| == |ring|
    ensures var n := |WalkAfter(own, start, |hs|).nodes|; Enough(ring, rf) <==> n >= rf || n >= |ring|
  {
    ValuesAtMostKeys(ring);
    FullTurn(ring, hs, own, start);
    var all := |WalkAfter(own, start, |hs|).nodes|;
    assert rf <= |ring.Values| || |ring.Values| == |ring| ==> all >= rf || all >= |ring|;
    if k: nat :| var n := |WalkAfter(own, start, k).nodes|; n >= rf || n >= |ring| {
      OwnersAre(ring, hs, own);
      WalkCollects(own, start, k);
    }
  }

  // ---- Replica lists -----------------------------------------------------------

  function Offset(from: Hash, h: Hash): int {
    (h - from) % 0x1_0000_0000
  }

  // Some hash of a comes before every hash of b on the way clockwise from `from`.
  ghost predicate Sooner(ring: Ring, from: Hash, a: string, b: string) {
    exists h :: h in ring && ring[h] == a && forall g :: g in ring && ring[g] == b ==> Offset(from, h) < Offset(from, g)
  }

  lemma ClockwiseIsOffset(from: Hash)
    ensures forall h: Hash :: Clockwise(from, h) == Offset(from, h)
  {
  }

  lemma NearerSooner(ring: Ring, from: Hash, d: map<string, int>, a: string, b: string)
    requires IsDistances(ring, from, d) && a in d && b in d && d[a] < d[b]
    ensures Sooner(ring, from, a, b)
  {
    assert IsDistance(ring, from, a, d[a]) && IsDistance(ring, from, b, d[b]);
    ClockwiseIsOffset(from);
  }

  // A replica list holds rf owners or all of them, each sooner met than the owners
  // listed after it and than those not listed.
  lemma ReplicasAreSooner(ring: Ring, from: Hash, rf: nat, list: seq<string>)
    requires IsReplicaList(ring, from, rf, list)
    ensures |list| == rf || (|list| < rf && forall n :: n in ring.Values ==> n in list)
    ensures forall i :: 0 <= i < |list| ==> list[i] in ring.Values
    ensures forall i, j :: 0 <= i < j < |list| ==> Sooner(ring, from, list[i], list[j])
    ensures forall i, n :: 0 <= i < |list| && n in ring.Values && n !in list ==> Sooner(ring, from, list[i], n)
  {
    var d := Distances(ring, from);
    DistancesAre(ring, from);
    forall i, j | 0 <= i < j < |list| ensures Sooner(ring, from, list[i], list[j]) {
      NearerSooner(ring, from, d, list[i], list[j]);
    }
    forall i, n | 0 <= i < |list| && n in ring.Values && n !in list ensures Sooner(ring, from, list[i], n) {
      assert Beyond(d, list, n);
      NearerSooner(ring, from, d, list[i], n);
    }
  }

  lemma NoneSooner(ring: Ring, from: Hash, a: string)
    requires from in ring
    ensures !Sooner(ring, from, a, ring[from])
  {
    assert Offset(from, from) == 0;
  }

  // A node with a hash at the key itself comes first.
  lemma OwnHashFirst(ring: Ring, from: Hash, rf: nat, list: seq<string>)
    requires IsReplicaList(ring, from, rf, list) && rf >= 1 && from in ring
    ensures list != [] && list[0] == ring[from]
  {
    ReplicasAreSooner(ring, from, rf, list);
    assert ring[from] in ring.Values;
    NoneSooner(ring, from, list[0]);
  }
}
