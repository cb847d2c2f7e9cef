/**
 The partitioner object: virtual nodes are placed in a map and a list that is
 re-sorted in place, and a key's replicas are collected by walking the list.
 */
module Partitioner {
  import opened HashRing
  import opened RingWalk
  import opened Sorting
  import opened Walks

  // The first i entries are in order and no later entry is smaller.
  ghost predicate LowestSettled(s: seq<Hash>, i: nat) {
    forall a, b :: 0 <= a < i && a < b < |s| ==> s[a] <= s[b]
  }

  lemma SwapKeeps(s: seq<Hash>, i: nat, j: nat)
    requires i < j < |s|
    ensures multiset(Swap(s, i, j)) == multiset(s)
    ensures LowestSettled(s, i) ==> LowestSettled(Swap(s, i, j), i)
  {
  }

  method Visit(nodes: seq<string>, seen: set<string>, nodeID: string) returns (nodes': seq<string>, seen': set<string>)
    requires seen == NodeSet(nodes) && |seen| == |nodes|
    ensures nodes' == Collected(nodes, nodeID) && |nodes'| <= |nodes| + 1
    ensures seen' == NodeSet(nodes') && |seen'| == |nodes'|
  {
    nodes', seen' := nodes, seen;
    if nodeID !in seen {
      NodeSetAppend(nodes, nodeID);
      nodes' := nodes + [nodeID];
      seen' := seen + {nodeID};
    }
  }

  // The loop of GetNodes: k executions of its body, never more than one turn.
  method Collect(ring: Ring, hs: seq<Hash>, start: nat, rf: nat, ghost own: seq<string>)
    returns (nodes: seq<string>, ghost k: nat)
    requires RingOk(ring, hs) && IsOwners(ring, hs, own) && start < |hs| && Enough(ring, rf)
    ensures k <= |hs| && |nodes| <= rf
    ensures nodes == WalkAfter(own, start, k).nodes
    ensures !Guard(ring, rf, WalkAfter(own, start, k))
  {
    nodes, k := [], 0;
    var seen: set<string> := {};
    var idx := start;
    while |nodes| < rf && |seen| < |ring|
      invariant 0 <= idx < |hs| && k <= |hs| && |nodes| <= rf
      invariant idx == WalkAfter(own, start, k).idx && nodes == WalkAfter(own, start, k).nodes
      invariant seen == NodeSet(nodes) && |seen| == |nodes|
      decreases |hs| - k
    {
      StillTurning(ring, hs, own, start, rf, k);
      nodes, seen := Visit(nodes, seen, ring[hs[idx]]);
      NextIsMod(idx, |hs|);
      idx := (idx + 1) % |hs|;
      k := k + 1;
    }
  }

  class ConsistentHashPartitioner {
    const replicaFactor: nat
    const virtualNodes: nat
    const hash: string -> Hash
    var nodeHashes: Ring
    var sortedHashes: seq<Hash>

    ghost predicate Valid()
      reads this
    {
      RingOk(nodeHashes, sortedHashes)
    }

    constructor (replicaFactor: nat, virtualNodes: nat, hash: string -> Hash)
      ensures Valid() && nodeHashes == map[] && sortedHashes == []
      ensures this.replicaFactor == replicaFactor && this.virtualNodes == virtualNodes && this.hash == hash
    {
      this.replicaFactor, this.virtualNodes, this.hash := replicaFactor, virtualNodes, hash;
      nodeHashes, sortedHashes := map[], [];
    }

    method AddNode(nodeID: string)
      requires Valid()
      modifies this
      ensures Valid()
      ensures nodeHashes == Placed(hash, old(nodeHashes), nodeID, virtualNodes)
      ensures multiset(sortedHashes) ==
              multiset(old(sortedHashes)) + multiset(VirtualHashes(hash, nodeID, virtualNodes))
    {
      for i := 0 to virtualNodes
        invariant nodeHashes == Placed(hash, old(nodeHashes), nodeID, i)
        invariant sortedHashes == old(sortedHashes) + VirtualHashes(hash, nodeID, i)
      {
        var h := hash(VirtualKey(nodeID, i));
        nodeHashes := nodeHashes[h := nodeID];
        sortedHashes := sortedHashes + [h];
      }
      ghost var all := sortedHashes;
      SortHashes();
      PlacedAt(hash, old(nodeHashes), nodeID, virtualNodes);
      forall h ensures h in sortedHashes <==> h in nodeHashes {
        assert h in sortedHashes <==> h in multiset(sortedHashes);
        assert h in all <==> h in multiset(all);
      }
    }

    // The exchange sort at the end of AddNode.
    method SortHashes()
      modifies this`sortedHashes
      ensures Sorted(sortedHashes)
      ensures multiset(sortedHashes) == multiset(old(sortedHashes))
    {
      var n := |sortedHashes|;
      for i := 0 to n
        invariant |sortedHashes| == n
        invariant multiset(sortedHashes) == multiset(old(sortedHashes))
        invariant LowestSettled(sortedHashes, i)
      {
        for j := i + 1 to n
          invariant |sortedHashes| == n
          invariant multiset(sortedHashes) == multiset(old(sortedHashes))
          invariant LowestSettled(sortedHashes, i)
          invariant forall b :: i < b < j ==> sortedHashes[i] <= sortedHashes[b]
        {
          if sortedHashes[i] > sortedHashes[j] {
            SwapKeeps(sortedHashes, i, j);
            sortedHashes := Swap(sortedHashes, i, j);
          }
        }
      }
    }

    // The loop does not end on a ring without enough owners (WalkEndsIff), so
    // that is what a caller has to establish.
    method GetNodes(key: string) returns (nodes: seq<string>)
      requires Valid()
      requires replicaFactor <= |nodeHashes.Values| || |nodeHashes.Values| == |nodeHashes|
      ensures IsReplicaList(nodeHashes, hash(key), replicaFactor, nodes)
      ensures Distinct(nodes)
    {
      if |sortedHashes| == 0 {
        EmptyRingList(nodeHashes, hash(key), replicaFactor);
        return [];
      }
      var from := hash(key);
      var start := FindStart(from);
      ghost var own := OwnersExist(nodeHashes, sortedHashes);
      ghost var k;
      nodes, k := Collect(nodeHashes, sortedHashes, start, replicaFactor, own);
      WalkResult(nodeHashes, sortedHashes, own, from, start, replicaFactor, k);
      WalkCollects(own, start, k);
    }

    method FindStart(from: Hash) returns (idx: nat)
      requires Valid() && |sortedHashes| > 0
      ensures IsStart(sortedHashes, from, idx)
    {
      idx := 0;
      for i := 0 to |sortedHashes|
        invariant idx == 0
        invariant forall j :: 0 <= j < i ==> sortedHashes[j] < from
      {
        if sortedHashes[i] >= from {
          return i;
        }
      }
    }
  }
}
