/**
 The cluster manager: membership, the ring it feeds, and quorum writes and
 reads.  Remote calls are an oracle: the set of nodes that would answer.
 */
module Cluster {
  import opened HashRing
  import opened Maps
  import opened Outcomes
  import opened Partitioner
  import opened Quorums
  import opened RingChanges
  import opened RingWalk
  import opened Walks

  const VIRTUAL_NODES: nat := 150

  datatype NodeStatus = Active | Draining
  datatype ClusterNode = ClusterNode(address: string, status: NodeStatus)

  datatype ReadResult<D> = ReadOk(data: Option<D>) | ReadFailed(got: nat, quorum: int)

  // The members that answer a call: the local node and the remote nodes of the oracle.
  ghost function Answering<N>(self: N, members: set<N>, remote: set<N>): set<N> {
    set n | n in members && (n == self || n in remote)
  }

  // The loop of WriteDataPoint over the replicas.
  method WriteToReplicas<N(==)>(replicas: seq<N>, self: N, members: set<N>, remote: set<N>, quorum: int)
    returns (ok: bool, tried: nat, ghost acks: set<N>)
    requires Distinct(replicas) && NodeSet(replicas) <= members
    ensures IsWrite(replicas, quorum, Answering(self, members, remote), tried, acks, ok)
    ensures ok <==> |Reached(replicas, Answering(self, members, remote))| >= quorum
    ensures !ok ==> tried == |replicas|
  {
    ghost var up := Answering(self, members, remote);
    var successCount := 0;
    tried := 0;
    while tried < |replicas|
      invariant tried <= |replicas|
      invariant successCount == |Reached(replicas[..tried], up)|
      invariant StillWriting(replicas, quorum, up, tried)
    {
      if tried >= quorum && successCount >= quorum {
        break;
      }
      var id := replicas[tried];
      assert id in NodeSet(replicas);
      ReachedStep(replicas, up, tried);
      WritingStep(replicas, quorum, up, tried);
      if id == self || (id in members && id in remote) {
        successCount := successCount + 1;
      }
      tried := tried + 1;
    }
    acks := Reached(replicas[..tried], up);
    ok := successCount >= quorum;
    WriteSucceedsIff(replicas, quorum, up, tried, acks, ok);
  }

  // A local read, or a remote one; a node that is not a member cannot be reached.
  method ReadOne<N(==), D>(id: N, self: N, members: set<N>, answers: map<N, D>)
    returns (got: bool, data: Option<D>)
    ensures got <==> id == self || (id in members && id in answers)
    ensures got && id == self ==> data == None
    ensures got && id != self ==> data == Some(answers[id])
  {
    if id == self {
      return true, None;
    }
    if id in members && id in answers {
      return true, Some(answers[id]);
    }
    return false, None;
  }

  // The loop of ReadDataPoints over the replicas.  The data are those of the first
  // replica to answer; the local node's own are not part of the answers.
  method ReadFromReplicas<N(==), D>(replicas: seq<N>, self: N, members: set<N>, answers: map<N, D>, quorum: nat)
    returns (result: ReadResult<D>, tried: nat, ghost resp: set<N>, ghost first: nat)
    requires Distinct(replicas) && NodeSet(replicas) <= members
    ensures IsRead(replicas, quorum, Answering(self, members, answers.Keys), tried, resp, result.ReadOk?)
    ensures first <= tried && forall i :: 0 <= i < first ==> replicas[i] != self && replicas[i] !in answers
    ensures first < tried ==> replicas[first] == self || replicas[first] in answers
    ensures result.ReadOk? ==>
      result.data == if first < tried && replicas[first] != self then Some(answers[replicas[first]]) else None
    ensures result.ReadFailed? ==> result.got == |resp| && result.quorum == quorum
  {
    ghost var up := Answering(self, members, answers.Keys);
    var responses: seq<Option<D>> := [];
    tried, first := 0, 0;
    while tried < |replicas|
      invariant tried <= |replicas|
      invariant |responses| == |Reached(replicas[..tried], up)|
      invariant first <= tried && forall i :: 0 <= i < first ==> replicas[i] != self && replicas[i] !in answers
      invariant responses == [] <==> first == tried
      invariant first < tried ==>
        && (replicas[first] == self || replicas[first] in answers)
        && responses[0] == if replicas[first] == self then None else Some(answers[replicas[first]])
      invariant StillReading(replicas, quorum, up, tried)
    {
      if |responses| >= quorum {
        break;
      }
      ReadNext(replicas, self, members, answers.Keys, quorum, tried);
      var got, data := ReadOne(replicas[tried], self, members, answers);
      if got {
        responses := responses + [data];
      } else if first == tried {
        first := first + 1;
      }
      tried := tried + 1;
    }
    resp := Reached(replicas[..tried], up);
    if |responses| < quorum {
      result := ReadFailed(|responses|, quorum);
    } else {
      result := ReadOk(First(responses).GetOr(None));
    }
  }

  lemma ReadNext<N>(replicas: seq<N>, self: N, members: set<N>, remote: set<N>, quorum: nat, tried: nat)
    requires Distinct(replicas) && NodeSet(replicas) <= members && tried < |replicas|
    requires StillReading(replicas, quorum, Answering(self, members, remote), tried)
    requires |Reached(replicas[..tried], Answering(self, members, remote))| < quorum
    ensures StillReading(replicas, quorum, Answering(self, members, remote), tried + 1)
    ensures replicas[tried] in members
    ensures |Reached(replicas[..tried + 1], Answering(self, members, remote))|
            == |Reached(replicas[..tried], Answering(self, members, remote))|
               + if replicas[tried] == self || replicas[tried] in remote then 1 else 0
  {
    assert replicas[tried] in NodeSet(replicas);
    ReachedStep(replicas, Answering(self, members, remote), tried);
    ReadingStep(replicas, quorum, Answering(self, members, remote), tried);
  }

  // mergeReadResponses hands back the first response, if there is one.
  function First<D>(responses: seq<D>): Option<D> {
    if |responses| > 0 then Some(responses[0]) else None
  }

  class ClusterManager {
    const nodeID: string
    const readQuorum: int
    const writeQuorum: int
    const partitioner: ConsistentHashPartitioner
    var nodes: map<string, ClusterNode>
    ghost var joined: seq<string>  // the members in the order they were added

    ghost predicate Valid()
      reads this, partitioner
    {
      && partitioner.Valid() && partitioner.virtualNodes == VIRTUAL_NODES
      && Distinct(joined) && nodeID in joined
      && NodeSet(joined) == nodes.Keys
      && partitioner.nodeHashes == RingOf(partitioner.hash, VIRTUAL_NODES, joined)
    }

    constructor (nodeID: string, address: string, factor: nat, readQuorum: int, writeQuorum: int, hash: string -> Hash)
      ensures Valid() && fresh(partitioner)
      ensures joined == [nodeID] && nodes == map[nodeID := ClusterNode(address, Active)]
      ensures this.nodeID == nodeID && this.readQuorum == readQuorum && this.writeQuorum == writeQuorum
      ensures partitioner.replicaFactor == factor && partitioner.hash == hash
      ensures partitioner.nodeHashes == Placed(hash, map[], nodeID, 150)
    {
      this.nodeID, this.readQuorum, this.writeQuorum := nodeID, readQuorum, writeQuorum;
      var p := new ConsistentHashPartitioner(factor, VIRTUAL_NODES, hash);
      this.partitioner := p;
      this.nodes := map[nodeID := ClusterNode(address, Active)];
      this.joined := [nodeID];
      new;
      p.AddNode(nodeID);
      assert joined == [] + [nodeID];
    }

    // A node that is already a member is refused.
    method AddNode(id: string, address: string) returns (ok: bool)
      requires Valid()
      modifies this, partitioner
      ensures Valid()
      ensures ok <==> id !in old(nodes)
      ensures nodes == if ok then old(nodes)[id := ClusterNode(address, Active)] else old(nodes)
      ensures joined == if ok then old(joined) + [id] else old(joined)
      ensures partitioner.nodeHashes ==
        if ok then Placed(partitioner.hash, old(partitioner.nodeHashes), id, 150) else old(partitioner.nodeHashes)
    {
      if id in nodes {
        return false;
      }
      nodes := nodes[id := ClusterNode(address, Active)];
      NodeSetAppend(joined, id);
      joined := joined + [id];
      assert joined[..|joined| - 1] == old(joined);
      partitioner.AddNode(id);
      ok := true;
    }

    // Marks the node; the ring, and so every replica list, stays as it is.
    method RemoveNode(id: string) returns (ok: bool)
      requires Valid()
      modifies this
      ensures Valid() && joined == old(joined)
      ensures ok <==> id in old(nodes)
      ensures nodes == if ok then old(nodes)[id := old(nodes)[id].(status := Draining)] else old(nodes)
    {
      if id !in nodes {
        return false;
      }
      nodes := nodes[id := nodes[id].(status := Draining)];
      ok := true;
    }

    method Replicas(key: string) returns (list: seq<string>)
      requires Valid() && Enough(partitioner.nodeHashes, partitioner.replicaFactor)
      ensures IsReplicaList(partitioner.nodeHashes, partitioner.hash(key), partitioner.replicaFactor, list)
      ensures Distinct(list) && NodeSet(list) <= nodes.Keys
    {
      list := partitioner.GetNodes(key);
      OwnersAreMembers(partitioner.hash, VIRTUAL_NODES, joined, partitioner.hash(key), partitioner.replicaFactor, list);
    }

    // Remote writes reach the nodes in `remote`; acks are the nodes that took the write.
    method WriteDataPoint(key: string, remote: set<string>)
      returns (ok: bool, list: seq<string>, tried: nat, ghost acks: set<string>)
      requires Valid() && Enough(partitioner.nodeHashes, partitioner.replicaFactor)
      ensures IsReplicaList(partitioner.nodeHashes, partitioner.hash(key), partitioner.replicaFactor, list)
      ensures IsWrite(list, Clamp(writeQuorum, |list|), Answering(nodeID, nodes.Keys, remote), tried, acks, ok)
      ensures ok <==>
        || |set n | n in list && (n == nodeID || n in remote)| >= writeQuorum
        || forall n :: n in list ==> n == nodeID || n in remote
      ensures acks == set n | n in list[..tried] && (n == nodeID || n in remote)
      ensures tried < |list| ==> ok && |acks| >= writeQuorum
    {
      list := Replicas(key);
      ok, tried, acks := WriteToReplicas(list, nodeID, nodes.Keys, remote, Clamp(writeQuorum, |list|));
      ghost var up := set n | n in list && (n == nodeID || n in remote);
      ghost var heard := set n | n in list[..tried] && (n == nodeID || n in remote);
      QuorumMeans(list, writeQuorum, nodeID, nodes.Keys, remote, up);
      PrefixListed(list, tried);
      ListedAnswer(list[..tried], nodeID, nodes.Keys, remote, heard);
    }

    // Remote reads reach the nodes in `answers`.  The response buffer is sized
    // by the quorum, which therefore cannot be negative.
    method ReadDataPoints<D>(key: string, answers: map<string, D>)
      returns (result: ReadResult<D>, list: seq<string>, tried: nat, ghost resp: set<string>, ghost first: nat)
      requires Valid() && Enough(partitioner.nodeHashes, partitioner.replicaFactor)
      requires readQuorum >= 0
      ensures IsReplicaList(partitioner.nodeHashes, partitioner.hash(key), partitioner.replicaFactor, list)
      ensures var up := Answering(nodeID, nodes.Keys, answers.Keys);
        IsRead(list, Clamp(readQuorum, |list|), up, tried, resp, result.ReadOk?)
      ensures result.ReadOk? <==>
        || |set n | n in list && (n == nodeID || n in answers)| >= readQuorum
        || forall n :: n in list ==> n == nodeID || n in answers
      ensures resp == set n | n in list[..tried] && (n == nodeID || n in answers)
      ensures first <= tried && forall i :: 0 <= i < first ==> list[i] != nodeID && list[i] !in answers
      ensures first < tried ==> list[first] == nodeID || list[first] in answers
      ensures result.ReadOk? ==>
        result.data == if first < tried && list[first] != nodeID then Some(answers[list[first]]) else None
      ensures result.ReadFailed? ==> result.got == |resp| && result.quorum == Clamp(readQuorum, |list|)
    {
      list := Replicas(key);
      result, tried, resp, first := ReadListed(list, answers);
    }

    method ReadListed<D>(list: seq<string>, answers: map<string, D>)
      returns (result: ReadResult<D>, tried: nat, ghost resp: set<string>, ghost first: nat)
      requires readQuorum >= 0 && Distinct(list) && NodeSet(list) <= nodes.Keys
      ensures IsRead(list, Clamp(readQuorum, |list|), Answering(nodeID, nodes.Keys, answers.Keys), tried, resp, result.ReadOk?)
      ensures result.ReadOk? <==>
        || |set n | n in list && (n == nodeID || n in answers)| >= readQuorum
        || forall n :: n in list ==> n == nodeID || n in answers
      ensures resp == set n | n in list[..tried] && (n == nodeID || n in answers)
      ensures first <= tried && forall i :: 0 <= i < first ==> list[i] != nodeID && list[i] !in answers
      ensures first < tried ==> list[first] == nodeID || list[first] in answers
      ensures result.ReadOk? ==>
        result.data == if first < tried && list[first] != nodeID then Some(answers[list[first]]) else None
      ensures result.ReadFailed? ==> result.got == |resp| && result.quorum == Clamp(readQuorum, |list|)
    {
      result, tried, resp, first := ReadFromReplicas(list, nodeID, nodes.Keys, answers, Clamp(readQuorum, |list|));
      ghost var up := set n | n in list && (n == nodeID || n in answers);
      ghost var heard := set n | n in list[..tried] && (n == nodeID || n in answers);
      ReadMeans(list, readQuorum, nodeID, nodes.Keys, answers.Keys, tried, resp, result.ReadOk?, up, heard);
    }
  }

  // A quorum cut down to the list: that many of it answer, or all of it.
  lemma QuorumMeans<N>(list: seq<N>, quorum: int, self: N, members: set<N>, remote: set<N>, up: set<N>)
    requires Distinct(list) && NodeSet(list) <= members
    requires forall n :: n in up <==> n in list && (n == self || n in remote)
    ensures Reached(list, Answering(self, members, remote)) == up
    ensures |up| >= Clamp(quorum, |list|) <==> |up| >= quorum || forall n :: n in list ==> n == self || n in remote
  {
    ListedAnswer(list, self, members, remote, up);
    assert forall n :: n in list <==> n in NodeSet(list);
    DistinctSize(list);
    SubsetSize(up, NodeSet(list));
    assert up == NodeSet(list) <==> forall n :: n in list ==> n == self || n in remote by {
      AllAnswer(list, self, remote, up);
    }
  }

  lemma AllAnswer<N>(list: seq<N>, self: N, remote: set<N>, up: set<N>)
    requires forall n :: n in up <==> n in list && (n == self || n in remote)
    ensures up == NodeSet(list) <==> forall n :: n in list ==> n == self || n in remote
  {
    if n :| n in list && !(n == self || n in remote) {
      assert n in NodeSet(list) && n !in up;
    } else {
      assert up == NodeSet(list);
    }
  }

  lemma ReadMeans<N>(list: seq<N>, quorum: int, self: N, members: set<N>, remote: set<N>,
      tried: nat, resp: set<N>, ok: bool, up: set<N>, heard: set<N>)
    requires Distinct(list) && NodeSet(list) <= members
    requires IsRead(list, Clamp(quorum, |list|), Answering(self, members, remote), tried, resp, ok)
    requires forall n :: n in up <==> n in list && (n == self || n in remote)
    requires forall n :: n in heard <==> n in list[..tried] && (n == self || n in remote)
    ensures ok <==> |up| >= quorum || forall n :: n in list ==> n == self || n in remote
    ensures resp == heard
  {
    ReadSucceedsIff(list, Clamp(quorum, |list|), Answering(self, members, remote), tried, resp, ok);
    QuorumMeans(list, quorum, self, members, remote, up);
    PrefixListed(list, tried);
    ListedAnswer(list[..tried], self, members, remote, heard);
  }

  lemma PrefixListed<N>(list: seq<N>, tried: nat)
    requires tried <= |list|
    ensures NodeSet(list[..tried]) <= NodeSet(list)
  {
  }

  lemma ListedAnswer<N>(list: seq<N>, self: N, members: set<N>, remote: set<N>, up: set<N>)
    requires NodeSet(list) <= members
    requires forall n :: n in up <==> n in list && (n == self || n in remote)
    ensures Reached(list, Answering(self, members, remote)) == up
  {
    assert forall n :: n in list ==> n in NodeSet(list);
  }

  // Every node of a replica list is a member.
  lemma OwnersAreMembers(hash: string -> Hash, vn: nat, joined: seq<string>, from: Hash, rf: nat, list: seq<string>)
    requires IsReplicaList(RingOf(hash, vn, joined), from, rf, list)
    ensures NodeSet(list) <= NodeSet(joined)
  {
    DistancesAre(RingOf(hash, vn, joined), from);
    RingOwners(hash, vn, joined);
  }

  lemma {:induction false} RingOwners(hash: string -> Hash, vn: nat, joined: seq<string>)
    ensures RingOf(hash, vn, joined).Values <= NodeSet(joined)
  {
    if joined != [] {
      var front, last := joined[..|joined| - 1], joined[|joined| - 1];
      RingOwners(hash, vn, front);
      PlacedAt(hash, RingOf(hash, vn, front), last, vn);
      assert joined == front + [last];
      NodeSetAppend(front, last);
      var before, after := RingOf(hash, vn, front), RingOf(hash, vn, joined);
      forall n | n in after.Values ensures n in NodeSet(joined) {
        var h :| h in after && after[h] == n;
        if n != last { assert before[h] in before.Values; }
      }
    }
  }

  // ---- When a call on the cluster ends ---------------------------------------

  lemma SharedOwner(ring: Ring, g: Hash, h: Hash)
    requires g in ring && h in ring && g != h && ring[g] == ring[h]
    ensures |ring.Values| < |ring|
  {
    var rest := ring - {g};
    assert ring.Keys == rest.Keys + {g};
    forall n | n in ring.Values ensures n in rest.Values {
      var k :| k in ring && ring[k] == n;
      assert rest[if k == g then h else k] == n;
    }
    SubsetSize(ring.Values, rest.Values);
    ValuesAtMostKeys(rest);
  }

  lemma MembersOwn(hash: string -> Hash, vn: nat, joined: seq<string>)
    requires vn >= 1 && CollisionFree(hash, vn, NodeSet(joined))
    ensures RingOf(hash, vn, joined).Values == NodeSet(joined)
  {
    RingOwners(hash, vn, joined);
    RingOfAt(hash, vn, joined);
    var ring := RingOf(hash, vn, joined);
    forall n | n in joined ensures n in ring.Values {
      var h := VirtualHashes(hash, n, vn)[0];
      assert h in VirtualHashes(hash, n, vn);
      assert h in ring && ring[h] == n;
    }
  }

  // With collision-free members, at least one of them with two different
  // virtual hashes, the walk of a read or write ends exactly when the cluster
  // has at least replication-factor many members.  So a new cluster, which has
  // one member, hangs on its first access for every factor above one.
  lemma ClusterWalkEndsIff(
      hash: string -> Hash, vn: nat, joined: seq<string>, member: string, i: nat, j: nat,
      hs: seq<Hash>, own: seq<string>, start: nat, rf: nat)
    requires Distinct(joined) && CollisionFree(hash, vn, NodeSet(joined))
    requires member in joined && i < vn && j < vn && hash(VirtualKey(member, i)) != hash(VirtualKey(member, j))
    requires RingOk(RingOf(hash, vn, joined), hs) && IsOwners(RingOf(hash, vn, joined), hs, own) && start < |hs|
    ensures (exists k: nat :: var n := |WalkAfter(own, start, k).nodes|; n >= rf || n >= |RingOf(hash, vn, joined)|)
            <==> rf <= |joined|
  {
    var ring := RingOf(hash, vn, joined);
    RingOfAt(hash, vn, joined);
    var vh := VirtualHashes(hash, member, vn);
    assert vh[i] in vh && vh[j] in vh;
    SharedOwner(ring, vh[i], vh[j]);
    MembersOwn(hash, vn, joined);
    DistinctSize(joined);
    WalkEndsIff(ring, hs, own, start, rf);
  }
}
