/**
 Quorum writes and reads over one replica list: what a call that succeeds or
 fails says about the nodes it tried, and when the nodes acknowledging a write
 must include one that answers a later read.
 */
module Quorums {
  import opened Maps
  import opened Walks

  // A quorum larger than the list is cut down to the list.
  function Clamp(q: int, n: nat): int {
    if q > n then n else q
  }

  // The listed nodes that answer.
  ghost function Reached<T>(nodes: seq<T>, up: set<T>): set<T> {
    set n | n in nodes && n in up
  }

  // No earlier position had quorum many nodes tried and acknowledged.
  ghost predicate StillWriting<T>(nodes: seq<T>, quorum: int, up: set<T>, tried: nat)
    requires tried <= |nodes|
  {
    forall j :: 0 <= j < tried ==> j < quorum || |Reached(nodes[..j], up)| < quorum
  }

  ghost predicate StillReading<T>(nodes: seq<T>, quorum: int, up: set<T>, tried: nat)
    requires tried <= |nodes|
  {
    forall j :: 0 <= j < tried ==> |Reached(nodes[..j], up)| < quorum
  }

  lemma WritingStep<T>(nodes: seq<T>, quorum: int, up: set<T>, tried: nat)
    requires tried < |nodes| && StillWriting(nodes, quorum, up, tried)
    requires tried < quorum || |Reached(nodes[..tried], up)| < quorum
    ensures StillWriting(nodes, quorum, up, tried + 1)
  {
  }

  lemma ReadingStep<T>(nodes: seq<T>, quorum: int, up: set<T>, tried: nat)
    requires tried < |nodes| && StillReading(nodes, quorum, up, tried)
    requires |Reached(nodes[..tried], up)| < quorum
    ensures StillReading(nodes, quorum, up, tried + 1)
  {
  }

  // A write tries the first `tried` nodes; it stops early only with quorum
  // many nodes tried and acknowledged, and as soon as that is so.
  ghost predicate IsWrite<T>(nodes: seq<T>, quorum: int, up: set<T>, tried: nat, acks: set<T>, ok: bool) {
    && tried <= |nodes|
    && acks == Reached(nodes[..tried], up)
    && (ok <==> |acks| >= quorum)
    && (tried < |nodes| ==> tried >= quorum && |acks| >= quorum)
    && StillWriting(nodes, quorum, up, tried)
  }

  // A read stops as soon as quorum many nodes have answered.
  ghost predicate IsRead<T>(nodes: seq<T>, quorum: int, up: set<T>, tried: nat, resp: set<T>, ok: bool) {
    && tried <= |nodes|
    && resp == Reached(nodes[..tried], up)
    && (ok <==> |resp| >= quorum)
    && (tried < |nodes| ==> |resp| >= quorum)
    && StillReading(nodes, quorum, up, tried)
  }

  lemma ReachedPrefix<T>(nodes: seq<T>, up: set<T>, j: nat)
    requires j <= |nodes|
    ensures Reached(nodes[..j], up) <= Reached(nodes, up) <= NodeSet(nodes)
    ensures |Reached(nodes[..j], up)| <= |Reached(nodes, up)|
  {
    SubsetSize(Reached(nodes[..j], up), Reached(nodes, up));
  }

  lemma ReachedStep<T>(nodes: seq<T>, up: set<T>, j: nat)
    requires Distinct(nodes) && j < |nodes|
    ensures Reached(nodes[..j + 1], up) == Reached(nodes[..j], up) + if nodes[j] in up then {nodes[j]} else {}
    ensures nodes[j] !in Reached(nodes[..j], up)
    ensures |Reached(nodes[..j + 1], up)| == |Reached(nodes[..j], up)| + if nodes[j] in up then 1 else 0
  {
    assert nodes[..j + 1] == nodes[..j] + [nodes[j]];
  }

  // A write succeeds exactly when quorum many replicas answer; one that fails has tried every replica.
  lemma WriteSucceedsIff<T>(nodes: seq<T>, quorum: int, up: set<T>, tried: nat, acks: set<T>, ok: bool)
    requires IsWrite(nodes, quorum, up, tried, acks, ok)
    ensures ok <==> |Reached(nodes, up)| >= quorum
    ensures !ok ==> tried == |nodes| && acks == Reached(nodes, up)
  {
    ReachedPrefix(nodes, up, tried);
    assert nodes[..|nodes|] == nodes;
  }

  lemma ReadSucceedsIff<T>(nodes: seq<T>, quorum: int, up: set<T>, tried: nat, resp: set<T>, ok: bool)
    requires IsRead(nodes, quorum, up, tried, resp, ok)
    ensures ok <==> |Reached(nodes, up)| >= quorum
    ensures !ok ==> tried == |nodes| && resp == Reached(nodes, up)
  {
    ReachedPrefix(nodes, up, tried);
    assert nodes[..|nodes|] == nodes;
  }

  // ---- Quorum intersection -----------------------------------------------------

  lemma Pigeonhole<T>(a: set<T>, b: set<T>, all: set<T>)
    requires a <= all && b <= all && |a| + |b| > |all|
    ensures a * b != {}
  {
    if a * b == {} {
      assert |a + b| == |a| + |b|;
      SubsetSize(a + b, all);
    }
  }

  // Every successful write over one list and every successful read over another,
  // each from a coordinator of its own and under any pattern of failures.  (Any
  // node that answers can be the coordinator, which answers itself.)
  ghost predicate AlwaysMeet(written: seq<string>, read: seq<string>, w: int, r: int) {
    forall upW: set<string>, upR: set<string>, triedW: nat, triedR: nat, acks: set<string>, resp: set<string> ::
      IsWrite(written, Clamp(w, |written|), upW, triedW, acks, true) &&
      IsRead(read, Clamp(r, |read|), upR, triedR, resp, true)
      ==> acks * resp != {}
  }

  // Enough answering nodes make a successful write, and it is theirs.
  lemma WriteRun(nodes: seq<string>, quorum: int, up: set<string>) returns (tried: nat, acks: set<string>)
    requires Distinct(nodes) && 0 <= quorum <= |Reached(nodes, up)|
    ensures IsWrite(nodes, quorum, up, tried, acks, true) && acks <= up * NodeSet(nodes)
  {
    assert nodes[..|nodes|] == nodes;
    SubsetSize(Reached(nodes, up), NodeSet(nodes));
    DistinctSize(nodes);
    tried := quorum;
    while |Reached(nodes[..tried], up)| < quorum
      invariant quorum <= tried <= |nodes| && StillWriting(nodes, quorum, up, tried)
      decreases |nodes| - tried
    {
      tried := tried + 1;
    }
    acks := Reached(nodes[..tried], up);
  }

  lemma ReadRun(nodes: seq<string>, quorum: int, up: set<string>) returns (tried: nat, resp: set<string>)
    requires Distinct(nodes) && 0 <= quorum <= |Reached(nodes, up)|
    ensures IsRead(nodes, quorum, up, tried, resp, true) && resp <= up * NodeSet(nodes)
  {
    assert nodes[..|nodes|] == nodes;
    tried := 0;
    while |Reached(nodes[..tried], up)| < quorum
      invariant tried <= |nodes| && StillReading(nodes, quorum, up, tried)
      decreases |nodes| - tried
    {
      tried := tried + 1;
    }
    resp := Reached(nodes[..tried], up);
  }

  // A successful write or read has exactly quorum many acknowledgements or responses.
  lemma WriteQuorumExact(nodes: seq<string>, quorum: int, up: set<string>, tried: nat, acks: set<string>)
    requires Distinct(nodes) && quorum >= 1 && IsWrite(nodes, quorum, up, tried, acks, true)
    ensures |acks| == quorum && acks <= NodeSet(nodes)
  {
    ReachedPrefix(nodes, up, tried);
    ReachedStep(nodes, up, tried - 1);
    DistinctSize(nodes[..tried]);
    SubsetSize(acks, NodeSet(nodes[..tried]));
  }

  lemma ReadQuorumExact(nodes: seq<string>, quorum: int, up: set<string>, tried: nat, resp: set<string>)
    requires Distinct(nodes) && quorum >= 1 && IsRead(nodes, quorum, up, tried, resp, true)
    ensures |resp| == quorum && resp <= NodeSet(nodes) && tried >= quorum
  {
    ReachedPrefix(nodes, up, tried);
    ReachedStep(nodes, up, tried - 1);
    DistinctSize(nodes[..tried]);
    SubsetSize(resp, NodeSet(nodes[..tried]));
  }

  lemma QuorumsMeet(
      nodes: seq<string>, w: int, r: int, upW: set<string>, upR: set<string>,
      triedW: nat, triedR: nat, acks: set<string>, resp: set<string>)
    requires Distinct(nodes) && nodes != [] && w >= 1 && r >= 1 && w + r > |nodes|
    requires IsWrite(nodes, Clamp(w, |nodes|), upW, triedW, acks, true)
    requires IsRead(nodes, Clamp(r, |nodes|), upR, triedR, resp, true)
    ensures acks * resp != {}
  {
    DistinctSize(nodes);
    ReachedPrefix(nodes, upW, triedW);
    ReachedPrefix(nodes, upR, triedR);
    Pigeonhole(acks, resp, NodeSet(nodes));
  }

  // Separate nodes to answer the write and the read keep them apart.
  lemma SeparateRuns(written: seq<string>, read: seq<string>, w: int, r: int, upW: set<string>, upR: set<string>)
    requires Distinct(written) && Distinct(read) && 1 <= w <= |written| && 1 <= r <= |read|
    requires |Reached(written, upW)| >= w && |Reached(read, upR)| >= r && upW * upR == {}
    ensures !AlwaysMeet(written, read, w, r)
  {
    var triedW, acks := WriteRun(written, w, upW);
    var triedR, resp := ReadRun(read, r, upR);
    assert acks * resp == {};
    assert Clamp(w, |written|) == w && Clamp(r, |read|) == r;
  }

  // Positive quorums on a non-empty list always meet exactly when they add up to more than the list.
  lemma AlwaysMeetIff(nodes: seq<string>, w: int, r: int)
    requires Distinct(nodes) && nodes != [] && w >= 1 && r >= 1
    ensures AlwaysMeet(nodes, nodes, w, r) <==> w + r > |nodes|
  {
    if w + r > |nodes| {
      forall upW: set<string>, upR: set<string>, triedW: nat, triedR: nat, acks: set<string>, resp: set<string> |
        IsWrite(nodes, Clamp(w, |nodes|), upW, triedW, acks, true) &&
        IsRead(nodes, Clamp(r, |nodes|), upR, triedR, resp, true)
        ensures acks * resp != {}
      {
        QuorumsMeet(nodes, w, r, upW, upR, triedW, triedR, acks, resp);
      }
    } else {
      var upW, upR := NodeSet(nodes[..w]), NodeSet(nodes[w..]);
      ReachedSlice(nodes, 0, w);
      ReachedSlice(nodes, w, |nodes|);
      DistinctHalves(nodes, w, w);
      SeparateRuns(nodes, nodes, w, r, upW, upR);
    }
  }

  lemma DistinctHalves<T>(nodes: seq<T>, i: nat, j: nat)
    requires Distinct(nodes) && i <= j <= |nodes|
    ensures NodeSet(nodes[..i]) * NodeSet(nodes[j..]) == {}
  {
  }

  lemma ReachedSlice<T>(nodes: seq<T>, i: nat, j: nat)
    requires Distinct(nodes) && i <= j <= |nodes|
    ensures Reached(nodes, NodeSet(nodes[i..j])) == NodeSet(nodes[i..j])
    ensures |NodeSet(nodes[i..j])| == j - i
    ensures i == 0 ==> nodes[i..j] == nodes[..j]
    ensures j == |nodes| ==> nodes[i..j] == nodes[i..]
  {
    DistinctSize(nodes[i..j]);
  }

  // ---- One coordinator ---------------------------------------------------------

  // As AlwaysMeet, with the same replica coordinating the write and the read.
  ghost predicate MeetFrom(nodes: seq<string>, self: string, w: int, r: int) {
    forall upW: set<string>, upR: set<string>, triedW: nat, triedR: nat, acks: set<string>, resp: set<string> ::
      self in upW && self in upR &&
      IsWrite(nodes, Clamp(w, |nodes|), upW, triedW, acks, true) &&
      IsRead(nodes, Clamp(r, |nodes|), upR, triedR, resp, true)
      ==> acks * resp != {}
  }

  // The coordinator takes part itself if it is listed before the quorum is full.
  lemma CoordinatorTakesPart(nodes: seq<string>, c: nat, w: int, r: int, upW: set<string>, upR: set<string>,
      triedW: nat, triedR: nat, acks: set<string>, resp: set<string>)
    requires Distinct(nodes) && c < |nodes| && c < w && c < r && nodes[c] in upW && nodes[c] in upR
    requires IsWrite(nodes, Clamp(w, |nodes|), upW, triedW, acks, true)
    requires IsRead(nodes, Clamp(r, |nodes|), upR, triedR, resp, true)
    ensures nodes[c] in acks && nodes[c] in resp
  {
    ReadQuorumExact(nodes, Clamp(r, |nodes|), upR, triedR, resp);
    assert nodes[..triedW][c] == nodes[c] && nodes[..triedR][c] == nodes[c];
  }

  // The first k nodes answer, and one more that comes later.
  lemma FirstsRespond(nodes: seq<string>, k: nat, c: nat)
    requires Distinct(nodes) && 1 <= k <= c < |nodes|
    ensures var up, first := NodeSet(nodes[..k]) + {nodes[c]}, NodeSet(nodes[..k]);
            IsWrite(nodes, k, up, k, first, true) && IsRead(nodes, k, up, k, first, true)
  {
    var up, first := NodeSet(nodes[..k]) + {nodes[c]}, NodeSet(nodes[..k]);
    assert nodes[c] !in nodes[..k];
    assert Reached(nodes[..k], up) == first;
    DistinctSize(nodes[..k]);
    forall j | 0 <= j < k ensures |Reached(nodes[..j], up)| < k {
      SubsetSize(Reached(nodes[..j], up), NodeSet(nodes[..j]));
      DistinctSize(nodes[..j]);
    }
  }

  lemma RunsApart(nodes: seq<string>, self: string, w: nat, r: nat, upW: set<string>, upR: set<string>,
      triedW: nat, triedR: nat, acks: set<string>, resp: set<string>)
    requires w <= |nodes| && r <= |nodes| && self in upW && self in upR && acks * resp == {}
    requires IsWrite(nodes, w, upW, triedW, acks, true) && IsRead(nodes, r, upR, triedR, resp, true)
    ensures !MeetFrom(nodes, self, w, r)
  {
    assert Clamp(w, |nodes|) == w && Clamp(r, |nodes|) == r;
  }

  // The coordinator and all nodes from position k on, but none before.
  lemma FromPosition(nodes: seq<string>, k: nat, c: nat)
    requires Distinct(nodes) && k <= c < |nodes|
    ensures nodes[c] in NodeSet(nodes[k..]) && |Reached(nodes, NodeSet(nodes[k..]))| == |nodes| - k
    ensures NodeSet(nodes[..k]) * NodeSet(nodes[k..]) == {}
  {
    ReachedSlice(nodes, k, |nodes|);
    DistinctHalves(nodes, k, k);
    assert nodes[c] == nodes[k..][c - k];
  }

  // One call stops before the coordinator, the other is answered by it and later nodes.
  lemma WriteStopsBefore(nodes: seq<string>, c: nat, w: nat, r: nat)
    requires Distinct(nodes) && 1 <= w <= c < |nodes| && 1 <= r && w + r <= |nodes|
    ensures !MeetFrom(nodes, nodes[c], w, r)
  {
    var first, others := NodeSet(nodes[..w]), NodeSet(nodes[w..]);
    FirstsRespond(nodes, w, c);
    FromPosition(nodes, w, c);
    var tried, resp := ReadRun(nodes, r, others);
    assert first * resp == {};
    RunsApart(nodes, nodes[c], w, r, first + {nodes[c]}, others, w, tried, first, resp);
  }

  lemma ReadStopsBefore(nodes: seq<string>, c: nat, w: nat, r: nat)
    requires Distinct(nodes) && 1 <= r <= c < |nodes| && 1 <= w && w + r <= |nodes|
    ensures !MeetFrom(nodes, nodes[c], w, r)
  {
    var first, others := NodeSet(nodes[..r]), NodeSet(nodes[r..]);
    FirstsRespond(nodes, r, c);
    FromPosition(nodes, r, c);
    var tried, acks := WriteRun(nodes, w, others);
    assert acks * first == {};
    RunsApart(nodes, nodes[c], w, r, others, first + {nodes[c]}, tried, r, acks, first);
  }

  // Calls from the replica at position c meet whatever fails exactly when the
  // quorums add up to more than the list, or both reach past that replica.
  lemma OneCoordinatorMeetsIff(nodes: seq<string>, c: nat, w: int, r: int)
    requires Distinct(nodes) && c < |nodes| && w >= 1 && r >= 1
    ensures MeetFrom(nodes, nodes[c], w, r) <==> w + r > |nodes| || (c < w && c < r)
  {
    var self := nodes[c];
    if w + r > |nodes| || (c < w && c < r) {
      forall upW: set<string>, upR: set<string>, triedW: nat, triedR: nat, acks: set<string>, resp: set<string> |
        self in upW && self in upR &&
        IsWrite(nodes, Clamp(w, |nodes|), upW, triedW, acks, true) &&
        IsRead(nodes, Clamp(r, |nodes|), upR, triedR, resp, true)
        ensures acks * resp != {}
      {
        if w + r > |nodes| {
          QuorumsMeet(nodes, w, r, upW, upR, triedW, triedR, acks, resp);
        } else {
          CoordinatorTakesPart(nodes, c, w, r, upW, upR, triedW, triedR, acks, resp);
          assert self in acks * resp;
        }
      }
    } else {
      if c >= w { WriteStopsBefore(nodes, c, w, r); } else { ReadStopsBefore(nodes, c, w, r); }
    }
  }

  // ---- Across a join -----------------------------------------------------------

  lemma JoinKeepsMost(list: seq<string>, list': seq<string>, x: string, p: nat)
    requires p < |list| && list' == list[..p] + [x] + list[p..|list| - 1]
    requires Distinct(list) && x !in list
    ensures Distinct(list') && |list'| == |list|
    ensures NodeSet(list') == NodeSet(list) - {list[|list| - 1]} + {x}
  {
    var n := |list|;
    assert forall i :: 0 <= i < n ==> list'[i] == if i < p then list[i] else if i == p then x else list[i - 1];
    forall m | m in NodeSet(list) - {list[n - 1]} ensures m in list' {
      var i :| 0 <= i < n && list[i] == m;
      assert list'[if i < p then i else i + 1] == m;
    }
    assert list'[p] == x;
    forall m | m in list' ensures m in NodeSet(list) - {list[n - 1]} + {x} {
      var i :| 0 <= i < n && list'[i] == m;
    }
  }

  lemma SharesAcrossChange(
      olds: set<string>, news: set<string>, gone: string, x: string, acks: set<string>, resp: set<string>)
    requires gone in olds && x !in olds && news == olds - {gone} + {x}
    requires acks <= olds && resp <= news && |acks| + |resp| >= |olds| + 2
    ensures acks * resp != {}
  {
    SubsetSize(resp, (resp - {x}) + {x});
    Pigeonhole(acks, resp - {x}, olds);
  }

  lemma DisjointAcrossChange(olds: set<string>, news: set<string>, gone: string, x: string, w: nat, r: nat)
    returns (acks: set<string>, resp: set<string>)
    requires gone in olds && x !in olds && news == olds - {gone} + {x}
    requires 1 <= w <= |olds| && w + r <= |olds| + 1
    ensures acks <= olds && resp <= news && |acks| == w && |resp| == r && acks * resp == {}
  {
    var more := SubsetOfSize(olds - {gone}, w - 1);
    acks := more + {gone};
    var rest := olds - {gone} - more;
    resp := SubsetOfSize(rest + {x}, r);
  }

  // After a join that changes a key's list, successful writes over the old list
  // and successful reads over the new one meet whatever fails exactly when the
  // quorums, cut down to the list, add up to its length and two: one more than
  // without the join.
  lemma JoinMeetIff(list: seq<string>, list': seq<string>, x: string, p: nat, w: int, r: int)
    requires p < |list| && list' == list[..p] + [x] + list[p..|list| - 1]
    requires Distinct(list) && x !in list
    requires w >= 1 && r >= 1
    ensures AlwaysMeet(list, list', w, r) <==> Clamp(w, |list|) + Clamp(r, |list|) >= |list| + 2
  {
    var n, gone := |list|, list[|list| - 1];
    JoinKeepsMost(list, list', x, p);
    DistinctSize(list);
    if Clamp(w, n) + Clamp(r, n) >= n + 2 {
      forall upW: set<string>, upR: set<string>, triedW: nat, triedR: nat, acks: set<string>, resp: set<string> |
        IsWrite(list, Clamp(w, n), upW, triedW, acks, true) && IsRead(list', Clamp(r, n), upR, triedR, resp, true)
        ensures acks * resp != {}
      {
        WriteQuorumExact(list, Clamp(w, n), upW, triedW, acks);
        ReadQuorumExact(list', Clamp(r, n), upR, triedR, resp);
        SharesAcrossChange(NodeSet(list), NodeSet(list'), gone, x, acks, resp);
      }
    } else {
      JoinApart(list, list', gone, x, Clamp(w, n), Clamp(r, n));
      assert AlwaysMeet(list, list', w, r) <==> AlwaysMeet(list, list', Clamp(w, n), Clamp(r, n));
    }
  }

  lemma JoinApart(list: seq<string>, list': seq<string>, gone: string, x: string, w: nat, r: nat)
    requires Distinct(list) && Distinct(list') && |list| == |list'| && 1 <= w <= |list| && 1 <= r <= |list|
    requires gone in list && x !in list && NodeSet(list') == NodeSet(list) - {gone} + {x}
    requires w + r <= |list| + 1
    ensures !AlwaysMeet(list, list', w, r)
  {
    DistinctSize(list);
    var acks, resp := DisjointAcrossChange(NodeSet(list), NodeSet(list'), gone, x, w, r);
    assert Reached(list, acks) == acks && Reached(list', resp) == resp;
    SeparateRuns(list, list', w, r, acks, resp);
  }

  lemma {:induction false} SubsetOfSize<T>(s: set<T>, k: nat) returns (t: set<T>)
    requires k <= |s|
    ensures t <= s && |t| == k
  {
    if k == 0 {
      t := {};
    } else {
      var x :| x in s;
      var u := SubsetOfSize(s - {x}, k - 1);
      t := u + {x};
    }
  }
}
