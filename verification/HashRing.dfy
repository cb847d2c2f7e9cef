/**
 The consistent-hash ring: clockwise distance, replica lists, the sorted hash
 list, and placing a node's virtual nodes.

 Replica lists are defined without positions or indices: a node's distance is
 the smallest clockwise distance from the key to one of the node's hashes, and a
 replica list is the nearest owners in order of distance.
 */
module HashRing {
  import opened Maps
  import opened Walks

  const SPACE: int := 0x1_0000_0000

  // The 32-bit values the hash function yields.
  type Hash = h: int | 0 <= h < SPACE

  type Ring = map<Hash, string>

  // ---- Clockwise distance --------------------------------------------------

  function Clockwise(from: Hash, h: Hash): int {
    if from <= h then h - from else h - from + SPACE
  }

  // v is the clockwise distance from `from` to the nearest hash of node n.
  ghost predicate IsDistance(ring: Ring, from: Hash, n: string, v: int) {
    && (exists h :: h in ring && ring[h] == n && v == Clockwise(from, h))
    && (forall h :: h in ring && ring[h] == n ==> v <= Clockwise(from, h))
  }

  ghost predicate IsDistances(ring: Ring, from: Hash, d: map<string, int>) {
    && d.Keys == ring.Values
    && forall n :: n in d ==> IsDistance(ring, from, n, d[n])
  }

  ghost predicate IsNearest(ring: Ring, from: Hash, n: string, h: Hash) {
    && h in ring && ring[h] == n
    && forall g :: g in ring && ring[g] == n ==> Clockwise(from, h) <= Clockwise(from, g)
  }

  lemma {:induction false} NearestExists(ring: Ring, from: Hash, n: string) returns (h: Hash)
    requires n in ring.Values
    ensures IsNearest(ring, from, n, h)
    decreases |ring|
  {
    h :| h in ring && ring[h] == n;
    var rest := ring - {h};
    assert ring.Keys == rest.Keys + {h};
    if n in rest.Values {
      var g := NearestExists(rest, from, n);
      if Clockwise(from, g) < Clockwise(from, h) {
        h := g;
      }
    } else {
      assert forall g :: g in ring && g != h ==> g in rest && rest[g] == ring[g];
    }
  }

  ghost function Nearest(ring: Ring, from: Hash, n: string): (h: Hash)
    requires n in ring.Values
    ensures IsNearest(ring, from, n, h)
  {
    assert exists h :: IsNearest(ring, from, n, h) by {
      var h := NearestExists(ring, from, n);
    }
    var h :| IsNearest(ring, from, n, h);
    h
  }

  ghost function Distances(ring: Ring, from: Hash): map<string, int> {
    DistancesExist(ring, from);
    var d :| IsDistances(ring, from, d);
    d
  }

  lemma DistancesExist(ring: Ring, from: Hash)
    ensures exists d :: IsDistances(ring, from, d)
  {
    var d := map n | n in ring.Values :: Clockwise(from, Nearest(ring, from, n));
    forall n | n in d ensures IsDistance(ring, from, n, d[n]) {
      assert IsNearest(ring, from, n, Nearest(ring, from, n));
    }
    assert IsDistances(ring, from, d);
  }

  lemma DistancesAre(ring: Ring, from: Hash)
    ensures IsDistances(ring, from, Distances(ring, from))
  {
    DistancesExist(ring, from);
  }

  lemma DistancesInjective(ring: Ring, from: Hash, d: map<string, int>)
    requires IsDistances(ring, from, d)
    ensures Injective(d)
  {
    forall a, b | a in d && b in d && a != b ensures d[a] != d[b] {
      OwnersApart(ring, from, a, d[a], b, d[b]);
    }
  }

  lemma OwnersApart(ring: Ring, from: Hash, a: string, v: int, b: string, w: int)
    requires IsDistance(ring, from, a, v) && IsDistance(ring, from, b, w) && a != b
    ensures v != w
  {
    var g :| g in ring && ring[g] == a && v == Clockwise(from, g);
    var h :| h in ring && ring[h] == b && w == Clockwise(from, h);
    assert g != h;
  }

  // The first rf distinct owners met going clockwise from `from`.
  ghost predicate IsReplicaList(ring: Ring, from: Hash, rf: nat, list: seq<string>) {
    NearestFirst(Distances(ring, from), rf, list)
  }

  // ---- The hash list -----------------------------------------------------------

  ghost predicate Sorted(hs: seq<Hash>) {
    forall i, j :: 0 <= i < j < |hs| ==> hs[i] <= hs[j]
  }

  // What AddNode keeps: the list is sorted and lists exactly the placed hashes.
  // A hash placed twice is listed twice.
  ghost predicate RingOk(ring: Ring, hs: seq<Hash>) {
    && Sorted(hs)
    && HashSet(hs) == ring.Keys
  }

  function HashSet(hs: seq<Hash>): set<Hash> {
    set h | h in hs
  }

  // Index of the first hash at or after `from`; 0 if there is none.
  ghost predicate IsStart(hs: seq<Hash>, from: Hash, start: nat) {
    && start < |hs|
    && (forall i :: 0 <= i < start ==> hs[i] < from)
    && (start > 0 ==> hs[start] >= from)
    && (start == 0 ==> hs[0] >= from || forall i :: 0 <= i < |hs| ==> hs[i] < from)
  }

  // own lists the owners of the listed hashes, in the same order.
  ghost predicate IsOwners(ring: Ring, hs: seq<Hash>, own: seq<string>) {
    && |own| == |hs|
    && forall i :: 0 <= i < |hs| ==> hs[i] in ring && own[i] == ring[hs[i]]
  }

  lemma {:induction false} OwnersExist(ring: Ring, hs: seq<Hash>) returns (own: seq<string>)
    requires HashSet(hs) <= ring.Keys
    ensures IsOwners(ring, hs, own)
  {
    if hs == [] {
      own := [];
    } else {
      var n := |hs| - 1;
      assert hs[n] in HashSet(hs);
      var front := OwnersExist(ring, hs[..n]);
      own := front + [ring[hs[n]]];
    }
  }

  // ---- Placing virtual nodes -----------------------------------------------

  function Decimal(n: nat): string {
    if n < 10 then [(n as char) + '0'] else Decimal(n / 10) + [(n % 10) as char + '0']
  }

  // The string hashed for the i-th virtual node.
  function VirtualKey(node: string, i: nat): string {
    node + ":" + Decimal(i)
  }

  // The number a list of digits is read as.
  function Parsed(s: string): int {
    if s == [] then 0 else 10 * Parsed(s[..|s| - 1]) + (s[|s| - 1] as int - '0' as int)
  }

  lemma {:induction false} DecimalParses(n: nat)
    ensures Parsed(Decimal(n)) == n && forall c :: c in Decimal(n) ==> '0' <= c <= '9'
  {
    if n >= 10 {
      DecimalParses(n / 10);
      assert Decimal(n)[..|Decimal(n)| - 1] == Decimal(n / 10);
    } else {
      assert Decimal(n)[..0] == [];
    }
  }

  // The last colon splits both in the same place.
  lemma SplitAt<T>(a: seq<T>, s: seq<T>, b: seq<T>, t: seq<T>, colon: T)
    requires colon !in s && colon !in t && a + [colon] + s == b + [colon] + t
    ensures a == b && s == t
  {
    var left, right := a + [colon] + s, b + [colon] + t;
    assert left[|a|] == colon && right[|b|] == colon;
    assert forall k :: |a| < k < |left| ==> left[k] == s[k - |a| - 1];
    assert forall k :: |b| < k < |right| ==> right[k] == t[k - |b| - 1];
    assert a == left[..|a|] && b == right[..|b|];
    assert s == left[|a| + 1..] && t == right[|b| + 1..];
  }

  // Different virtual nodes are hashed under different keys.
  lemma VirtualKeysDiffer(a: string, i: nat, b: string, j: nat)
    requires VirtualKey(a, i) == VirtualKey(b, j)
    ensures a == b && i == j
  {
    DecimalParses(i);
    DecimalParses(j);
    SplitAt(a, Decimal(i), b, Decimal(j), ':');
  }

  // The ring after the first n virtual nodes of `node` are placed; a collision is overwritten.
  function Placed(hash: string -> Hash, ring: Ring, node: string, n: nat): Ring {
    if n == 0 then ring
    else Placed(hash, ring, node, n - 1)[hash(VirtualKey(node, n - 1)) := node]
  }

  function VirtualHashes(hash: string -> Hash, node: string, n: nat): (hs: seq<Hash>)
    ensures |hs| == n && forall i :: 0 <= i < n ==> hs[i] == hash(VirtualKey(node, i))
  {
    if n == 0 then [] else VirtualHashes(hash, node, n - 1) + [hash(VirtualKey(node, n - 1))]
  }

  lemma {:induction false} PlacedAt(hash: string -> Hash, ring: Ring, node: string, n: nat)
    ensures forall h :: h in Placed(hash, ring, node, n) <==> h in ring || h in VirtualHashes(hash, node, n)
    ensures forall h :: h in Placed(hash, ring, node, n) ==>
      Placed(hash, ring, node, n)[h] == if h in VirtualHashes(hash, node, n) then node else ring[h]
  {
    if n > 0 {
      PlacedAt(hash, ring, node, n - 1);
      assert VirtualHashes(hash, node, n) == VirtualHashes(hash, node, n - 1) + [hash(VirtualKey(node, n - 1))];
    }
  }
}
