/**
 The two storage layers together, as values: what a range query may answer,
 and what adding, tiering and cleaning up do to the answers.
 */
module EngineState {
  import opened Points
  import opened HotState
  import opened HotRuns
  import opened WarmLog
  import opened WarmState

  datatype Engine = Engine(hot: Hot, warm: Warm)

  // ---- Answers ---------------------------------------------------------------------

  // An answer lists the timestamps of both layers once, in order; a timestamp
  // found in the warm layer carries a warm value, whatever the hot layer holds.
  ghost predicate IsAnswer(h: seq<DataPoint>, w: multiset<DataPoint>, r: seq<DataPoint>) {
    && Increasing(r)
    && (forall p :: p in r ==> p in w || (p in h && !HasTime(w, p.ts)))
    && (forall q :: q in w ==> Has(r, q.ts))
    && (forall p :: p in h ==> Has(r, p.ts))
  }

  ghost predicate HasTime(w: multiset<DataPoint>, t: int) {
    exists q :: q in w && q.ts == t
  }

  ghost function HotPoints(e: Engine, id: string): seq<DataPoint> {
    if id in e.hot.series then e.hot.series[id].points else []
  }

  ghost predicate Answers(e: Engine, id: string, start: int, end: int, r: seq<DataPoint>) {
    IsAnswer(InRange(HotPoints(e, id), start, end), RangeOf(FileBlocks(e.warm, id), start, end), r)
  }

  lemma AppendLast(h: seq<DataPoint>, w: seq<DataPoint>, p: DataPoint)
    requires p.ts in AsMap(h + w) && AsMap(h + w)[p.ts] == p.value
    ensures p in w || (p in h && forall q :: q in w ==> q.ts != p.ts)
  {
    AsMapAppend(h, w);
    if p.ts in AsMap(w) {
      AsMapMember(w, p);
    } else {
      AsMapMember(h, p);
      forall q | q in w ensures q.ts != p.ts {
        var i :| 0 <= i < |w| && w[i] == q;
        AsMapKeys(w, q.ts);
      }
    }
  }

  lemma {:induction false} AsMapMember(s: seq<DataPoint>, p: DataPoint)
    requires p.ts in AsMap(s) && AsMap(s)[p.ts] == p.value
    ensures p in s
  {
    var front, last := s[..|s| - 1], s[|s| - 1];
    if last.ts != p.ts {
      AsMapMember(front, p);
    } else {
      assert last == p;
    }
  }

  lemma HasIsKey(s: seq<DataPoint>, t: int)
    ensures Has(s, t) <==> t in AsMap(s)
  {
    AsMapKeys(s, t);
  }

  // Merging hot points followed by warm points, in any order of the latter, is an answer.
  lemma MergedIsAnswer(h: seq<DataPoint>, w: seq<DataPoint>, r: seq<DataPoint>)
    requires Increasing(r) && AsMap(r) == AsMap(h + w)
    ensures IsAnswer(h, multiset(w), r)
  {
    forall p | p in r ensures p in multiset(w) || (p in h && !HasTime(multiset(w), p.ts)) {
      var i :| 0 <= i < |r| && r[i] == p;
      IncreasingAt(r, i);
      AppendLast(h, w, p);
    }
    forall p | p in h + w ensures Has(r, p.ts) {
      var i :| 0 <= i < |h + w| && (h + w)[i] == p;
      AsMapKeys(h + w, p.ts);
      HasIsKey(r, p.ts);
    }
    assert forall q :: q in multiset(w) ==> q in h + w;
  }

  // The answer depends only on which points the warm layer yields.
  lemma SameMembers(h: seq<DataPoint>, w: multiset<DataPoint>, w': multiset<DataPoint>, r: seq<DataPoint>)
    requires forall p :: p in w <==> p in w'
    ensures IsAnswer(h, w, r) <==> IsAnswer(h, w', r)
  {
    forall t ensures HasTime(w, t) <==> HasTime(w', t) { }
  }

  // Hot points that the warm layer also yields do not change the answers.
  lemma CoveredHotPoints(h: seq<DataPoint>, w: multiset<DataPoint>, r: seq<DataPoint>)
    requires forall p :: p in h ==> p in w
    ensures IsAnswer(h, w, r) <==> IsAnswer([], w, r)
  {
  }

  // ---- One answer, or several --------------------------------------------------------

  ghost predicate OneValuePerTime(w: multiset<DataPoint>) {
    forall p, q :: p in w && q in w && p.ts == q.ts ==> p == q
  }

  lemma AnswerMembers(h: seq<DataPoint>, w: multiset<DataPoint>, a: seq<DataPoint>, b: seq<DataPoint>, p: DataPoint)
    requires Increasing(h) && OneValuePerTime(w) && IsAnswer(h, w, a) && IsAnswer(h, w, b) && p in a
    ensures p in b
  {
    assert Has(b, p.ts);
    var i :| 0 <= i < |b| && b[i].ts == p.ts;
    var q := b[i];
    assert q in b;
    if p !in w {
      assert q in h && p in h;
      OneHotPoint(h, p, q);
    }
  }

  lemma OneHotPoint(h: seq<DataPoint>, p: DataPoint, q: DataPoint)
    requires Increasing(h) && p in h && q in h && p.ts == q.ts
    ensures p == q
  {
    var i :| 0 <= i < |h| && h[i] == p;
    var j :| 0 <= j < |h| && h[j] == q;
  }

  lemma MembersMap(a: seq<DataPoint>, b: seq<DataPoint>, t: int)
    requires Increasing(a) && Increasing(b) && forall p :: p in a ==> p in b
    requires t in AsMap(a)
    ensures t in AsMap(b) && AsMap(b)[t] == AsMap(a)[t]
  {
    AsMapKeys(a, t);
    var i :| 0 <= i < |a| && a[i].ts == t;
    IncreasingAt(a, i);
    assert a[i] in b;
    var j :| 0 <= j < |b| && b[j] == a[i];
    IncreasingAt(b, j);
  }

  // With one warm value per timestamp a query has a single answer.
  lemma AnswerUnique(h: seq<DataPoint>, w: multiset<DataPoint>, a: seq<DataPoint>, b: seq<DataPoint>)
    requires Increasing(h) && OneValuePerTime(w) && IsAnswer(h, w, a) && IsAnswer(h, w, b)
    ensures a == b
  {
    forall p | p in a ensures p in b { AnswerMembers(h, w, a, b, p); }
    forall p | p in b ensures p in a { AnswerMembers(h, w, b, a, p); }
    forall t | t in AsMap(a) ensures t in AsMap(b) && AsMap(b)[t] == AsMap(a)[t] { MembersMap(a, b, t); }
    forall t | t in AsMap(b) ensures t in AsMap(a) { MembersMap(b, a, t); }
    assert AsMap(a) == AsMap(b);
    Canonical(a, b);
  }

  lemma {:induction false} Listing(w: multiset<DataPoint>) returns (s: seq<DataPoint>)
    ensures multiset(s) == w
    decreases |w|
  {
    if |w| == 0 {
      s := [];
    } else {
      var p :| p in w;
      var rest := Listing(w - multiset{p});
      s := rest + [p];
    }
  }

  // Every point the warm layer yields appears in some answer.
  lemma WarmPointAnswered(h: seq<DataPoint>, w: multiset<DataPoint>, q: DataPoint) returns (r: seq<DataPoint>)
    requires q in w
    ensures IsAnswer(h, w, r) && q in r
  {
    var listed := Listing(w);
    var ws := listed + [q];
    r := UnboundedRun(h + ws);
    UnboundedRunIs(h + ws);
    MergedIsAnswer(h, ws, r);
    OneMore(w, listed, q);
    SameMembers(h, multiset(ws), w, r);
    LastWins(h, listed, q);
    AsMapMember(r, q);
  }

  lemma OneMore(w: multiset<DataPoint>, listed: seq<DataPoint>, q: DataPoint)
    requires multiset(listed) == w && q in w
    ensures forall p :: p in multiset(listed + [q]) <==> p in w
  {
  }

  lemma LastWins(h: seq<DataPoint>, listed: seq<DataPoint>, q: DataPoint)
    ensures q.ts in AsMap(h + (listed + [q])) && AsMap(h + (listed + [q]))[q.ts] == q.value
  {
    assert h + (listed + [q]) == (h + listed) + [q];
    AsMapSnoc(h + listed, q);
  }

  // A hot point is returned by every answer exactly when no selected warm
  // point gives its timestamp another value: an overwrite made after tiering
  // stays hidden behind the tiered value.
  lemma HotValueReturnedIff(h: seq<DataPoint>, w: multiset<DataPoint>, p: DataPoint)
    requires Increasing(h) && p in h
    ensures (forall r :: IsAnswer(h, w, r) ==> p in r) <==> (forall q :: q in w && q.ts == p.ts ==> q == p)
  {
    if forall q :: q in w && q.ts == p.ts ==> q == p {
      forall r: seq<DataPoint> | IsAnswer(h, w, r) ensures p in r {
        assert Has(r, p.ts);
        var i :| 0 <= i < |r| && r[i].ts == p.ts;
        assert r[i] in r;
        if r[i] !in w {
          OneHotPoint(h, p, r[i]);
        }
      }
    } else {
      var q :| q in w && q.ts == p.ts && q != p;
      var r := WarmPointAnswered(h, w, q);
      if p in r {
        OneHotPoint(r, p, q);
      }
    }
  }

  // ---- Removing a tiered series from the hot layer -----------------------------------

  // The series' current points have been written as one block.
  ghost predicate IsTiered(e: Engine, id: string) {
    id in e.hot.series ==>
      e.hot.series[id].points != [] && BlockOf(id, e.hot.series[id].points) in FileBlocks(e.warm, id)
  }

  ghost function Dropped(e: Engine, id: string): Engine {
    e.(hot := e.hot.(series := e.hot.series - {id}))
  }

  // Dropping a tiered series from the hot layer changes no answer of a query
  // that starts no later than the series does.
  lemma DropInvisible(e: Engine, id: string, start: int, end: int, r: seq<DataPoint>)
    requires id in e.hot.series && IsTiered(e, id) && Increasing(e.hot.series[id].points)
    requires start <= e.hot.series[id].points[0].ts
    ensures Answers(e, id, start, end, r) <==> Answers(Dropped(e, id), id, start, end, r)
  {
    var points := e.hot.series[id].points;
    var h, w := InRange(points, start, end), RangeOf(FileBlocks(e.warm, id), start, end);
    forall p | p in h ensures p in w {
      InRangeMembers(points, start, end, p);
      RangeMembers(FileBlocks(e.warm, id), start, end, p);
      var i :| 0 <= i < |points| && points[i] == p;
      assert points[0].ts <= p.ts;
      assert PickedFrom(BlockOf(id, points), start, end, p);
    }
    CoveredHotPoints(h, w, r);
  }

  // ---- Layers that go away -----------------------------------------------------------

  lemma AnswerExists(h: seq<DataPoint>, w: multiset<DataPoint>) returns (r: seq<DataPoint>)
    ensures IsAnswer(h, w, r)
  {
    var listed := Listing(w);
    r := UnboundedRun(h + listed);
    UnboundedRunIs(h + listed);
    MergedIsAnswer(h, listed, r);
  }

  // The hot points can go exactly when the warm layer has all their timestamps.
  lemma HotGoneIff(h: seq<DataPoint>, w: multiset<DataPoint>)
    ensures (forall r :: IsAnswer(h, w, r) <==> IsAnswer([], w, r)) <==> forall p :: p in h ==> HasTime(w, p.ts)
  {
    if p :| p in h && !HasTime(w, p.ts) {
      var r := AnswerExists([], w);
      AnswerTime(w, r, p.ts);
    }
  }

  lemma AnswerTime(w: multiset<DataPoint>, r: seq<DataPoint>, t: int)
    requires IsAnswer([], w, r)
    ensures Has(r, t) ==> HasTime(w, t)
  {
    if Has(r, t) {
      var i :| 0 <= i < |r| && r[i].ts == t;
      assert r[i] in r;
    }
  }

  // The warm points can go exactly when the hot layer holds all of them.
  lemma WarmGoneIff(h: seq<DataPoint>, w: multiset<DataPoint>)
    requires Increasing(h)
    ensures (forall r :: IsAnswer(h, w, r) <==> IsAnswer(h, multiset{}, r)) <==> forall q :: q in w ==> q in h
  {
    if q :| q in w && q !in h {
      var r := WarmPointAnswered(h, w, q);
      assert !IsAnswer(h, multiset{}, r);
    } else {
      forall r ensures IsAnswer(h, w, r) <==> IsAnswer(h, multiset{}, r) {
        WarmHeld(h, w, r);
      }
    }
  }

  lemma WarmHeld(h: seq<DataPoint>, w: multiset<DataPoint>, r: seq<DataPoint>)
    requires Increasing(h) && forall q :: q in w ==> q in h
    ensures IsAnswer(h, w, r) <==> IsAnswer(h, multiset{}, r)
  {
    if IsAnswer(h, multiset{}, r) {
      forall p | p in r && HasTime(w, p.ts) ensures p in w {
        var q :| q in w && q.ts == p.ts;
        OneHotPoint(h, p, q);
      }
    }
  }

  // Both can go exactly when there was nothing.
  lemma BothGoneIff(h: seq<DataPoint>, w: multiset<DataPoint>)
    ensures (forall r :: IsAnswer(h, w, r) <==> IsAnswer([], multiset{}, r)) <==> h == [] && w == multiset{}
  {
    assert IsAnswer([], multiset{}, []);
    if h != [] {
      assert h[0] in h && !Has([], h[0].ts);
    } else if q :| q in w {
      assert !Has([], q.ts);
    }
    assert !IsAnswer(h, w, []) ==> !(forall r :: IsAnswer(h, w, r) <==> IsAnswer([], multiset{}, r));
  }

  ghost predicate HoldsTime(b: Block, t: int) {
    exists p :: p in b.points && p.ts == t
  }

  // Some block of the file that starts in the range has a point at t.
  ghost predicate Supplied(blocks: seq<Block>, start: int, end: int, t: int) {
    exists b :: b in blocks && start <= b.start <= end && HoldsTime(b, t)
  }

  lemma SuppliedIs(blocks: seq<Block>, start: int, end: int, t: int)
    requires start <= t <= end
    ensures HasTime(RangeOf(blocks, start, end), t) <==> Supplied(blocks, start, end, t)
  {
    if HasTime(RangeOf(blocks, start, end), t) {
      var q :| q in RangeOf(blocks, start, end) && q.ts == t;
      RangeMembers(blocks, start, end, q);
    }
    if Supplied(blocks, start, end, t) {
      var b :| b in blocks && start <= b.start <= end && HoldsTime(b, t);
      var q :| q in b.points && q.ts == t;
      assert PickedFrom(b, start, end, q);
      RangeMembers(blocks, start, end, q);
    }
  }

  ghost predicate AllSupplied(points: seq<DataPoint>, blocks: seq<Block>, start: int, end: int) {
    forall p :: p in points && start <= p.ts <= end ==> Supplied(blocks, start, end, p.ts)
  }

  lemma AllSuppliedIs(points: seq<DataPoint>, blocks: seq<Block>, start: int, end: int)
    ensures AllSupplied(points, blocks, start, end)
      <==> forall p :: p in InRange(points, start, end) ==> HasTime(RangeOf(blocks, start, end), p.ts)
  {
    forall p ensures p in InRange(points, start, end) <==> p in points && start <= p.ts <= end {
      InRangeMembers(points, start, end, p);
    }
    forall p | p in points && start <= p.ts <= end
      ensures HasTime(RangeOf(blocks, start, end), p.ts) <==> Supplied(blocks, start, end, p.ts)
    {
      SuppliedIs(blocks, start, end, p.ts);
    }
  }

  // For every file: a series can leave the hot layer without changing an answer
  // exactly when each of its timestamps in the range is in a block that starts
  // in the range.  A query that starts inside a block misses the block.
  lemma DropInvisibleIff(e: Engine, id: string, start: int, end: int)
    requires id in e.hot.series
    ensures (forall r :: Answers(e, id, start, end, r) <==> Answers(Dropped(e, id), id, start, end, r))
      <==> AllSupplied(e.hot.series[id].points, FileBlocks(e.warm, id), start, end)
  {
    var points, blocks := e.hot.series[id].points, FileBlocks(e.warm, id);
    var h, w := InRange(points, start, end), RangeOf(blocks, start, end);
    assert HotPoints(Dropped(e, id), id) == [];
    HotGoneIff(h, w);
    AllSuppliedIs(points, blocks, start, end);
    assert forall r :: Answers(e, id, start, end, r) <==> IsAnswer(h, w, r);
    assert forall r :: Answers(Dropped(e, id), id, start, end, r) <==> IsAnswer([], w, r);
  }

  // Tiered any number of times, and nothing else in the file: every query that
  // starts no later than the series, or finds nothing of it.
  lemma RetieredDropIff(e: Engine, id: string, start: int, end: int)
    requires id in e.hot.series && Increasing(e.hot.series[id].points) && e.hot.series[id].points != []
    requires FileBlocks(e.warm, id) != []
    requires forall b :: b in FileBlocks(e.warm, id) ==> b == BlockOf(id, e.hot.series[id].points)
    ensures (forall r :: Answers(e, id, start, end, r) <==> Answers(Dropped(e, id), id, start, end, r))
      <==> start <= e.hot.series[id].points[0].ts || InRange(e.hot.series[id].points, start, end) == []
  {
    var points, blocks := e.hot.series[id].points, FileBlocks(e.warm, id);
    var h := InRange(points, start, end);
    DropInvisibleIff(e, id, start, end);
    forall p ensures p in h <==> p in points && start <= p.ts <= end {
      InRangeMembers(points, start, end, p);
    }
    if start <= points[0].ts {
      assert blocks[0] in blocks;
      forall p | p in points && start <= p.ts <= end ensures Supplied(blocks, start, end, p.ts) {
        var i :| 0 <= i < |points| && points[i] == p;
        assert points[0].ts <= p.ts;
        assert HoldsTime(blocks[0], p.ts);
      }
    } else if h != [] {
      assert h[0] in h;
      assert !Supplied(blocks, start, end, h[0].ts);
    }
  }

  // ---- A sweep -----------------------------------------------------------------------

  // What a sweep must find in place: of a series that is stale, its timestamps
  // in a file that stays; of a file that is expired, its points in the hot layer.
  ghost predicate SweepLosesNothing(e: Engine, stale: bool, expired: bool, id: string, start: int, end: int) {
    var h, blocks := InRange(HotPoints(e, id), start, end), FileBlocks(e.warm, id);
    if stale && expired then h == [] && RangeOf(blocks, start, end) == multiset{}
    else if stale then AllSupplied(HotPoints(e, id), blocks, start, end)
    else if expired then forall q :: q in RangeOf(blocks, start, end) ==> q in h
    else true
  }

  lemma LossIff(e: Engine, swept: Engine, stale: bool, expired: bool, id: string, start: int, end: int)
    requires Increasing(HotPoints(e, id))
    requires HotPoints(swept, id) == if stale then [] else HotPoints(e, id)
    requires FileBlocks(swept.warm, id) == if expired then [] else FileBlocks(e.warm, id)
    ensures (forall r :: Answers(e, id, start, end, r) <==> Answers(swept, id, start, end, r))
      <==> SweepLosesNothing(e, stale, expired, id, start, end)
  {
    var h, w := InRange(HotPoints(e, id), start, end), RangeOf(FileBlocks(e.warm, id), start, end);
    var h', w' := InRange(HotPoints(swept, id), start, end), RangeOf(FileBlocks(swept.warm, id), start, end);
    assert forall r :: Answers(e, id, start, end, r) <==> IsAnswer(h, w, r);
    assert forall r :: Answers(swept, id, start, end, r) <==> IsAnswer(h', w', r);
    InRangeIncreasing(HotPoints(e, id), start, end);
    AllSuppliedIs(HotPoints(e, id), FileBlocks(e.warm, id), start, end);
    if stale && expired {
      BothGoneIff(h, w);
    } else if stale {
      HotGoneIff(h, w);
    } else if expired {
      WarmGoneIff(h, w);
    }
  }

  // ---- Tiering again -----------------------------------------------------------------

  lemma {:induction false} RangeAppend(blocks: seq<Block>, b: Block, start: int, end: int)
    ensures RangeOf(blocks + [b], start, end) == RangeOf(blocks, start, end) + multiset(Picked(b, start, end))
  {
    assert (blocks + [b])[..|blocks|] == blocks;
  }

  // Writing a block that the file already holds is invisible to every query;
  // with one value per timestamp the answer is the same single one.
  lemma RetierInvisible(h: seq<DataPoint>, blocks: seq<Block>, b: Block, start: int, end: int, r: seq<DataPoint>)
    requires b in blocks
    ensures IsAnswer(h, RangeOf(blocks, start, end), r) <==> IsAnswer(h, RangeOf(blocks + [b], start, end), r)
    ensures OneValuePerTime(RangeOf(blocks, start, end)) ==> OneValuePerTime(RangeOf(blocks + [b], start, end))
  {
    var w, w' := RangeOf(blocks, start, end), RangeOf(blocks + [b], start, end);
    RangeAppend(blocks, b, start, end);
    forall p ensures p in w <==> p in w' {
      RangeMembers(blocks, start, end, p);
      PickedMembers(b, start, end, p);
    }
    SameMembers(h, w, w', r);
  }
}
