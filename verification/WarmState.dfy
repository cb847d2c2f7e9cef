/**
 The warm store as values: per series the blocks written so far, and what a
 range read selects from them.
 */
module WarmState {
  import opened Points
  import opened WarmLog

  datatype FileState = FileState(blocks: seq<Block>, lastModified: int)
  type Warm = map<string, FileState>

  function BlockOf(id: string, points: seq<DataPoint>): Block
    requires points != []
  {
    Block(id, points[0].ts, points[|points| - 1].ts, |points|, points)
  }

  // A block that cannot be encoded leaves an existing file alone and a new one empty.
  ghost function Written(c: Codec, warm: Warm, id: string, points: seq<DataPoint>, now: int): Warm
    requires points != []
  {
    var before := if id in warm then warm[id] else FileState([], now);
    warm[id := if c.enc(BlockOf(id, points)).Some?
               then FileState(before.blocks + [BlockOf(id, points)], now) else before]
  }

  ghost function ExpiredIds(warm: Warm, now: int, retention: int): set<string> {
    set id | id in warm && warm[id].lastModified < now - retention
  }

  // ---- Range reads -----------------------------------------------------------------

  // A block is read only if its start lies in the range; then its points are filtered.
  function Picked(b: Block, start: int, end: int): seq<DataPoint> {
    if start <= b.start <= end then InRange(b.points, start, end) else []
  }

  ghost function RangeOf(blocks: seq<Block>, start: int, end: int): multiset<DataPoint> {
    if blocks == [] then multiset{} else
      RangeOf(blocks[..|blocks| - 1], start, end) + multiset(Picked(blocks[|blocks| - 1], start, end))
  }

  ghost predicate PickedFrom(b: Block, start: int, end: int, p: DataPoint) {
    start <= b.start <= end && p in b.points && start <= p.ts <= end
  }

  ghost predicate AnyPicked(blocks: seq<Block>, start: int, end: int, p: DataPoint) {
    exists b :: b in blocks && PickedFrom(b, start, end, p)
  }

  lemma AnyPickedAppend(front: seq<Block>, last: Block, start: int, end: int, p: DataPoint)
    ensures AnyPicked(front + [last], start, end, p)
      <==> AnyPicked(front, start, end, p) || PickedFrom(last, start, end, p)
  {
    if PickedFrom(last, start, end, p) {
      assert last in front + [last];
    }
    if b :| b in front && PickedFrom(b, start, end, p) {
      assert b in front + [last];
    }
  }

  lemma PickedMembers(b: Block, start: int, end: int, p: DataPoint)
    ensures p in multiset(Picked(b, start, end)) <==> PickedFrom(b, start, end, p)
  {
    InRangeMembers(b.points, start, end, p);
  }

  // A range read yields exactly the in-range points of the blocks that start in the range.
  lemma {:induction false} RangeMembers(blocks: seq<Block>, start: int, end: int, p: DataPoint)
    ensures p in RangeOf(blocks, start, end) <==> AnyPicked(blocks, start, end, p)
  {
    if blocks == [] {
      assert !AnyPicked(blocks, start, end, p);
    } else {
      var front, last := blocks[..|blocks| - 1], blocks[|blocks| - 1];
      assert blocks == front + [last] && RangeOf(blocks, start, end) == RangeOf(front, start, end) + multiset(Picked(last, start, end));
      RangeMembers(front, start, end, p);
      PickedMembers(last, start, end, p);
      AnyPickedAppend(front, last, start, end, p);
    }
  }

  ghost function FileBlocks(warm: Warm, id: string): seq<Block> {
    if id in warm then warm[id].blocks else []
  }

  lemma MaybeOneMore(before: seq<Block>, after: seq<Block>, b: Block, more: bool, start: int, end: int, p: DataPoint)
    requires after == before + if more then [b] else []
    ensures p in RangeOf(after, start, end) <==> p in RangeOf(before, start, end) || (more && PickedFrom(b, start, end, p))
  {
    if more {
      RangeMembers(before, start, end, p);
      RangeMembers(before + [b], start, end, p);
      AnyPickedAppend(before, b, start, end, p);
    } else {
      assert before + [] == before;
    }
  }

  lemma WrittenBlocks(c: Codec, warm: Warm, id: string, points: seq<DataPoint>, now: int)
    requires points != []
    ensures var b := Block(id, points[0].ts, points[|points| - 1].ts, |points|, points);
      && id in Written(c, warm, id, points, now)
      && FileBlocks(Written(c, warm, id, points, now), id) == FileBlocks(warm, id) + (if c.enc(b).Some? then [b] else [])
  {
    assert FileBlocks(warm, id) + [] == FileBlocks(warm, id);
  }

  // After a write a range read finds what it found before and those of the points
  // that lie in the range, provided the first of them does and they can be encoded.
  lemma WriteThenRead(c: Codec, warm: Warm, id: string, points: seq<DataPoint>, now: int, start: int, end: int, p: DataPoint)
    requires points != []
    ensures var b := Block(id, points[0].ts, points[|points| - 1].ts, |points|, points);
      p in RangeOf(FileBlocks(Written(c, warm, id, points, now), id), start, end) <==>
        || p in RangeOf(FileBlocks(warm, id), start, end)
        || (c.enc(b).Some? && start <= points[0].ts <= end && p in points && start <= p.ts <= end)
  {
    var b := Block(id, points[0].ts, points[|points| - 1].ts, |points|, points);
    var before, after := FileBlocks(warm, id), FileBlocks(Written(c, warm, id, points, now), id);
    WrittenBlocks(c, warm, id, points, now);
    MaybeOneMore(before, after, b, c.enc(b).Some?, start, end, p);
  }
}
