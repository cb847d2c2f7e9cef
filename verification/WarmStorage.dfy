/**
 Warm files and the warm store as objects: blocks are appended to the file,
 the index is extended and re-sorted, and both are read back.
 */
module WarmStorage {
  import opened Bytes
  import opened Outcomes
  import opened Points
  import opened Sorting
  import opened WarmLog
  import opened WarmState

  const BY_TIME: IndexEntry -> int := (e: IndexEntry) => e.timestamp
  const BY_TS: DataPoint -> int := (p: DataPoint) => p.ts

  // ---- Reading through an index ------------------------------------------------------

  // What the block behind an entry contributes to a range read.
  ghost function Contribution(c: Codec, file: seq<Byte>, start: int, end: int): IndexEntry -> multiset<DataPoint> {
    (e: IndexEntry) =>
      if start <= e.timestamp <= end && ReadBlock(c, file, e).Some?
      then multiset(InRange(ReadBlock(c, file, e).value.points, start, end)) else multiset{}
  }

  ghost predicate Readable(c: Codec, file: seq<Byte>, index: seq<IndexEntry>, start: int, end: int) {
    forall k :: 0 <= k < |index| && start <= index[k].timestamp <= end ==> ReadBlock(c, file, index[k]).Some?
  }

  lemma {:induction false} NothingBeyond(index: seq<IndexEntry>, i: nat, f: IndexEntry -> multiset<DataPoint>)
    requires i <= |index| && forall k :: i <= k < |index| ==> f(index[k]) == multiset{}
    ensures Sum(index, f) == Sum(index[..i], f)
  {
    if i == |index| {
      assert index[..i] == index;
    } else {
      NothingBeyond(index[..|index| - 1], i, f);
      assert index[..|index| - 1][..i] == index[..i];
    }
  }

  // Skips an entry outside the range; otherwise reads and filters its block.
  method ReadEntry(c: Codec, file: seq<Byte>, entry: IndexEntry, start: int, end: int)
    returns (r: Option<seq<DataPoint>>)
    requires entry.timestamp <= end
    ensures r.Some? <==> Readable(c, file, [entry], start, end)
    ensures r.Some? ==> multiset(r.value) == Contribution(c, file, start, end)(entry)
  {
    assert [entry][0] == entry;
    if entry.timestamp < start {
      return Some([]);
    }
    var block := ReadBlock(c, file, entry);
    if block.None? {
      return None;
    }
    r := Some(InRange(block.value.points, start, end));
  }

  lemma ReadStep(c: Codec, file: seq<Byte>, index: seq<IndexEntry>, start: int, end: int, i: nat)
    requires i < |index|
    ensures Readable(c, file, index[..i + 1], start, end)
      <==> Readable(c, file, index[..i], start, end) && Readable(c, file, [index[i]], start, end)
    ensures Sum(index[..i + 1], Contribution(c, file, start, end))
            == Sum(index[..i], Contribution(c, file, start, end)) + Contribution(c, file, start, end)(index[i])
  {
    assert index[..i + 1][..i] == index[..i];
    assert forall k :: 0 <= k < i ==> index[..i + 1][k] == index[..i][k];
    assert [index[i]][0] == index[..i + 1][i];
  }

  // The loop of readDataRange; None is a read error.
  method ReadThrough(c: Codec, file: seq<Byte>, index: seq<IndexEntry>, start: int, end: int)
    returns (r: Option<seq<DataPoint>>)
    requires SortedBy(index, BY_TIME)
    ensures r.Some? <==> Readable(c, file, index, start, end)
    ensures r.Some? ==> multiset(r.value) == Sum(index, Contribution(c, file, start, end)) && SortedBy(r.value, BY_TS)
  {
    var allPoints: seq<DataPoint> := [];
    var i := 0;
    while i < |index|
      invariant i <= |index|
      invariant Readable(c, file, index[..i], start, end)
      invariant multiset(allPoints) == Sum(index[..i], Contribution(c, file, start, end))
    {
      if index[i].timestamp > end {
        break;
      }
      var more := ReadEntry(c, file, index[i], start, end);
      ReadStep(c, file, index, start, end, i);
      if more.None? {
        NotReadable(c, file, index, start, end, i);
        return None;
      }
      allPoints := allPoints + more.value;
      i := i + 1;
    }
    LaterEntriesMiss(c, file, index, start, end, i);
    var sorted := SortBy(allPoints, BY_TS);
    r := Some(sorted);
  }

  lemma NotReadable(c: Codec, file: seq<Byte>, index: seq<IndexEntry>, start: int, end: int, i: nat)
    requires i < |index| && !Readable(c, file, [index[i]], start, end)
    ensures !Readable(c, file, index, start, end)
  {
  }

  lemma LaterEntries(index: seq<IndexEntry>, end: int, i: nat)
    requires SortedBy(index, BY_TIME) && i <= |index| && (i < |index| ==> index[i].timestamp > end)
    ensures forall k :: i <= k < |index| ==> index[k].timestamp > end
  {
    forall k | i <= k < |index| ensures index[k].timestamp > end {
      if i < k {
        assert BY_TIME(index[i]) <= BY_TIME(index[k]);
      }
    }
  }

  // Entries after the range's end neither fail nor contribute.
  lemma LaterEntriesMiss(c: Codec, file: seq<Byte>, index: seq<IndexEntry>, start: int, end: int, i: nat)
    requires SortedBy(index, BY_TIME) && i <= |index| && (i < |index| ==> index[i].timestamp > end)
    ensures Readable(c, file, index, start, end) <==> Readable(c, file, index[..i], start, end)
    ensures Sum(index, Contribution(c, file, start, end)) == Sum(index[..i], Contribution(c, file, start, end))
  {
    LaterEntries(index, end, i);
    ReadableEarlier(c, file, index, start, end, i);
    NothingBeyond(index, i, Contribution(c, file, start, end));
  }

  lemma ReadableEarlier(c: Codec, file: seq<Byte>, index: seq<IndexEntry>, start: int, end: int, i: nat)
    requires i <= |index| && forall k :: i <= k < |index| ==> index[k].timestamp > end
    ensures Readable(c, file, index, start, end) <==> Readable(c, file, index[..i], start, end)
  {
    var early := index[..i];
    if Readable(c, file, early, start, end) {
      forall k | 0 <= k < |index| && start <= index[k].timestamp <= end ensures ReadBlock(c, file, index[k]).Some? {
        assert early[k] == index[k];
      }
    }
  }

  // ---- Loading a file ----------------------------------------------------------------

  // The scan loop of loadIndexEntries.
  method LoadIndex(file: seq<Byte>) returns (r: Option<seq<IndexEntry>>)
    ensures r.Some? <==> Scan(file, 0, 0, 24).Some?
    ensures r.Some? ==> SortedBy(r.value, BY_TIME)
    ensures r.Some? ==> multiset(r.value) == multiset(Scan(file, 0, 0, 24).value)
  {
    var entries: seq<IndexEntry> := [];
    var pos, offset := 0, 0;
    PrefixedNone(Scan(file, 0, 0, RESCAN_STEP));
    while true
      invariant 0 <= pos <= |file|
      invariant Scan(file, 0, 0, RESCAN_STEP) == Prefixed(entries, Scan(file, pos, offset, RESCAN_STEP))
      decreases |file| - pos
    {
      match ReadHeader(file, pos) {
        case Eof =>
          assert entries + [] == entries;
          break;
        case Broken =>
          return None;
        case Read(timestamp, length) =>
          if length < 0 || pos + HEADER + length > |file| {
            return None;
          }
          PrefixedStep(file, pos, offset, entries, timestamp, length);
          entries := entries + [IndexEntry(timestamp, offset, length)];
          pos := pos + HEADER + length;
          offset := offset + length + RESCAN_STEP;
      }
    }
    assert Scan(file, 0, 0, RESCAN_STEP) == Some(entries);
    var sorted := SortBy(entries, BY_TIME);
    r := Some(sorted);
  }

  ghost function Prefixed(front: seq<IndexEntry>, rest: Option<seq<IndexEntry>>): Option<seq<IndexEntry>> {
    if rest.None? then None else Some(front + rest.value)
  }

  lemma PrefixedNone(rest: Option<seq<IndexEntry>>)
    ensures Prefixed([], rest) == rest
  {
    if rest.Some? {
      assert [] + rest.value == rest.value;
    }
  }

  lemma PrefixedStep(file: seq<Byte>, pos: nat, offset: int, front: seq<IndexEntry>, timestamp: int, length: nat)
    requires pos + HEADER + length <= |file|
    requires ReadHeader(file, pos) == Read(timestamp, length)
    ensures Prefixed(front, Scan(file, pos, offset, RESCAN_STEP))
            == Prefixed(front + [IndexEntry(timestamp, offset, length)],
                        Scan(file, pos + HEADER + length, offset + length + RESCAN_STEP, RESCAN_STEP))
  {
    var e := IndexEntry(timestamp, offset, length);
    var rest := Scan(file, pos + HEADER + length, offset + length + RESCAN_STEP, RESCAN_STEP);
    if rest.Some? {
      assert front + ([e] + rest.value) == front + [e] + rest.value;
    }
  }

  // The file holds the blocks, entries lists them in order of writing, and the
  // index is a permutation of the entries sorted by start time.
  ghost predicate FileOk(
      c: Codec, blocks: seq<Block>, disk: seq<Byte>, entries: seq<IndexEntry>, size: int, index: seq<IndexEntry>)
  {
    && IsLog(c, blocks, disk, entries) && size == |disk|
    && SortedBy(index, BY_TIME) && multiset(index) == multiset(entries)
  }

  // Header and data are appended, size and index follow.
  method AppendFrame(
      c: Codec, disk: seq<Byte>, size: int, index: seq<IndexEntry>, block: Block, data: seq<Byte>,
      ghost blocks: seq<Block>, ghost entries: seq<IndexEntry>)
    returns (disk': seq<Byte>, size': int, index': seq<IndexEntry>)
    requires Faithful(c) && FileOk(c, blocks, disk, entries, size, index) && c.enc(block) == Some(data)
    ensures disk' == disk + Frame(block.start, data)
    ensures FileOk(c, blocks + [block], disk', entries + [IndexEntry(block.start, |disk|, |data|)], size', index')
  {
    SmallLength(|data|);
    SmallLength(8 + 4 + |data|);
    var dataLength := ToInt32(|data|);
    disk' := disk + EncodeInt64(Millis(block.start));
    disk' := disk' + EncodeInt32(dataLength);
    disk' := disk' + data;
    FrameInParts(disk, block.start, data);
    LogAppend(c, blocks, disk, entries, block);
    size' := size + ToInt32(8 + 4 + dataLength);
    index' := SortBy(index + [IndexEntry(block.start, size, dataLength)], BY_TIME);
  }

  lemma FrameInParts(disk: seq<Byte>, start: int, data: seq<Byte>)
    ensures disk + EncodeInt64(Millis(start)) + EncodeInt32(ToInt32(|data|)) + data == disk + Frame(start, data)
  {
  }

  // ---- One file ----------------------------------------------------------------------

  class WarmFile {
    const seriesID: string
    const codec: Codec
    var disk: seq<Byte>
    var fileSize: int
    var lastModified: int
    var indexEntries: seq<IndexEntry>
    ghost var blocks: seq<Block>       // written so far, in order
    ghost var entries: seq<IndexEntry> // their entries, in the same order

    ghost predicate Valid()
      reads this
    {
      Faithful(codec) && FileOk(codec, blocks, disk, entries, fileSize, indexEntries)
    }

    constructor (seriesID: string, codec: Codec, now: int)
      requires Faithful(codec)
      ensures Valid() && blocks == [] && lastModified == now
      ensures this.seriesID == seriesID && this.codec == codec
    {
      this.seriesID, this.codec := seriesID, codec;
      disk, fileSize, lastModified, indexEntries, blocks, entries := [], 0, now, [], [], [];
      assert IsLog(codec, [], [], []);
    }

    method WriteDataBlock(block: Block, now: int) returns (ok: bool)
      requires Valid()
      modifies this
      ensures Valid()
      ensures ok <==> codec.enc(block).Some?
      ensures blocks == if ok then old(blocks) + [block] else old(blocks)
      ensures lastModified == if ok then now else old(lastModified)
      ensures disk == if ok then old(disk) + Frame(block.start, codec.enc(block).value) else old(disk)
    {
      var encoded := codec.enc(block);
      if encoded.None? {
        return false;
      }
      ghost var entry := IndexEntry(block.start, |disk|, |encoded.value|);
      disk, fileSize, indexEntries :=
        AppendFrame(codec, disk, fileSize, indexEntries, block, encoded.value, blocks, entries);
      lastModified := now;
      blocks, entries := blocks + [block], entries + [entry];
      ok := true;
    }

    method ReadDataRange(start: int, end: int) returns (r: Option<seq<DataPoint>>)
      requires Valid()
      ensures r.Some? && multiset(r.value) == RangeOf(blocks, start, end) && SortedBy(r.value, BY_TS)
      ensures forall p :: p in r.value <==>
        exists b :: b in blocks && start <= b.start <= end && p in b.points && start <= p.ts <= end
    {
      r := ReadThrough(codec, disk, indexEntries, start, end);
      IndexReadable(codec, blocks, disk, entries, indexEntries, start, end);
      SumPermuted(indexEntries, entries, Contribution(codec, disk, start, end));
      EntriesContribute(codec, blocks, disk, entries, start, end);
      forall p ensures p in r.value <==> AnyPicked(blocks, start, end, p) {
        RangeMembers(blocks, start, end, p);
        assert p in r.value <==> p in multiset(r.value);
      }
    }
  }

  lemma IndexReadable(
      c: Codec, blocks: seq<Block>, file: seq<Byte>, es: seq<IndexEntry>, index: seq<IndexEntry>, start: int, end: int)
    requires Faithful(c) && IsLog(c, blocks, file, es) && multiset(index) == multiset(es)
    ensures Readable(c, file, index, start, end)
  {
    forall i | 0 <= i < |index| ensures ReadBlock(c, file, index[i]).Some? {
      assert index[i] in multiset(es);
      var k :| 0 <= k < |es| && es[k] == index[i];
      assert FrameAt(c, blocks[k], file, es[k]);
      ReadBack(c, blocks[k], file, es[k]);
    }
  }

  ghost predicate FramesAt(c: Codec, blocks: seq<Block>, file: seq<Byte>, es: seq<IndexEntry>) {
    |es| == |blocks| && forall k :: 0 <= k < |blocks| ==> FrameAt(c, blocks[k], file, es[k])
  }

  lemma {:induction false} EntriesContribute(
      c: Codec, blocks: seq<Block>, file: seq<Byte>, es: seq<IndexEntry>, start: int, end: int)
    requires Faithful(c) && FramesAt(c, blocks, file, es)
    ensures Sum(es, Contribution(c, file, start, end)) == RangeOf(blocks, start, end)
  {
    if es != [] {
      var n := |es| - 1;
      forall k | 0 <= k < n ensures FrameAt(c, blocks[..n][k], file, es[..n][k]) {
        assert FrameAt(c, blocks[k], file, es[k]);
      }
      EntriesContribute(c, blocks[..n], file, es[..n], start, end);
      EntryContributes(c, blocks[n], file, es[n], start, end);
    }
  }

  lemma EntryContributes(c: Codec, b: Block, file: seq<Byte>, e: IndexEntry, start: int, end: int)
    requires Faithful(c) && FrameAt(c, b, file, e)
    ensures Contribution(c, file, start, end)(e) == multiset(Picked(b, start, end))
  {
    ReadBack(c, b, file, e);
  }

  // ---- Reloading a file --------------------------------------------------------------

  // Loading any written file succeeds and finds one entry per block, each 12 bytes
  // further off than the one before.
  lemma ReloadFinds(c: Codec, blocks: seq<Block>, file: seq<Byte>, es: seq<IndexEntry>)
    requires Faithful(c) && IsLog(c, blocks, file, es)
    ensures Scan(file, 0, 0, 24) == Some(Rescanned(es, 24))
    ensures forall k :: 0 <= k < |es| ==>
      Rescanned(es, 24)[k] == IndexEntry(Truncated(es[k].timestamp), es[k].offset + 12 * k, es[k].length)
  {
    ScanFindsAll(c, blocks, file, es, RESCAN_STEP);
  }

  // With two blocks or more, a reloaded index makes every range read fail whose
  // range holds the last block's start, cut to milliseconds.
  lemma ReloadedReadFails(
      c: Codec, blocks: seq<Block>, file: seq<Byte>, es: seq<IndexEntry>, index: seq<IndexEntry>, start: int, end: int)
    requires Faithful(c) && IsLog(c, blocks, file, es) && |blocks| > 1
    requires multiset(index) == multiset(Scan(file, 0, 0, RESCAN_STEP).GetOr([]))
    requires start <= Truncated(blocks[|blocks| - 1].start) <= end
    ensures !Readable(c, file, index, start, end)
  {
    var rs, last := Rescanned(es, RESCAN_STEP), |blocks| - 1;
    ReloadFinds(c, blocks, file, es);
    RescanReadsBackIff(c, blocks, file, es, RESCAN_STEP);
    assert FrameAt(c, blocks[last], file, es[last]);
    assert rs[last] in multiset(rs);
    assert rs[last] in multiset(index);
    var i :| 0 <= i < |index| && index[i] == rs[last];
    assert ReadBlock(c, file, index[i]) == None;
  }
}
