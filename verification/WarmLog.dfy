/**
 The warm file format: frames of a 12-byte header (millisecond timestamp and
 length, little endian) followed by an encoded block, appended one after the
 other, and the index entries that point at them.
 */
module WarmLog {
  import opened Bytes
  import opened Outcomes
  import opened Points

  const HEADER: int := 12
  const RESCAN_STEP: int := 24  // what the loader adds for the header
  const NANOS_PER_MILLI: int := 1000000

  datatype Block = Block(seriesID: string, start: int, end: int, count: int, points: seq<DataPoint>)
  datatype IndexEntry = IndexEntry(timestamp: int, offset: int, length: int)

  // JSON and gzip: encoding may fail, and so may decoding.
  datatype Codec = Codec(enc: Block -> Option<seq<Byte>>, dec: seq<Byte> -> Option<Block>)

  // What is encoded decodes to the same block, is small enough for the int32
  // length arithmetic, and its start time fits the header.
  ghost predicate Faithful(c: Codec) {
    forall b :: c.enc(b).Some? ==>
      && c.dec(c.enc(b).value) == Some(b)
      && |c.enc(b).value| + HEADER < TWO_32 / 2
      && -TWO_64 / 2 <= Millis(b.start) < TWO_64 / 2
  }

  function Millis(t: int): int {
    TruncDiv(t, NANOS_PER_MILLI)
  }

  // A header time read back: whole milliseconds, cut towards zero.
  function Truncated(t: int): int {
    Millis(t) * NANOS_PER_MILLI
  }

  // ---- Writing ---------------------------------------------------------------------

  function Header(start: int, length: int): (h: seq<Byte>)
    ensures |h| == HEADER
  {
    EncodeInt64(Millis(start)) + EncodeInt32(length)
  }

  function Frame(start: int, data: seq<Byte>): seq<Byte> {
    Header(start, ToInt32(|data|)) + data
  }

  function End(e: IndexEntry): int {
    e.offset + HEADER + e.length
  }

  // The frame of block b stands in the extent [offset, offset + 12 + length) of its entry.
  ghost predicate FrameAt(c: Codec, b: Block, file: seq<Byte>, e: IndexEntry) {
    && c.enc(b).Some?
    && e.timestamp == b.start && e.length == |c.enc(b).value|
    && 0 <= e.offset && End(e) <= |file|
    && file[e.offset..End(e)] == Frame(b.start, c.enc(b).value)
  }

  // The extents follow each other from 0 to size without gap or overlap.
  ghost predicate Tiles(es: seq<IndexEntry>, size: int) {
    && (if es == [] then size == 0 else es[0].offset == 0 && End(es[|es| - 1]) == size)
    && (forall k :: 0 <= k < |es| - 1 ==> Adjoin(es, k))
  }

  ghost predicate Adjoin(es: seq<IndexEntry>, k: int) {
    0 <= k < |es| - 1 && End(es[k]) == es[k + 1].offset
  }

  // A file holding the blocks in order of writing, with their entries in the same order.
  ghost predicate IsLog(c: Codec, blocks: seq<Block>, file: seq<Byte>, es: seq<IndexEntry>) {
    && |es| == |blocks| && Tiles(es, |file|)
    && forall k {:trigger FrameAt(c, blocks[k], file, es[k])} :: 0 <= k < |blocks| ==> FrameAt(c, blocks[k], file, es[k])
  }

  // Appending one frame extends the log and leaves all earlier frames in place.
  lemma LogAppend(c: Codec, blocks: seq<Block>, file: seq<Byte>, es: seq<IndexEntry>, b: Block)
    requires IsLog(c, blocks, file, es) && c.enc(b).Some?
    ensures var data := c.enc(b).value;
      IsLog(c, blocks + [b], file + Frame(b.start, data), es + [IndexEntry(b.start, |file|, |data|)])
  {
    var data := c.enc(b).value;
    var frame, e := Frame(b.start, data), IndexEntry(b.start, |file|, |data|);
    forall k | 0 <= k < |blocks| ensures FrameAt(c, blocks[k], file + frame, es[k]) {
      assert FrameAt(c, blocks[k], file, es[k]);
      PrefixSlice(file, frame, es[k].offset, End(es[k]));
    }
    assert (file + frame)[|file|..|file| + |frame|] == frame;
    assert FrameAt(c, b, file + frame, e);
    var blocks', es' := blocks + [b], es + [e];
    forall k | 0 <= k < |blocks'| ensures FrameAt(c, blocks'[k], file + frame, es'[k]) {
      assert k < |blocks| ==> blocks'[k] == blocks[k] && es'[k] == es[k];
    }
    TilesAppend(es, |file|, e);
  }

  lemma PrefixSlice<T>(a: seq<T>, b: seq<T>, lo: nat, hi: nat)
    requires lo <= hi <= |a|
    ensures (a + b)[lo..hi] == a[lo..hi]
  {
  }

  lemma TilesAppend(es: seq<IndexEntry>, size: int, e: IndexEntry)
    requires Tiles(es, size) && e.offset == size
    ensures Tiles(es + [e], End(e))
  {
    var es' := es + [e];
    forall k | 0 <= k < |es'| - 1 ensures Adjoin(es', k) {
      assert k < |es| - 1 ==> Adjoin(es, k);
    }
  }

  // The blocks determine the file and the entries.
  lemma {:induction false} LogDetermined(
      c: Codec, blocks: seq<Block>, file: seq<Byte>, es: seq<IndexEntry>, file': seq<Byte>, es': seq<IndexEntry>)
    requires IsLog(c, blocks, file, es) && IsLog(c, blocks, file', es')
    ensures file == file' && es == es'
    decreases |blocks|
  {
    if blocks == [] {
      assert es == es' == [];
    } else {
      var n := |blocks| - 1;
      assert FrameAt(c, blocks[n], file, es[n]) && FrameAt(c, blocks[n], file', es'[n]);
      LogFront(c, blocks, file, es);
      LogFront(c, blocks, file', es');
      LogDetermined(c, blocks[..n], file[..es[n].offset], es[..n], file'[..es'[n].offset], es'[..n]);
      assert es[n] == es'[n];
      LastFrame(file, file', es[n].offset);
      assert es == es[..n] + [es[n]] && es' == es'[..n] + [es'[n]];
    }
  }

  lemma LastFrame<T>(a: seq<T>, b: seq<T>, o: nat)
    requires o <= |a| && o <= |b| && a[..o] == b[..o] && a[o..|a|] == b[o..|b|]
    ensures a == b
  {
    assert a == a[..o] + a[o..|a|] && b == b[..o] + b[o..|b|];
  }

  lemma LogFront(c: Codec, blocks: seq<Block>, file: seq<Byte>, es: seq<IndexEntry>)
    requires IsLog(c, blocks, file, es) && blocks != []
    requires FrameAt(c, blocks[|blocks| - 1], file, es[|blocks| - 1])
    ensures var n := |blocks| - 1; IsLog(c, blocks[..n], file[..es[n].offset], es[..n])
  {
    var n := |blocks| - 1;
    var o := es[n].offset;
    assert FrameAt(c, blocks[n], file, es[n]);
    forall k | 0 <= k < n ensures FrameAt(c, blocks[..n][k], file[..o], es[..n][k]) {
      assert FrameAt(c, blocks[k], file, es[k]);
      OffsetsGrow(c, blocks, file, es, k, n);
      FrameInFront(c, blocks[k], file, es[k], o);
    }
    forall k | 0 <= k < n - 1 ensures Adjoin(es[..n], k) {
      assert Adjoin(es, k);
    }
    assert n > 0 ==> Adjoin(es, n - 1);
  }

  lemma FrameInFront(c: Codec, b: Block, file: seq<Byte>, e: IndexEntry, o: nat)
    requires FrameAt(c, b, file, e) && End(e) <= o <= |file|
    ensures FrameAt(c, b, file[..o], e)
  {
    PrefixSlice(file[..o], file[o..], e.offset, End(e));
    assert file == file[..o] + file[o..];
  }

  lemma {:induction false} OffsetsGrow(c: Codec, blocks: seq<Block>, file: seq<Byte>, es: seq<IndexEntry>, j: nat, k: nat)
    requires IsLog(c, blocks, file, es) && j < k < |es|
    ensures End(es[j]) <= es[k].offset
    decreases k
  {
    assert Adjoin(es, k - 1);
    if j < k - 1 {
      OffsetsGrow(c, blocks, file, es, j, k - 1);
      assert FrameAt(c, blocks[k - 1], file, es[k - 1]);
    }
  }

  // ---- Reading one block -------------------------------------------------------------

  // Seeks past the header and decodes `length` bytes; reading past the end fails.
  function ReadBlock(c: Codec, file: seq<Byte>, e: IndexEntry): Option<Block> {
    if e.offset + HEADER < 0 || e.length < 0 || End(e) > |file| then None
    else c.dec(file[e.offset + HEADER..End(e)])
  }

  lemma InnerSlice<T>(s: seq<T>, lo: nat, hi: nat, a: nat, b: nat)
    requires lo <= hi <= |s| && a <= b <= hi - lo
    ensures s[lo + a..lo + b] == s[lo..hi][a..b]
  {
    var t := s[lo..hi];
    assert forall i :: 0 <= i < hi - lo ==> t[i] == s[lo + i];
  }

  lemma FrameParts(start: int, data: seq<Byte>)
    ensures Frame(start, data)[0..8] == EncodeInt64(Millis(start))
    ensures Frame(start, data)[8..HEADER] == EncodeInt32(ToInt32(|data|))
    ensures Frame(start, data)[HEADER..HEADER + |data|] == data
  {
    var frame := Frame(start, data);
    assert |frame| == HEADER + |data|;
    forall i | 0 <= i < |data| ensures frame[HEADER..HEADER + |data|][i] == data[i] {
      assert frame[HEADER + i] == data[i];
    }
  }

  // The layout of a frame: eight bytes of milliseconds, four of the length, lowest
  // first, and the data.
  lemma FrameLayout(start: int, data: seq<Byte>)
    requires |data| < TWO_32 / 2
    ensures |Frame(start, data)| == 12 + |data|
    ensures var millis := if start >= 0 then start / 1_000_000 else -(-start / 1_000_000);
            forall i: nat :: i < 8 ==> Frame(start, data)[i] == millis / Pow256(i) % 256
    ensures forall i: nat :: i < 4 ==> Frame(start, data)[8 + i] == |data| / Pow256(i) % 256
    ensures Frame(start, data)[12..] == data
  {
    FrameParts(start, data);
    SmallLength(|data|);
    var frame := Frame(start, data);
    forall i: nat | i < 8 ensures frame[i] == Millis(start) / Pow256(i) % 256 {
      EncodedAt(Millis(start), i);
      assert frame[i] == frame[0..8][i];
    }
    forall i: nat | i < 4 ensures frame[8 + i] == |data| / Pow256(i) % 256 {
      EncodedAt(|data|, i);
      assert frame[8 + i] == frame[8..HEADER][i];
    }
  }

  // Cut towards zero, to a whole millisecond.
  lemma TruncatedIs(t: int)
    ensures Truncated(t) % 1_000_000 == 0
    ensures if t >= 0 then 0 <= t - Truncated(t) < 1_000_000 else -1_000_000 < t - Truncated(t) <= 0
  {
  }

  // Reading an entry of the log returns the block written for it.
  lemma ReadBack(c: Codec, b: Block, file: seq<Byte>, e: IndexEntry)
    requires Faithful(c) && FrameAt(c, b, file, e)
    ensures ReadBlock(c, file, e) == Some(b)
  {
    var data := c.enc(b).value;
    FrameParts(b.start, data);
    InnerSlice(file, e.offset, End(e), HEADER, HEADER + |data|);
  }

  // ---- Rescanning a file -------------------------------------------------------------

  datatype HeaderRead = Eof | Broken | Read(timestamp: int, length: int)

  // Running out of bytes exactly before the timestamp or exactly before the
  // length reads as end of file; elsewhere it is an error.
  function ReadHeader(file: seq<Byte>, pos: nat): HeaderRead
    requires pos <= |file|
  {
    var left := |file| - pos;
    if left == 0 || left == 8 then Eof
    else if left < HEADER then Broken
    else Read(DecodeInt64(file[pos..pos + 8]) * NANOS_PER_MILLI, DecodeInt32(file[pos + 8..pos + HEADER]))
  }

  // Entries from position pos on, where the loader believes to be at `offset`
  // and counts `step` bytes for a header.
  ghost function Scan(file: seq<Byte>, pos: nat, offset: int, step: int): Option<seq<IndexEntry>>
    requires pos <= |file|
    decreases |file| - pos
  {
    match ReadHeader(file, pos)
    case Eof => Some([])
    case Broken => None
    case Read(timestamp, length) =>
      if length < 0 || pos + HEADER + length > |file| then None else
        match Scan(file, pos + HEADER + length, offset + length + step, step)
        case None => None
        case Some(rest) => Some([IndexEntry(timestamp, offset, length)] + rest)
  }

  lemma HeaderAt(c: Codec, b: Block, file: seq<Byte>, e: IndexEntry)
    requires Faithful(c) && FrameAt(c, b, file, e)
    ensures ReadHeader(file, e.offset) == Read(Truncated(b.start), e.length)
  {
    var data := c.enc(b).value;
    FrameParts(b.start, data);
    InnerSlice(file, e.offset, End(e), 0, 8);
    InnerSlice(file, e.offset, End(e), 8, HEADER);
    SmallLength(|data|);
    Int64RoundTrip(Millis(b.start));
    Int32RoundTrip(|data|);
  }

  lemma SmallLength(n: nat)
    requires n < TWO_32 / 2
    ensures ToInt32(n) == n
  {
  }

  datatype Head = Head(timestamp: int, length: int)

  // Every header lies at its offset, with room for its data; bytes may follow.
  ghost predicate FramedFront(file: seq<Byte>, offs: seq<int>, heads: seq<Head>) {
    && |offs| == |heads| + 1 && 0 <= offs[|heads|] <= |file|
    && (forall k :: 0 <= k < |heads| ==> FramedAt(file, offs[k], offs[k + 1], heads[k]))
  }

  ghost predicate FramedAt(file: seq<Byte>, o: int, next: int, h: Head) {
    && 0 <= o && h.length >= 0 && next == o + HEADER + h.length && next <= |file|
    && ReadHeader(file, o) == Read(h.timestamp, h.length)
  }

  // The entries for heads when the loader believes to be at `offset`.
  ghost function Believed(heads: seq<Head>, offset: int, step: int): (es: seq<IndexEntry>)
    ensures |es| == |heads|
  {
    if heads == [] then [] else
      [IndexEntry(heads[0].timestamp, offset, heads[0].length)]
      + Believed(heads[1..], offset + heads[0].length + step, step)
  }

  ghost predicate Ends(file: seq<Byte>, pos: nat, step: int, ok: bool)
    requires pos <= |file|
  {
    forall offset :: Scan(file, pos, offset, step) == if ok then Some([]) else None
  }

  // The scan goes through the frames and then fails or ends with what follows.
  lemma {:induction false} ScanFront(
      file: seq<Byte>, offs: seq<int>, heads: seq<Head>, offset: int, step: int, ok: bool)
    requires FramedFront(file, offs, heads) && 0 <= offs[0] <= |file|
    requires Ends(file, offs[|heads|], step, ok)
    ensures Scan(file, offs[0], offset, step) == if ok then Some(Believed(heads, offset, step)) else None
    decreases |heads|
  {
    if heads != [] {
      assert FramedAt(file, offs[0], offs[1], heads[0]);
      forall k | 0 <= k < |heads| - 1 ensures FramedAt(file, offs[1..][k], offs[1..][k + 1], heads[1..][k]) {
        assert FramedAt(file, offs[k + 1], offs[k + 2], heads[k + 1]);
      }
      ScanFront(file, offs[1..], heads[1..], offset + heads[0].length + step, step, ok);
    }
  }

  ghost predicate Follows(offs: seq<int>, heads: seq<Head>, j: int) {
    0 <= j < |heads| && j + 1 < |offs| && offs[j + 1] == offs[j] + HEADER + heads[j].length
  }

  ghost predicate Consecutive(offs: seq<int>, heads: seq<Head>) {
    |offs| == |heads| + 1 && forall j :: 0 <= j < |heads| ==> Follows(offs, heads, j)
  }

  // The believed offset of entry k runs away from the true one by step - 12 a block.
  lemma {:induction false} BelievedAt(heads: seq<Head>, offs: seq<int>, offset: int, step: int, k: nat)
    requires k < |heads| && Consecutive(offs, heads)
    ensures Believed(heads, offset, step)[k]
            == IndexEntry(heads[k].timestamp, offset + offs[k] - offs[0] + Drift(step, k), heads[k].length)
  {
    if k > 0 {
      assert Follows(offs, heads, 0);
      forall j | 0 <= j < |heads| - 1 ensures Follows(offs[1..], heads[1..], j) {
        assert Follows(offs, heads, j + 1);
      }
      BelievedAt(heads[1..], offs[1..], offset + heads[0].length + step, step, k - 1);
    }
  }

  function Drift(step: int, k: nat): int {
    if k == 0 then 0 else Drift(step, k - 1) + (step - HEADER)
  }

  lemma {:induction false} DriftIs(step: int, k: nat)
    ensures Drift(step, k) == (step - HEADER) * k
  {
    if k > 0 {
      DriftIs(step, k - 1);
    }
  }

  function HeadOf(e: IndexEntry): Head {
    Head(Truncated(e.timestamp), e.length)
  }

  ghost function HeadsOf(es: seq<IndexEntry>): (hs: seq<Head>)
    ensures |hs| == |es| && forall k :: 0 <= k < |hs| ==> hs[k] == HeadOf(es[k])
  {
    seq(|es|, k requires 0 <= k < |es| => HeadOf(es[k]))
  }

  ghost function OffsetsOf(es: seq<IndexEntry>, size: int): (offs: seq<int>)
    ensures |offs| == |es| + 1 && offs[|es|] == size
    ensures forall k :: 0 <= k < |es| ==> offs[k] == es[k].offset
  {
    seq(|es|, k requires 0 <= k < |es| => es[k].offset) + [size]
  }

  lemma LogIsFramed(c: Codec, blocks: seq<Block>, file: seq<Byte>, es: seq<IndexEntry>)
    requires Faithful(c) && IsLog(c, blocks, file, es)
    ensures FramedFront(file, OffsetsOf(es, |file|), HeadsOf(es))
    ensures OffsetsOf(es, |file|)[0] == 0
  {
    var offs, heads := OffsetsOf(es, |file|), HeadsOf(es);
    forall k | 0 <= k < |heads| ensures FramedAt(file, offs[k], offs[k + 1], heads[k]) {
      assert FrameAt(c, blocks[k], file, es[k]);
      HeaderAt(c, blocks[k], file, es[k]);
      assert k < |es| - 1 ==> Adjoin(es, k);
    }
  }

  // What the loader makes of entry k: whole milliseconds, and an offset too large by (step - 12) * k.
  function RescannedEntry(e: IndexEntry, step: int, k: nat): IndexEntry {
    IndexEntry(Truncated(e.timestamp), e.offset + (step - HEADER) * k, e.length)
  }

  ghost function Rescanned(es: seq<IndexEntry>, step: int): (rs: seq<IndexEntry>)
    ensures |rs| == |es| && forall k :: 0 <= k < |rs| ==> rs[k] == RescannedEntry(es[k], step, k)
  {
    seq(|es|, k requires 0 <= k < |es| => RescannedEntry(es[k], step, k))
  }

  lemma BelievedIsRescanned(es: seq<IndexEntry>, size: int, step: int)
    requires Tiles(es, size)
    ensures Believed(HeadsOf(es), 0, step) == Rescanned(es, step)
  {
    var offs, heads, rs := OffsetsOf(es, size), HeadsOf(es), Rescanned(es, step);
    forall j | 0 <= j < |heads| ensures Follows(offs, heads, j) {
      assert j < |es| - 1 ==> Adjoin(es, j);
    }
    forall k | 0 <= k < |rs| ensures Believed(heads, 0, step)[k] == rs[k] {
      BelievedAt(heads, offs, 0, step, k);
      DriftIs(step, k);
    }
  }

  // A rescan of any written file ends at end of file and finds every block's
  // header in file order, with the offset of block k too large by (step - 12) * k.
  lemma ScanFindsAll(c: Codec, blocks: seq<Block>, file: seq<Byte>, es: seq<IndexEntry>, step: int)
    requires Faithful(c) && IsLog(c, blocks, file, es)
    ensures Scan(file, 0, 0, step) == Some(Rescanned(es, step))
  {
    LogIsFramed(c, blocks, file, es);
    ScanFront(file, OffsetsOf(es, |file|), HeadsOf(es), 0, step, true);
    BelievedIsRescanned(es, |file|, step);
  }

  // With the 12-byte step every block reads back through what the rescan found.
  lemma HonestStepReadsBack(c: Codec, blocks: seq<Block>, file: seq<Byte>, es: seq<IndexEntry>)
    requires Faithful(c) && IsLog(c, blocks, file, es)
    ensures var rs := Scan(file, 0, 0, HEADER);
            && rs.Some? && |rs.value| == |blocks|
            && forall k :: 0 <= k < |blocks| ==> ReadBlock(c, file, rs.value[k]) == Some(blocks[k])
  {
    ScanFindsAll(c, blocks, file, es, HEADER);
    RescanReadsBackIff(c, blocks, file, es, HEADER);
  }

  // After a rescan with a step of 12 or more every block can be read back exactly
  // when the step is 12 or the file holds at most one block.  Otherwise the last
  // block's extent runs past the end of the file and reading it fails.
  lemma RescanReadsBackIff(c: Codec, blocks: seq<Block>, file: seq<Byte>, es: seq<IndexEntry>, step: int)
    requires Faithful(c) && IsLog(c, blocks, file, es) && step >= HEADER
    ensures (forall k :: 0 <= k < |blocks| ==> ReadBlock(c, file, Rescanned(es, step)[k]) == Some(blocks[k]))
            <==> step == HEADER || |blocks| <= 1
    ensures step > HEADER && |blocks| > 1 ==> ReadBlock(c, file, Rescanned(es, step)[|blocks| - 1]) == None
  {
    if step == HEADER || |blocks| <= 1 {
      forall k | 0 <= k < |blocks| ensures ReadBlock(c, file, Rescanned(es, step)[k]) == Some(blocks[k]) {
        assert FrameAt(c, blocks[k], file, es[k]);
        InPlaceReads(c, blocks[k], file, es[k], step, k);
      }
    } else {
      var last := |blocks| - 1;
      assert FrameAt(c, blocks[last], file, es[last]);
      BeyondEndFails(c, file, es[last], step, last);
      assert ReadBlock(c, file, Rescanned(es, step)[last]) == None;
    }
  }

  lemma InPlaceReads(c: Codec, b: Block, file: seq<Byte>, e: IndexEntry, step: int, k: nat)
    requires Faithful(c) && FrameAt(c, b, file, e) && (step == HEADER || k == 0)
    ensures ReadBlock(c, file, RescannedEntry(e, step, k)) == Some(b)
  {
    ReadBack(c, b, file, e);
    assert (step - HEADER) * k == 0;
  }

  lemma BeyondEndFails(c: Codec, file: seq<Byte>, e: IndexEntry, step: int, k: nat)
    requires End(e) == |file| && step > HEADER && k >= 1
    ensures ReadBlock(c, file, RescannedEntry(e, step, k)) == None
  {
    assert (step - HEADER) * k >= 1;
  }
}
