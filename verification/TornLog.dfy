/**
 Loading a warm file whose last append was cut short.
 */
module TornLog {
  import opened Bytes
  import opened Outcomes
  import opened WarmLog

  lemma FramedStill(file: seq<Byte>, tail: seq<Byte>, o: int, next: int, h: Head)
    requires FramedAt(file, o, next, h)
    ensures FramedAt(file + tail, o, next, h)
  {
    PrefixSlice(file, tail, o, o + 8);
    PrefixSlice(file, tail, o + 8, o + HEADER);
  }

  lemma LogIsFront(c: Codec, blocks: seq<Block>, file: seq<Byte>, es: seq<IndexEntry>, tail: seq<Byte>)
    requires Faithful(c) && IsLog(c, blocks, file, es)
    ensures FramedFront(file + tail, OffsetsOf(es, |file|), HeadsOf(es))
    ensures OffsetsOf(es, |file|)[0] == 0
  {
    var offs, heads := OffsetsOf(es, |file|), HeadsOf(es);
    LogIsFramed(c, blocks, file, es);
    forall k | 0 <= k < |heads| ensures FramedAt(file + tail, offs[k], offs[k + 1], heads[k]) {
      FramedStill(file, tail, offs[k], offs[k + 1], heads[k]);
    }
  }

  // A header that is there in full is read, and its data are not.
  lemma TornData(file: seq<Byte>, start: int, data: seq<Byte>, n: nat)
    requires |data| < TWO_32 / 2 - HEADER && HEADER <= n < HEADER + |data|
    ensures var read := ReadHeader(file + Frame(start, data)[..n], |file|); read.Read? && read.length == |data|
  {
    var frame := Frame(start, data);
    FrameParts(start, data);
    SmallLength(|data|);
    Int32RoundTrip(|data|);
    var all := file + frame[..n];
    assert all[|file| + 8..|file| + HEADER] == frame[8..HEADER];
  }

  lemma TornEnds(c: Codec, file: seq<Byte>, b: Block, n: nat, step: int)
    requires Faithful(c) && c.enc(b).Some? && n < |Frame(b.start, c.enc(b).value)|
    ensures Ends(file + Frame(b.start, c.enc(b).value)[..n], |file|, step, n == 0 || n == 8)
  {
    if n >= HEADER {
      TornData(file, b.start, c.enc(b).value, n);
    }
  }

  // A log whose last frame was cut after n bytes loads exactly when nothing or only
  // the timestamp was written; it then has the entries of the whole frames.
  lemma TornLogLoadsIff(
      c: Codec, blocks: seq<Block>, file: seq<Byte>, es: seq<IndexEntry>, b: Block, n: nat, step: int)
    requires Faithful(c) && IsLog(c, blocks, file, es)
    requires c.enc(b).Some? && n < |Frame(b.start, c.enc(b).value)|
    ensures Scan(file + Frame(b.start, c.enc(b).value)[..n], 0, 0, step)
            == if n == 0 || n == 8 then Some(Rescanned(es, step)) else None
  {
    var tail := Frame(b.start, c.enc(b).value)[..n];
    TornEnds(c, file, b, n, step);
    LogIsFront(c, blocks, file, es, tail);
    ScanFront(file + tail, OffsetsOf(es, |file|), HeadsOf(es), 0, step, n == 0 || n == 8);
    BelievedIsRescanned(es, |file|, step);
  }
}
