/**
 The warm store as an object over file objects.  Each operation is proved
 equal to the value-level operation of WarmState.
 */
module WarmStore {
  import opened Maps
  import opened Outcomes
  import opened Points
  import opened Sorting
  import opened WarmLog
  import opened WarmState
  import opened WarmStorage

  ghost function StateOf(f: WarmFile): FileState
    reads f
  {
    FileState(f.blocks, f.lastModified)
  }

  ghost function StatesOf(files: map<string, WarmFile>): Warm
    reads files.Values
  {
    map id | id in files :: StateOf(files[id])
  }

  class Store {
    const codec: Codec
    const retentionPeriod: int
    var files: map<string, WarmFile>

    ghost predicate Valid()
      reads this, files.Values
    {
      && Faithful(codec)
      && (forall id :: id in files ==> files[id].Valid() && files[id].codec == codec && files[id].seriesID == id)
    }

    ghost function State(): Warm
      reads this, files.Values
    {
      StatesOf(files)
    }

    constructor (codec: Codec, retentionPeriod: int)
      requires Faithful(codec)
      ensures Valid() && files == map[] && State() == map[]
      ensures this.codec == codec && this.retentionPeriod == retentionPeriod
    {
      this.codec, this.retentionPeriod, files := codec, retentionPeriod, map[];
    }

    method WriteSeriesData(seriesID: string, points: seq<DataPoint>, now: int) returns (ok: bool)
      requires Valid()
      modifies this, files.Values
      ensures Valid()
      ensures forall id :: id in files ==> fresh(files[id]) || (id in old(files) && files[id] == old(files)[id])
      ensures points == [] ==> ok && State() == old(State())
      ensures points != [] ==>
        && (ok <==> codec.enc(BlockOf(seriesID, points)).Some?)
        && State() == Written(codec, old(State()), seriesID, points, now)
    {
      if |points| == 0 {
        return true;
      }
      ghost var warm := State();
      GetOrCreate(seriesID, now);
      ghost var mid := State();
      ok := WriteTo(seriesID, BlockOf(seriesID, points), now);
      WrittenInTwoSteps(codec, warm, mid, seriesID, points, now, State());
    }

    method GetOrCreate(seriesID: string, now: int)
      requires Valid()
      modifies this`files
      ensures Valid() && seriesID in files
      ensures forall id :: id in files ==> fresh(files[id]) || (id in old(files) && files[id] == old(files)[id])
      ensures State() == Opened(old(State()), seriesID, now)
      ensures if seriesID in old(files) then files == old(files)
              else files[seriesID].blocks == [] && files[seriesID].lastModified == now
    {
      ghost var states := StatesOf(files);
      if seriesID in files {
        MapSetSame(states, seriesID);
        return;
      }
      Create(seriesID, now);
    }

    method Create(seriesID: string, now: int)
      requires Valid() && seriesID !in files
      modifies this`files
      ensures Valid()
      ensures seriesID in files && fresh(files[seriesID]) && files == old(files)[seriesID := files[seriesID]]
      ensures files[seriesID].blocks == [] && files[seriesID].lastModified == now
      ensures State() == Opened(old(State()), seriesID, now)
    {
      ghost var states := StatesOf(files);
      var f := new WarmFile(seriesID, codec, now);
      files := files[seriesID := f];
      forall id | id in states ensures StatesOf(files)[id] == states[id] {
        assert files[id] == old(files)[id];
      }
      MapSet(states, StatesOf(files), seriesID, FileState([], now));
    }

    method WriteTo(seriesID: string, block: Block, now: int) returns (ok: bool)
      requires Valid() && seriesID in files
      modifies files[seriesID]
      ensures Valid()
      ensures ok <==> codec.enc(block).Some?
      ensures State() == Appended(codec, old(State()), seriesID, block, now)
    {
      ghost var states := StatesOf(files);
      ok := files[seriesID].WriteDataBlock(block, now);
      forall id | id in states && id != seriesID ensures StatesOf(files)[id] == states[id] {
        assert files[id] != files[seriesID];
      }
      MapSet(states, StatesOf(files), seriesID, StateOf(files[seriesID]));
    }

    // A series without a file has no points; the files of this store never fail to read.
    method ReadSeriesRange(seriesID: string, start: int, end: int) returns (r: Option<seq<DataPoint>>)
      requires Valid()
      ensures r.Some? && SortedBy(r.value, BY_TS)
      ensures multiset(r.value) == RangeOf(FileBlocks(State(), seriesID), start, end)
      ensures forall p :: p in r.value <==>
        && seriesID in files
        && exists b :: b in files[seriesID].blocks && start <= b.start <= end && p in b.points && start <= p.ts <= end
    {
      if seriesID !in files {
        return Some([]);
      }
      r := files[seriesID].ReadDataRange(start, end);
    }

    method CleanupExpired(now: int) returns (count: nat)
      requires Valid()
      modifies this
      ensures Valid() && files.Values <= old(files.Values)
      ensures State() == old(State()) - ExpiredIds(old(State()), now, retentionPeriod)
      ensures count == |ExpiredIds(old(State()), now, retentionPeriod)|
      ensures forall id :: id in files <==> id in old(files) && now - old(files[id].lastModified) <= retentionPeriod
      ensures forall id :: id in files ==> files[id] == old(files[id])
    {
      ghost var warm := State();
      var expired := set id | id in files && files[id].lastModified < now - retentionPeriod;
      assert expired == ExpiredIds(warm, now, retentionPeriod);
      files := files - expired;
      MapDrop(warm, StatesOf(files), expired);
      count := |expired|;
    }
  }

  ghost function Opened(warm: Warm, id: string, now: int): Warm {
    warm[id := if id in warm then warm[id] else FileState([], now)]
  }

  ghost function Appended(c: Codec, warm: Warm, id: string, block: Block, now: int): Warm
    requires id in warm
  {
    warm[id := if c.enc(block).Some? then FileState(warm[id].blocks + [block], now) else warm[id]]
  }

  lemma WrittenInTwoSteps(
      c: Codec, warm: Warm, mid: Warm, id: string, points: seq<DataPoint>, now: int, after: Warm)
    requires points != [] && mid == Opened(warm, id, now)
    requires after == Appended(c, mid, id, BlockOf(id, points), now)
    ensures after == Written(c, warm, id, points, now)
  {
    MapSetTwice(warm, id, mid[id], after[id]);
  }
}
