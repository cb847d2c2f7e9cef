# A time-series analytics engine, modelled and verified

A Dafny model of the stateful and numerical core of a time-series engine
written in Go: the consistent-hash ring and its quorums, the tiered store, the
ingestion pipeline, and the statistics behind seasonality, forecasting and
anomaly detection.  `dafny verify dfyconfig.toml` checks all of it.

The model follows the code where code and documentation disagree.

## Layout

- **Ring and quorums.** `Walks` (a walk round a list that collects what it has
  not seen), `HashRing` (clockwise distance, the replica list as an independent
  definition), `RingWalk` (the loop of `GetNodes`), `Partitioner` (the class with map and
  sorted list), `RingChanges` (joins), `Quorums`, `Cluster` (the manager).
- **Tiered store.** `Points` and `TimeSeries` (one series), `HotState`,
  `HotStorage`, `HotRuns`, `HotAccounting` (the hot layer and its runs),
  `Bytes`, `WarmLog`, `TornLog`, `WarmState`, `WarmStorage`, `WarmStore` (framed log files
  with an index), `Merge`, `EngineState`, `EngineRuns`, `EngineSweeps`, `Engine`.
- **Pipeline.** `Pipeline` is a state machine whose steps are the stretches of
  code between lock operations; `PipelineRuns` and `PipelineStop` prove what
  holds in all its runs; `StreamProcessor` has the methods, each of which leaves
  a state of the machine.
- **Statistics.** `Sums`, `Buckets`, `Seasonality`, `SeasonLengths`, `LinearForecast`,
  `SortedValues`, `AnomalyModels`, `AnomalyDetector`, `Percentiles`,
  `WindowDetector`.
- `Outcomes`, `Maps`, `Sorting`, `Division` hold what several of them use.

## Conventions

Values are `real`; timestamps and the clock are `int` nanoseconds, and the clock
is a parameter.  The hash function, the block encoder and decoder, the
square root, the validator, storage failures and remote calls are parameters or arbitrary choices.
An encoder is assumed faithful where it succeeds: the decoder gives the same
block back, the data are shorter than 2^31 bytes, and the start time in
milliseconds fits 64 bits (`WarmLog.Faithful`).  A list or map that the source
updates is a field of type `seq` or `map`.  Iteration over a map takes its keys
in an arbitrary order.  A sort of the library is a sorted permutation, with the
order of equal keys open.

## What the proofs show about the code

- `GetNodes` compares the number of distinct nodes with the number of virtual
  hashes, so its loop ends only with at least as many owners as the replication
  factor (or one owner per hash).  A new cluster has one member with 150 virtual
  nodes: for every factor above one its first read or write does not return
  (`RingWalk.WalkEndsIff`, `Cluster.ClusterWalkEndsIff`).
- Across a join that changes a replica list, quorums meet only if they add up to
  one more than the usual condition asks (`Quorums.JoinMeetIff`).  Calls from one
  coordinator meet more often, as it answers itself
  (`Quorums.OneCoordinatorMeetsIff`).
- A capped series is sure to keep only the K-1 newest points, because the oldest
  goes before the insertion, even when the insertion overwrites
  (`HotRuns.EvictionKeepsNewestIff`).
- The point counter also counts overwrites (`HotAccounting.AccountingLaw`).
- Reloading a warm file advances its offset by 24 bytes a block instead of 12,
  so of two or more blocks the last one cannot be read after a restart
  (`WarmLog.RescanReadsBackIff`, `WarmStorage.ReloadedReadFails`).
- A warm file whose last append was cut short loads only if nothing of it was
  written, or exactly its timestamp (`TornLog.TornLogLoadsIff`).
- A value overwritten in the hot layer after tiering stays hidden behind the
  tiered one (`EngineState.HotValueReturnedIff`).  A query that starts inside a
  block misses it, so once the series has left the hot layer its points are gone
  unless another block supplies them (`EngineState.DropInvisibleIff`).
- Cleanup removes every stale series, tiered or not, also without a warm layer: it
  loses what no block that starts in the range supplies
  (`EngineSweeps.SweepInvisibleIff`, `EngineSweeps.UntieredSweepLoses`).
- An ingester that was admitted before `Stop` can append after the last flush;
  `PipelineStop.StrandedIff` says for which sizes and how many ingesters.
- All perfect seasons are called significant only for two to three periods of
  data (`SeasonLengths.SeasonsRecognisedIff`); from four full periods on none is
  (`Seasonality.SignificantIsShort`).
- A linear forecast over data whose last two timestamps are equal divides by
  zero, and one over data whose last timestamp goes back does not end its loop
  by itself (`LinearForecast.StepsEndIff`).
- Two of the four ensemble models never vote for an anomaly
  (`AnomalyModels.TwoVotesNeeded`).
- A window detector trained on fewer than four values never judges a point
  again (`WindowDetectors.JudgesIff`).

## Model

| member | source | states |
|---|---|---|
| `Partitioner.ConsistentHashPartitioner.AddNode` | enterprise/clustering.go:478-496 | The hash map becomes the old one with every virtual hash given to the node (a collision overwrites), and the hash list the old list and the new hashes, sorted; the list goes on holding exactly the placed hashes |
| `Partitioner.ConsistentHashPartitioner.SortHashes` | enterprise/clustering.go:489-495 | The exchange sort leaves a sorted permutation |
| `Partitioner.ConsistentHashPartitioner.FindStart` | enterprise/clustering.go:511-518 | The start index is the first hash at or after the key, or 0 when there is none |
| `Partitioner.Collect` | enterprise/clustering.go:520-528 | On a ring with enough owners the loop body runs at most once per listed hash, and stops with the guard false |
| `Partitioner.ConsistentHashPartitioner.GetNodes` | enterprise/clustering.go:499-531 | The result is the first replicaFactor distinct owners by clockwise distance from the hash of the key, without repetition |
| `RingWalk.WalkEndsIff` | enterprise/clustering.go:520-528 | The loop guard, which compares distinct nodes with hashes, becomes false exactly when there are replicaFactor owners or one owner per hash, and then within one turn; otherwise it is true in every reachable loop state |
| `RingWalk.WalkResult` | enterprise/clustering.go:520-531 | Whenever the guard fails, what was collected is the replica list |
| `RingWalk.ReplicasAreSooner` | enterprise/clustering.go:509-531 | By offsets modulo 2^32: a replica list has replicaFactor entries or all owners, and each entry is met sooner, going clockwise from the key, than every later entry and every owner not listed |
| `RingWalk.OwnHashFirst` | enterprise/clustering.go:511-518 | A node with a virtual hash equal to the key hash comes first |
| `HashRing.PlacedAt` | enterprise/clustering.go:482-486 | After placing virtual nodes a hash belongs to the new node exactly when it is one of its virtual hashes; all others keep their owner |
| `HashRing.DecimalParses` | enterprise/clustering.go:483 | The decimal form of an index is made of digits and read back as the index |
| `HashRing.VirtualKeysDiffer` | enterprise/clustering.go:483 | Different virtual nodes, of one node or of two, are hashed under different strings |
| `Walks.DedupNearest` | enterprise/clustering.go:521-527 | Collecting unseen owners along a full turn yields them nearest first |
| `Walks.NearestUnique` | enterprise/clustering.go:499-531 | Injective distances determine one list of the nearest nodes |
| `RingChanges.MinimalMovement` | enterprise/clustering.go:478-531 | A join inserts the new node at one place of a replica list and cuts it to replicaFactor entries; nothing else moves |
| `RingChanges.FullListMovement` | enterprise/clustering.go:478-531 | A full replica list stays as it is, or gains the new node and loses its last entry, all others in the same order |
| `RingChanges.ListLength` | enterprise/clustering.go:520-531 | A replica list is duplicate free, names owners only, and has min(replicaFactor, owners) entries |
| `RingChanges.PlacedJoins` | enterprise/clustering.go:478-487 | AddNode of a new node with collision-free virtual nodes is such a join |
| `RingChanges.JoinOrderIrrelevant` | enterprise/clustering.go:478-531 | Adding the same collision-free nodes in any order gives the same ring and the same replica lists |
| `RingChanges.JoinsCommuteIff` | enterprise/clustering.go:482-486 | Two joins commute exactly when the two nodes share no virtual hash |
| `Quorums.WriteSucceedsIff` | enterprise/clustering.go:176-202 | A write succeeds exactly when a quorum of the replicas answers; a failed write has tried every replica |
| `Quorums.ReadSucceedsIff` | enterprise/clustering.go:219-245 | The same for a read |
| `Quorums.QuorumsMeet` | enterprise/clustering.go:162-247 | With positive quorums adding up to more than the list, every successful write and read of one list share a node, under any failures of either |
| `Quorums.AlwaysMeetIff` | enterprise/clustering.go:162-247 | They always share a node exactly when the quorums add up to more than the list; write and read may have different coordinators |
| `Quorums.OneCoordinatorMeetsIff` | enterprise/clustering.go:162-247 | With the same replica coordinating both, exactly when the quorums add up to more than the list or both are larger than the position of that replica in the list |
| `Quorums.WriteQuorumExact` | enterprise/clustering.go:176-202 | A successful write has exactly quorum many acknowledgements |
| `Quorums.ReadQuorumExact` | enterprise/clustering.go:219-245 | A successful read has exactly quorum many responses |
| `Quorums.JoinMeetIff` | enterprise/clustering.go:162-247 | Across one join that changes the list, every successful write over the old list and every successful read over the new one share a node, under any failures, exactly when the quorums cut to the list add up to its length plus two |
| `Cluster.WriteToReplicas` | enterprise/clustering.go:183-202 | The loop over the replicas acknowledges the answering nodes in list order and stops as soon as the quorum is reached |
| `Cluster.ReadFromReplicas` | enterprise/clustering.go:221-245 | The read loop collects the answering nodes in list order, stops at the quorum and hands back the data of the first of them in the list; none if that is the local node or nobody answered |
| `Cluster.ReadOne` | enterprise/clustering.go:226-241 | The local node answers without data, a member that can be reached with its data, and nobody else |
| `Cluster.QuorumMeans` | enterprise/clustering.go:169-172 | A quorum cut down to the list is reached exactly when that many of the list answer, or all of it |
| `Cluster.ClusterManager.constructor` | enterprise/clustering.go:80-111 | A new cluster has one member, placed with 150 virtual nodes |
| `Cluster.ClusterManager.AddNode` | enterprise/clustering.go:114-136 | Refuses exactly the present members; a new one joins the map and the ring |
| `Cluster.ClusterManager.RemoveNode` | enterprise/clustering.go:139-154 | Marks the member as draining; ring and replica lists stay |
| `Cluster.ClusterManager.WriteDataPoint` | enterprise/clustering.go:162-202 | A write over the replica list of the key: it succeeds exactly when the quorum of the listed nodes answers, or all of them; the acknowledging nodes are the answering ones among those tried |
| `Cluster.ClusterManager.ReadDataPoints` | enterprise/clustering.go:205-247 | A read over the replica list of the key: it succeeds exactly when the quorum of the listed nodes answers, or all of them, and the data are those of the first listed node that answers, none if that is the local one |
| `Cluster.OwnersAreMembers` | enterprise/clustering.go:80-136 | Every replica is a member |
| `Cluster.ClusterWalkEndsIff` | enterprise/clustering.go:80-136 | With collision-free members, one of which has two different virtual hashes, a read or write leaves the walk exactly when the cluster has at least replicaFactor members; a new cluster hangs for every factor above one |
| `Points.UpsertMap` | storage/timeseries.go:40-62 | AddPoint acts on the points as the map update m[ts := v] |
| `Points.UpsertIncreasing` | storage/timeseries.go:40-62 | AddPoint keeps the timestamps strictly increasing |
| `Points.Canonical` | storage/timeseries.go:40-62 | A strictly increasing list of points is determined by its map |
| `Points.InRangeMembers` | storage/timeseries.go:65-95 | A range holds exactly the points with start <= ts <= end |
| `TimeSeries.Search` | storage/timeseries.go:46-52 | Binary search finds the first index at which a monotone condition holds |
| `TimeSeries.Series.AddPoint` | storage/timeseries.go:40-62 | Inserts or overwrites at the place found by binary search; an overwrite leaves lastSeen alone |
| `TimeSeries.Series.GetRange` | storage/timeseries.go:65-95 | Two binary searches give the linear filter start <= ts <= end, for all bounds |
| `TimeSeries.Series.GetLatest` | storage/timeseries.go:98-114 | The last count points, all if there are fewer, none for a count of 0 or less |
| `HotStorage.Storage.AddPoint` | storage/timeseries.go:142-171 | Refused exactly for a new series at the limit, and then nothing changes; otherwise the point is held afterwards, and the new state is the specified one: eviction before insertion, the counter raised below capacity |
| `HotStorage.Storage.GetOrCreate` | storage/timeseries.go:146-155 | The series limit refuses exactly new series at the limit; a new one is empty and seen now, and otherwise no series changes |
| `HotStorage.AddToSeries` | storage/timeseries.go:157-169 | Evicts the oldest point at capacity, then upserts; the counter goes up exactly below capacity, also for an overwrite |
| `HotRuns.AddStores` | storage/timeseries.go:142-171 | A write to a series that exists, or to a new one below the limit, leaves its point held and every other series as it was; any other write changes nothing |
| `HotRuns.AddSeen` | storage/timeseries.go:40-62 | A write marks its series as seen now, unless it overwrites a point that was held after making room |
| `HotAccounting.AddAfterRun` | storage/timeseries.go:142-171 | After every run of adds and cleanups: a write to a series that exists, or to a new one below the limit, leaves its point held; any other write changes nothing |
| `HotStorage.Storage.CleanupStale` | storage/timeseries.go:213-232 | Keeps exactly the series seen at most maxAge ago, as they are, and takes the sizes of the others off the counter |
| `HotStorage.Storage.FindStale` | storage/timeseries.go:216-224 | The stale series in any order of the map, and the points they hold |
| `HotRuns.UnboundedRunIs` | storage/timeseries.go:40-62 | Without a cap, any run of writes leaves the increasing listing of the last-written values |
| `HotRuns.RetentionTheorem` | storage/timeseries.go:142-171 | For writes in any order and a cap K >= 1: the K-1 newest timestamps written are held (all if fewer), at most K points, each with its last-written value |
| `HotRuns.EvictionKeepsNewestIff` | storage/timeseries.go:157-169 | At capacity one write keeps the K newest points exactly when it is the oldest point again or a new, later timestamp |
| `HotAccounting.RunWithinLimits` | storage/timeseries.go:142-171 | After every run: no more series than allowed, none above its cap, every series strictly increasing |
| `HotAccounting.AccountingLaw` | storage/timeseries.go:142-171 | After every run with cap >= 1 the counter is the sum of the live series sizes plus the number of in-place overwrites ever made; the general form covers a cap below 1 |
| `HotAccounting.StoreRetains` | storage/timeseries.go:142-232 | The retention theorem for every live series of the store, over the writes since its creation |
| `Bytes.Int64RoundTrip` | storage/warm_storage.go:377-384 | The 8 little-endian bytes of an int64 decode to it |
| `Bytes.Int32RoundTrip` | storage/warm_storage.go:377-391 | The same for the 4 bytes of the length |
| `Bytes.EncodedAt` | storage/warm_storage.go:377-391 | The i-th byte is the i-th digit to base 256, lowest first, also of a negative number |
| `WarmLog.LogAppend` | storage/warm_storage.go:344-411 | Writing one block extends the tiling of [0, size) by its extent [offset, offset + 12 + length) and moves no earlier frame |
| `WarmLog.FrameLayout` | storage/warm_storage.go:376-395 | A frame is eight bytes of the start in milliseconds, four of the length, and the data |
| `WarmLog.TruncatedIs` | storage/warm_storage.go:378 | A start read back is the whole millisecond next to it towards zero |
| `WarmLog.LogDetermined` | storage/warm_storage.go:344-411 | The blocks written determine file and entries |
| `WarmLog.ReadBack` | storage/warm_storage.go:451-489 | Reading an entry returns the block written for it |
| `WarmLog.HeaderAt` | storage/warm_storage.go:307-324 | A header reads back as the start cut to milliseconds and the length |
| `WarmLog.ScanFindsAll` | storage/warm_storage.go:259-304 | A rescan of any written file ends at end of file and finds every header in file order; the offset of block k is too large by (step - 12) * k |
| `WarmLog.HonestStepReadsBack` | storage/warm_storage.go:259-304 | With the 12-byte step the rescan finds every block and each reads back through what it found |
| `WarmLog.RescanReadsBackIff` | storage/warm_storage.go:259-304 | With a step of 12 or more, every block can be read back through the rescanned index exactly when the step is 12 or the file holds at most one block; otherwise the last one cannot be read |
| `TornLog.TornLogLoadsIff` | storage/warm_storage.go:259-324 | A log whose last frame was cut short at any byte loads exactly when none of it or only its timestamp is there, and then with the entries of all whole frames |
| `WarmState.RangeMembers` | storage/warm_storage.go:413-449 | A range read yields exactly the in-range points of the blocks that start in the range |
| `WarmState.WriteThenRead` | storage/warm_storage.go:80-119 | After a write a range read finds what it found before and the in-range points written, provided the first of them lies in the range and the block can be encoded |
| `WarmStorage.AppendFrame` | storage/warm_storage.go:370-408 | Header and data are appended, the size follows, and the index stays a sorted permutation of the writes |
| `WarmStorage.WarmFile.WriteDataBlock` | storage/warm_storage.go:344-411 | The file becomes the log of the old blocks and the new one; a block that cannot be encoded changes nothing |
| `WarmStorage.WarmFile.ReadDataRange` | storage/warm_storage.go:413-449 | Succeeds, sorted by time, with exactly the in-range points of the blocks that start in the range, each as often as they hold it |
| `WarmStorage.ReadThrough` | storage/warm_storage.go:413-449 | Over any index, sound or not, reading succeeds exactly when every entry in range decodes, and yields their in-range points |
| `WarmStorage.ReadEntry` | storage/warm_storage.go:418-441 | An entry out of range contributes nothing; otherwise its block is read and filtered |
| `WarmStorage.LoadIndex` | storage/warm_storage.go:259-304 | Loading yields the sorted entries of the scan, or fails where the scan does |
| `WarmStorage.ReloadFinds` | storage/warm_storage.go:237-304 | Loading any written file finds every block, with the offset of block k too large by 12 * k |
| `WarmStorage.ReloadedReadFails` | storage/warm_storage.go:237-304 | After a reload, every range read that covers the start of the last of two or more blocks fails |
| `WarmStore.Store.WriteSeriesData` | storage/warm_storage.go:80-106 | One block more in the file of the series; no points, no change; a failing encoder leaves the blocks alone |
| `WarmStore.Store.GetOrCreate` | storage/warm_storage.go:326-342 | A missing file is created empty, modified now; if it is present no file changes |
| `WarmStore.Store.ReadSeriesRange` | storage/warm_storage.go:109-119 | The range of the file of the series; a series without a file has no points |
| `WarmStore.Store.CleanupExpired` | storage/warm_storage.go:166-192 | Keeps exactly the files written within the retention period, as they are, and counts the others |
| `Merge.MergeSortedPoints` | storage/storage_engine.go:379-408 | Strictly increasing timestamps, exactly those of the input, the last occurrence winning, whatever the order of the map |
| `Merge.SortPoints` | storage/storage_engine.go:396-406 | The nested-loop sort lists the same points in increasing order |
| `EngineState.MergedIsAnswer` | storage/storage_engine.go:137-161 | Merging hot then warm points, in any order of equal warm timestamps, gives both timestamp sets once, warm values winning |
| `EngineState.AnswerUnique` | storage/storage_engine.go:137-161 | With one warm value per timestamp a query has one answer |
| `EngineState.HotValueReturnedIff` | storage/storage_engine.go:149-158 | A hot value is returned in every case exactly when no selected warm point has its timestamp with another value |
| `EngineState.DropInvisible` | storage/storage_engine.go:232-293 | Removing a tiered series from the hot layer changes no answer to a query that starts no later than the series |
| `EngineState.DropInvisibleIff` | storage/storage_engine.go:232-293 | For every file the condition is exact: a series can leave the hot layer without changing an answer exactly when each of its timestamps in the range is in a block that starts in the range |
| `EngineState.RetieredDropIff` | storage/storage_engine.go:232-293 | For a file that holds only that series as it is, any number of times: exactly when the query starts no later than the series or finds nothing of it |
| `EngineState.RetierInvisible` | storage/storage_engine.go:253-270 | Writing a block the file already holds changes no answer and keeps one value per timestamp |
| `EngineRuns.RunInvariant` | storage/storage_engine.go:232-293 | In every run of adds, tierings and cleanups the series tiered since their last add have their current points in an unexpired warm file |
| `EngineRuns.AllTieredComplete` | storage/storage_engine.go:253-270 | A tiering that writes all its series leaves the points of each as the last block of its file, modified at that time |
| `EngineRuns.TieredSeriesDropsUnnoticed` | storage/storage_engine.go:232-293 | After every run such a series can be removed from the hot layer without changing an answer to a query that starts no later than it |
| `EngineRuns.RetieringInvisible` | storage/storage_engine.go:232-273 | After every run a tiering changes no answer of a series that it does not write or that was tiered since its last add |
| `EngineSweeps.SweepInvisibleIff` | storage/storage_engine.go:276-293 | After every run, for every series and time: a cleanup changes no answer exactly when what goes of one layer is found in the other |
| `EngineSweeps.StaleSweepInvisibleIff` | storage/storage_engine.go:276-293 | For a stale series whose file stays: exactly when each of its timestamps in the range is in a block that starts in the range |
| `EngineSweeps.UntieredSweepLosesAll` | storage/storage_engine.go:276-293 | A stale series that was never tiered gives no points after the cleanup |
| `EngineSweeps.UntieredSweepLoses` | storage/storage_engine.go:276-293 | It happens: one add and a cleanup before any tiering lose the point |
| `EngineSweeps.TieredSweepUnnoticed` | storage/storage_engine.go:232-293 | After every run and at any time a cleanup changes no answer of a series tiered since its last add whose file stays, to queries that start no later than it |
| `EngineSweeps.TierThenSweepSafe` | storage/storage_engine.go:232-293 | After a complete tiering, a cleanup at any time before the file expires loses no answer of a series that was due, to queries that start no later than it |
| `EngineSweeps.DueIsStale` | storage/storage_engine.go:232-293 | At the same time tiering and cleanup pick the same series |
| `Engine.StorageEngine.AddPoint` | storage/storage_engine.go:118-121 | Adds to the hot layer only; refused exactly for a new series at its limit, otherwise the point is held afterwards |
| `Engine.StorageEngine.GetRange` | storage/storage_engine.go:137-161 | The result is an answer of the two layers |
| `Engine.StorageEngine.PerformTiering` | storage/storage_engine.go:232-273 | Every series with points last seen before the cutoff is written, in some order, until one write fails; it succeeds exactly when all of them can be encoded, and nothing leaves the hot layer |
| `Engine.StorageEngine.SeriesDue` | storage/storage_engine.go:237-251 | The series with points that were last seen before the cutoff, each once, in any order of the map |
| `Engine.StorageEngine.WriteAll` | storage/storage_engine.go:253-270 | The series are written in order up to the first failure |
| `Engine.StorageEngine.WriteOne` | storage/storage_engine.go:255-268 | All points of the series become one block of its file; the hot layer stays |
| `Engine.StorageEngine.PerformCleanup` | storage/storage_engine.go:276-293 | Keeps exactly the series seen and the files written within their retention, and counts the others |
| `PipelineRuns.RunInv` | ingestion/stream_processor.go:141-313 | All invariants hold in every state of every interleaving of ingesters, flusher and Stop |
| `PipelineRuns.NothingLost` | ingestion/stream_processor.go:175-313 | In every interleaving the accepted metrics are those in the buffer, in flight, stored and refused by storage, each once; TotalIngested counts them, and the other counters lag only by calls not yet counted |
| `PipelineRuns.BufferBound` | ingestion/stream_processor.go:182-206 | In every interleaving with batchSize >= 1 the buffer holds at most batchSize - 1 metrics and one for each ingester that owes a flush, so at most batchSize - 1 + T for T ingesters |
| `PipelineStop.BufferBoundReached` | ingestion/stream_processor.go:182-206 | With capacity for it, some interleaving reaches that bound |
| `PipelineStop.StopDrains` | ingestion/stream_processor.go:158-172 | If no ingester is inside a call when Stop takes the lock, then when Stop has returned buffer and in-flight batches are empty and every accepted metric was stored or refused, and counted |
| `PipelineStop.StrandedStays` | ingestion/stream_processor.go:158-207 | A metric left in the buffer after that stays there for ever |
| `PipelineStop.TickTakesBuffer` | ingestion/stream_processor.go:231-269 | In every state in which the flusher waits, a tick and its flush leave the buffer empty and the flusher with exactly the metrics that were in it |
| `PipelineStop.TickStoresBuffer` | ingestion/stream_processor.go:231-288 | From there steps of the flusher alone hand exactly those metrics to storage, which may take or refuse them, and the flusher waits again |
| `PipelineStop.FlusherEndsForGood` | ingestion/stream_processor.go:238-243 | Whenever the flusher waits it can end, whether Stop was called or its context is done, and no step of any run brings it back |
| `PipelineStop.StrandedIff` | ingestion/stream_processor.go:158-207 | Some interleaving leaves a metric in the buffer after Stop and all calls have returned exactly when there is an ingester, batchSize >= 2 and bufferSize <= batchSize + T - 2 |
| `StreamProcessors.StreamProcessor.Start` | ingestion/stream_processor.go:141-155 | Refused while running; otherwise the flusher runs |
| `StreamProcessors.StreamProcessor.ProcessBatch` | ingestion/stream_processor.go:272-288 | Every metric of the batch is handed to storage once and counted as processed or as an error |
| `StreamProcessors.StreamProcessor.StoreMetric` | ingestion/stream_processor.go:273-287 | One storage call and the counter of its outcome |
| `StreamProcessors.StreamProcessor.FlushBuffer` | ingestion/stream_processor.go:251-269 | The buffer is emptied into storage; a batch is counted unless it was empty |
| `StreamProcessors.StreamProcessor.FlushTick` | ingestion/stream_processor.go:238-246 | One tick empties the buffer into storage, counts every metric of it as processed or as an error, and a batch unless it was empty |
| `StreamProcessors.StreamProcessor.IngestMetric` | ingestion/stream_processor.go:175-207 | Accepts exactly valid metrics while running; flushes for capacity before and for batch size after the append; a state of the machine is left |
| `StreamProcessors.StreamProcessor.FlushIfFullAndAppend` | ingestion/stream_processor.go:189-197 | A buffer at capacity is flushed, then the metric is appended and counted without another check |
| `StreamProcessors.StreamProcessor.FlushIfDue` | ingestion/stream_processor.go:199-204 | A buffer of batch size is flushed |
| `StreamProcessors.StreamProcessor.Stop` | ingestion/stream_processor.go:158-172 | Ends the flusher and hands the rest of the buffer to storage |
| `StreamProcessors.AtRestBetweenCalls` | ingestion/stream_processor.go:175-313 | Between the calls of a single caller the buffer is shorter than a batch and everything else has reached storage and is counted |
| `Buckets.TotalVariance` | enterprise/advanced_analytics.go:455-490 | For any putting of values into non-empty buckets, total variance is variance within plus variance between the buckets |
| `Buckets.BetweenIsTotalIff` | enterprise/advanced_analytics.go:455-490 | The variance between is never more than the total, and all of it exactly when every value is the mean of its bucket |
| `Seasonality.CountsAre` | enterprise/advanced_analytics.go:455-463 | By index modulo the period each bucket gets n/p values, the first n mod p one more |
| `Seasonality.StrengthBound` | enterprise/advanced_analytics.go:450-497 | For n >= 2p the strength lies in [0, 1/(n/p)] |
| `Seasonality.StrengthMaximalIff` | enterprise/advanced_analytics.go:450-497 | For every length the bound is reached exactly by the series that repeat with the period and have the overall mean in the first n mod p places |
| `Seasonality.SignificantIsShort` | enterprise/advanced_analytics.go:424-447 | A strength above 0.3 needs fewer than four periods of data |
| `SeasonLengths.SeasonsRecognisedIff` | enterprise/advanced_analytics.go:424-497 | For a period of at least 2 and n >= 2p: all non-constant series of length n that repeat are called significant exactly when n <= 3p |
| `Seasonality.CalculateSeasonality` | enterprise/advanced_analytics.go:424-447 | An error below 24 values; otherwise exactly those of 24, 168, 720 that fit twice get their strength, which is significant above 0.3, and none that fits four times is significant |
| `Seasonality.CalculateSeasonalStrength` | enterprise/advanced_analytics.go:450-497 | The strength is the quotient of the spread of the bucket means and that of the data; 0 below two periods or without variance |
| `Seasonality.BucketTotals` | enterprise/advanced_analytics.go:455-463 | Sums and counts by bucket are accumulated in place |
| `Seasonality.MeansByBucket` | enterprise/advanced_analytics.go:465-471 | Means of the non-empty buckets, 0 for empty ones |
| `Seasonality.SumOfSquares` | enterprise/advanced_analytics.go:481-488 | The accumulated squared distances from a value |
| `Sums.MeanMinimises` | enterprise/advanced_analytics.go:473-488 | The squared distances from any value are those from the mean and, for each value, the squared distance of the two |
| `LinearForecast.DenominatorPositive` | enterprise/advanced_analytics.go:307 | The denominator is positive for n >= 2 |
| `LinearForecast.FitBalances` | enterprise/advanced_analytics.go:293-308 | The residuals of the fit sum to zero and are orthogonal to the indices |
| `LinearForecast.LeastSquares` | enterprise/advanced_analytics.go:293-308 | No other line has as small a squared error |
| `LinearForecast.ExactFit` | enterprise/advanced_analytics.go:293-308 | Data on a line are fitted by that line |
| `LinearForecast.ForecastContinues` | enterprise/advanced_analytics.go:319-338 | Data on a line are continued on it at every step |
| `LinearForecast.StepsEndIff` | enterprise/advanced_analytics.go:319 | The step loop ends exactly for an interval that is positive or greater than the horizon |
| `LinearForecast.ForecastSpaced` | enterprise/advanced_analytics.go:319-338 | The first forecast is one interval after the last point, each other one interval after the one before; its value is the line at its index, its bounds lie a tenth of the value to either side |
| `LinearForecast.StepsFill` | enterprise/advanced_analytics.go:319 | The steps are as many whole intervals as the horizon holds |
| `LinearForecast.FitLine` | enterprise/advanced_analytics.go:293-308 | One pass of four sums gives slope and intercept of the fit |
| `LinearForecast.LinearSums` | enterprise/advanced_analytics.go:297-304 | The four sums over indices and values |
| `LinearForecast.LinearForecast` | enterprise/advanced_analytics.go:288-341 | An error below two points; otherwise one result per whole interval in the horizon, at the specified time and value |
| `AnomalyDetectors.ZScoreModel.Train` | analytics/ml/anomaly_detector.go:178-231 | Mean and population standard deviation of the values; no values, no change |
| `AnomalyDetectors.ZScoreModel.UpdateStats` | analytics/ml/anomaly_detector.go:212-231 | Two loops compute mean and population standard deviation of the history |
| `AnomalyDetectors.IQRModel.Train` | analytics/ml/anomaly_detector.go:244-302 | Quartiles at positions n/4 and 3n/4 of the sorted values; fewer than four values leave the old ones |
| `AnomalyDetectors.AnomalyDetector.TrainModels` | analytics/ml/anomaly_detector.go:93-111 | No data is an error and no change; otherwise the data are sorted by time, the statistics are theirs, and k of the n points are flagged with k t^2 <= n, less if any is |
| `AnomalyDetectors.AnomalyDetector.DetectAnomalies` | analytics/ml/anomaly_detector.go:114-131 | In any order of the models a point is flagged exactly when both spreads are non-zero, it is more than threshold deviations from the mean, and more than multiplier interquartile ranges below the lower or above the upper quartile |
| `AnomalyDetectors.EnsembleDecision` | analytics/ml/anomaly_detector.go:134-165 | Flagged exactly when at least half of the models vote for it; score times their number is the sum of the scores, no number if one of them is none, and confidence times their number the votes |
| `AnomalyModels.TwoVotesNeeded` | analytics/ml/anomaly_detector.go:134-165 | Two of the four models never vote for an anomaly, so a flag needs both others, and the confidence is never above one half and is that exactly for flagged points |
| `AnomalyModels.FlagMeans` | analytics/ml/anomaly_detector.go:114-288 | The vote by the numbers: both spreads non-zero, |x - mean| > threshold * deviation, and q1 - x or x - q3 > multiplier * interquartile range |
| `AnomalyModels.FlagAntitone` | analytics/ml/anomaly_detector.go:114-288 | Raising threshold or multiplier flags no other point |
| `AnomalyModels.ScoreMeans` | analytics/ml/anomaly_detector.go:134-288 | The score of the vote is a quarter of the deviations in thresholds plus the interquartile ranges out of bounds plus 0.3 |
| `AnomalyModels.DecisionMeans` | analytics/ml/anomaly_detector.go:134-165 | For any results: at least half of the votes flag, the score is the mean, the confidence the share of votes |
| `AnomalyModels.OrderIrrelevant` | analytics/ml/anomaly_detector.go:134-165 | The decision does not depend on the order of the results |
| `AnomalyModels.ScoresAgree` | analytics/ml/anomaly_detector.go:189-288 | A z-score vote is a score above 1, a quartile vote a positive score; the confidence is half of the score, up to 1 |
| `AnomalyModels.Chebyshev` | analytics/ml/anomaly_detector.go:212-231 | k values further from the mean than a bound take more than k times the bound off the variance |
| `AnomalyModels.FewFlagged` | analytics/ml/anomaly_detector.go:93-165 | Of n points trained on, k are flagged with k t^2 <= n, strictly when k > 0 |
| `AnomalyModels.NoneFlagged` | analytics/ml/anomaly_detector.go:93-165 | With no more points than the squared threshold none is flagged |
| `AnomalyModels.QuartilesFlagHalf` | analytics/ml/anomaly_detector.go:255-302 | With a multiplier of 0 or more, at most n/4 + (n - 1 - 3n/4) of the points are flagged |
| `SortedValues.SortSorts` | analytics/ml/anomaly_detector.go:295-297 | The sorted values are a sorted permutation |
| `Percentiles.PercentileMonotone` | analytics/anomaly_detection.go:539-557 | A percentile lies between the least and the greatest value, and a higher one is not less |
| `Percentiles.PercentileEnds` | analytics/anomaly_detection.go:539-557 | The percentiles 0 and 100 are the least and the greatest value |
| `Percentiles.PercentileInterpolates` | analytics/anomaly_detection.go:545-557 | At 100 (k + w) / (n - 1) with 0 <= w <= 1 the percentile is s[k] + w (s[k+1] - s[k]) |
| `Percentiles.PercentileRescales` | analytics/anomaly_detection.go:539-557 | The percentile of a v + b is a times the percentile plus b |
| `Percentiles.SortRescales` | analytics/anomaly_detection.go:246-248 | Sorting commutes with v -> a v + b for a > 0 |
| `WindowDetectors.VerdictRescales` | analytics/anomaly_detection.go:230-289 | Verdict and score stay the same when window and point are rescaled together; the bounds are rescaled |
| `WindowDetectors.DetectorRescales` | analytics/anomaly_detection.go:207-289 | So do all verdicts over every stream after a training with rescaled values |
| `WindowDetectors.WindowIs` | analytics/anomaly_detection.go:207-289 | The window is the last windowSize of all values trained on and seen since when training left at least four; otherwise it never changes |
| `WindowDetectors.JudgesIff` | analytics/anomaly_detection.go:230-289 | Points are judged exactly by detectors trained on at least four values with a window of at least four, whatever came since |
| `WindowDetectors.JudgementIsOutside` | analytics/anomaly_detection.go:255-268 | With a multiplier of 0 or more the bounds lie around the quartiles, and flag, positive score and being out of bounds are the same |
| `WindowDetectors.FewOfTheWindow` | analytics/anomaly_detection.go:230-289 | Of the n values of the window at most a quarter of n - 1, rounded up, is out of bounds on each side |
| `WindowDetectors.IQRDetector.Train` | analytics/anomaly_detection.go:207-228 | No points is an error; otherwise the last windowSize values are kept, all if fewer |
| `WindowDetectors.IQRDetector.Detect` | analytics/anomaly_detection.go:230-289 | Below four values no verdict and no change; otherwise the point is judged by the interpolated quartiles of the window before it, out of bounds exactly beyond multiplier times their distance, with the distance out of bounds in that unit as score, and enters the window, whose oldest value leaves at windowSize |

## Left out

- Floating point: rounding, NaN and infinities are not modelled; values are real numbers. The one infinity that matters, the score of a point outside equal quartiles, is a case of its own.
- Integer width: nanosecond times outside int64 and durations that wrap around are not modelled; the header's 64-bit time and 32-bit length are.
- Freshness of quorum reads: the source hands back the first response, so intersection is claimed and freshness is not.
- Cluster.ClusterManager.ReadDataPoints: a negative read quorum is excluded; the source sizes a buffer with it and panics.
- Cluster.ClusterManager.WriteDataPoint: rings on which the walk does not end are excluded by the exact condition of `RingWalk.WalkEndsIff`; the same holds for ReadDataPoints and GetNodes.
- Partitioner.ConsistentHashPartitioner.constructor: a negative replica factor, with which the source panics when it sizes its list, is excluded.
- HotStorage.Storage.AddPoint: labels are not modelled; queries by label filter are easy set filters.
- Several readings of the clock within one call are one reading.
- WarmStorage.WarmFile.WriteDataBlock: of the failures, only that of the encoder is modelled; disk errors on open, write, seek and close are not.
- WarmStore.Store.CleanupExpired: every removal succeeds; in the source a failing one stops the cleanup there and is reported.
- WarmStorage.LoadIndex: a file whose last eight bytes are a lone timestamp is read as ended, as the code does (`TornLog.TornLogLoadsIff`); file names, directories and modification times are not modelled.
- Sorting of warm points and index entries is the contract of a library sort, not an algorithm.
- Engine.StorageEngine.GetRange: a failing warm read cannot occur for files written in the same session; after a reload see `WarmStorage.ReloadedReadFails`.
- Engine: the workers' timers and their interleaving with calls on the engine; each operation is one step of a run.
- PipelineRuns.NothingLost: the append and the counter that follows it under the same lock are one step, and so are the copy and the clearing of the buffer.
- StreamProcessors.StreamProcessor.Start: a start after Stop is excluded; the source accepts it, but the flusher then meets a closed channel and the next Stop closes it again. The gap inside Start before the flusher runs is not modelled.
- StreamProcessors.StreamProcessor.IngestMetric: the class runs one thread at a time; interleavings are those of the state machine, whose ghost trace the class extends.
- Metric validation is an arbitrary verdict; its rules are single comparisons.
- LinearForecast.LinearForecast: excludes an interval of zero or less that is not above the horizon; the source then divides by zero or runs until the duration wraps around.
- Seasonality.CalculateSeasonalStrength: a period of zero or less, which the source never passes and would fail on, is excluded.
- AnomalyDetectors.AnomalyDetector.DetectAnomalies: a score or confidence that comes of a division by a threshold of zero is "no number"; whether it is infinite or undefined is not told apart. Explanation texts are not modelled.
- AnomalyDetectors.AnomalyDetector.TrainModels: the training of the seasonal and isolation models is not modelled, as nothing reads its results; but a configured seasonal period of 0 makes the source's training panic, when it takes an index modulo the period (analytics/ml/anomaly_detector.go:324).
- WindowDetectors.IQRDetector.Detect: timestamps and names in the result are copies and are not modelled; a negative window size, with which the source panics, is excluded.
- Percentiles.PercentileRescales: the empty list, whose percentile is 0, is excluded.
- The z-score and moving-average window detectors, the engine that keeps detectors by series, and the stored results: the same window queue with simpler verdicts.
- Remote transport, heartbeats, migration and repair: network calls and stubs.
- gzip, JSON and the hash function: parameters.
- Compaction of files: a stub.
- Forecasting models of fixed formulas, exponential smoothing and the placeholders beside them.
- Multitenancy, HTTP server, command line and configuration: counters and plumbing.
