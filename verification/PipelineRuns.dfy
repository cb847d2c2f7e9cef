/**
 What holds in every state of every interleaving of the ingestion pipeline.
 */
module PipelineRuns {
  import opened Pipeline

  // ---- Roles -------------------------------------------------------------------------

  ghost predicate FlusherPc(pc: Pc) {
    match pc
    case NotStarted => true
    case Idle => true
    case Exited => true
    case MustFlush(next) => next == WaitTick
    case Storing(_, next) => next == WaitTick
    case Counting(_, _, next) => next == WaitTick
    case Batched(next) => next == WaitTick
    case _ => false
  }

  ghost predicate StopperPc(pc: Pc) {
    match pc
    case Idle => true
    case Waiting => true
    case Exited => true
    case MustFlush(next) => next == Finish
    case Storing(_, next) => next == Finish
    case Counting(_, _, next) => next == Finish
    case Batched(next) => next == Finish
    case _ => false
  }

  ghost predicate IngesterPc(pc: Pc) {
    match pc
    case Idle => true
    case Arrived(_) => true
    case MustFlush(next) => next.Append? || next.Return?
    case Storing(_, next) => next.Append? || next.Return?
    case Counting(_, _, next) => next.Append? || next.Return?
    case Batched(next) => next.Append? || next.Return?
    case Retaking(next) => next.Append? || next.Return?
    case _ => false
  }

  ghost predicate RoleAt(i: nat, pc: Pc) {
    if i == FLUSHER then FlusherPc(pc) else if i == STOPPER then StopperPc(pc) else IngesterPc(pc)
  }

  ghost predicate Roles(threads: seq<Pc>) {
    |threads| >= 2 && forall i :: 0 <= i < |threads| ==> RoleAt(i, threads[i])
  }

  // Start happens once; Stop needs a started processor and ends its running.
  ghost predicate Lifecycle(s: State) {
    && Roles(s.threads)
    && Phases(s)
  }

  // Stop has taken what the buffer held.
  ghost predicate FlushedPc(pc: Pc) {
    pc.Storing? || pc.Counting? || pc.Batched? || pc.Exited?
  }

  ghost predicate Phases(s: State)
    requires |s.threads| >= 2
  {
    && (s.running ==> !s.threads[FLUSHER].NotStarted? && s.threads[STOPPER].Idle?)
    && (!s.threads[STOPPER].Idle? ==> !s.running && !s.threads[FLUSHER].NotStarted?)
    && (s.threads[STOPPER].MustFlush? || s.stopFlushed ==>
          s.threads[FLUSHER].Exited? && !s.threads[STOPPER].Idle? && !s.threads[STOPPER].Waiting?)
    && (s.stopFlushed <==> FlushedPc(s.threads[STOPPER]))
  }

  // ---- Conservation ------------------------------------------------------------------

  // Every accepted metric is in the buffer, in flight, stored or refused by storage, once.
  ghost predicate Conserved(s: State) {
    s.accepted == multiset(s.buffer) + InFlight(s.threads) + s.stored + s.failed
  }

  // What the counters lack: calls stored or refused and not counted yet.
  ghost predicate Counters(s: State) {
    (s.ingested, s.processed + CountIf(s.threads, StoredUncounted), s.errors + CountIf(s.threads, FailedUncounted))
    == (|s.accepted|, |s.stored|, |s.failed| + s.invalid)
  }

  // ---- Buffer bound ------------------------------------------------------------------

  ghost function Slack(cfg: Config): int {
    if cfg.batchSize < 1 then 0 else cfg.batchSize - 1
  }

  ghost predicate Bounded(cfg: Config, s: State) {
    |s.buffer| <= Slack(cfg) + Owing(s.threads)
  }

  // ---- After Stop's flush ------------------------------------------------------------

  // Only ingesters admitted before can still put metrics into the buffer.
  ghost predicate StopBound(s: State) {
    s.stopFlushed ==> |s.buffer| + Appenders(s.threads) <= s.late
  }

  ghost predicate Inv(cfg: Config, s: State) {
    Lifecycle(s) && Conserved(s) && Counters(s) && Bounded(cfg, s) && StopBound(s)
  }

  // ---- One thread moves ---------------------------------------------------------------

  lemma InitInv(cfg: Config, ingesters: nat)
    ensures Inv(cfg, Init(ingesters))
  {
    var s := Init(ingesters);
    forall i | 0 <= i < |s.threads| ensures s.threads[i] == if i == 0 then NotStarted else Idle {}
    assert Lifecycle(s);
    CountNone(s.threads, Owes);
    CountNone(s.threads, WillAppend);
    CountNone(s.threads, StoredUncounted);
    CountNone(s.threads, FailedUncounted);
    NothingHeld(s.threads);
    InitConserved(s);
  }

  lemma InitConserved(s: State)
    requires s.buffer == [] && InFlight(s.threads) == multiset{}
    requires s.accepted == s.stored == s.failed == multiset{}
    ensures Conserved(s)
  {
  }

  lemma {:induction false} NothingHeld(threads: seq<Pc>)
    requires forall i :: 0 <= i < |threads| ==> Held(threads[i]) == multiset{}
    ensures InFlight(threads) == multiset{}
  {
    if threads != [] {
      NothingHeld(threads[..|threads| - 1]);
    }
  }

  ghost function Actor(a: Action): nat {
    match a
    case Start => FLUSHER
    case Call(i, _, _) => i
    case Enter(i) => i
    case Flush(i) => i
    case Store(i, _) => i
    case Count(i) => i
    case CountBatch(i) => i
    case Retake(i) => i
    case Tick => FLUSHER
    case FlusherExit => FLUSHER
    case StopCalled => STOPPER
    case StopJoined => STOPPER
  }

  lemma FlushMoves(s: State, i: nat, next: After)
    requires i < |s.threads|
    ensures |Flushed(s, i, next).threads| == |s.threads|
    ensures Flushed(s, i, next).threads == s.threads[i := Flushed(s, i, next).threads[i]]
  {
  }

  lemma AppendMoves(cfg: Config, s: State, i: nat, m: Metric)
    requires i < |s.threads|
    ensures |Appended(cfg, s, i, m).threads| == |s.threads|
    ensures Appended(cfg, s, i, m).threads == s.threads[i := Appended(cfg, s, i, m).threads[i]]
  {
  }

  lemma OneMoves(cfg: Config, s: State, a: Action)
    requires Enabled(s, a)
    ensures Actor(a) < |s.threads| && |Step(cfg, s, a).threads| == |s.threads|
    ensures Step(cfg, s, a).threads == s.threads[Actor(a) := Step(cfg, s, a).threads[Actor(a)]]
  {
    match a
    case Flush(i) => FlushMoves(s, i, s.threads[i].next);
    case Enter(i) => AppendMoves(cfg, s, i, s.threads[i].m);
    case Retake(i) => if s.threads[i].next.Append? { AppendMoves(cfg, s, i, s.threads[i].next.m); }
    case _ =>
  }

  // ---- Roles and phases are kept -----------------------------------------------------

  // A thread between calls of flushBuffer keeps what it does next.
  lemma FlushKeepsRole(s: State, i: nat)
    requires Roles(s.threads) && i < |s.threads| && s.threads[i].MustFlush?
    ensures RoleAt(i, Flushed(s, i, s.threads[i].next).threads[i])
  {
    assert RoleAt(i, s.threads[i]);
  }

  lemma BatchKeepsRole(i: nat, pc: Pc)
    requires RoleAt(i, pc)
    ensures pc.Counting? ==> RoleAt(i, Storing(pc.batch, pc.next))
    ensures pc.Storing? && pc.batch != [] ==> forall ok :: RoleAt(i, Counting(ok, pc.batch[1..], pc.next))
    ensures pc.Batched? || pc.Storing? ==> RoleAt(i, Resumed(pc.next))
  {
  }

  lemma IngestKeepsRole(cfg: Config, s: State, a: Action)
    requires Roles(s.threads) && Enabled(s, a) && (a.Enter? || a.Retake?)
    ensures |Step(cfg, s, a).threads| == |s.threads| && RoleAt(a.i, Step(cfg, s, a).threads[a.i])
  {
    assert RoleAt(a.i, s.threads[a.i]);
  }

  lemma FlushingKeepsRole(cfg: Config, s: State, a: Action, i: nat)
    requires Roles(s.threads) && Enabled(s, a)
    requires a == Flush(i) || a == Count(i) || a == CountBatch(i) || a == Store(i, true) || a == Store(i, false)
    ensures i < |s.threads| == |Step(cfg, s, a).threads| && RoleAt(i, Step(cfg, s, a).threads[i])
  {
    assert RoleAt(i, s.threads[i]);
    if a.Flush? { FlushKeepsRole(s, i); } else { BatchKeepsRole(i, s.threads[i]); }
  }

  lemma ActorKeepsRole(cfg: Config, s: State, a: Action)
    requires Roles(s.threads) && Enabled(s, a)
    ensures Actor(a) < |s.threads| && |Step(cfg, s, a).threads| == |s.threads|
    ensures RoleAt(Actor(a), Step(cfg, s, a).threads[Actor(a)])
  {
    match a
    case Flush(i) => FlushingKeepsRole(cfg, s, a, i);
    case Count(i) => FlushingKeepsRole(cfg, s, a, i);
    case CountBatch(i) => FlushingKeepsRole(cfg, s, a, i);
    case Store(i, ok) => FlushingKeepsRole(cfg, s, a, i);
    case Enter(_) => IngestKeepsRole(cfg, s, a);
    case Retake(_) => IngestKeepsRole(cfg, s, a);
    case _ =>
  }

  lemma StepRoles(cfg: Config, s: State, a: Action)
    requires Roles(s.threads) && Enabled(s, a)
    ensures Roles(Step(cfg, s, a).threads)
  {
    ActorKeepsRole(cfg, s, a);
    OneMoves(cfg, s, a);
    var t := Step(cfg, s, a).threads;
    forall i | 0 <= i < |t| ensures RoleAt(i, t[i]) {
      assert RoleAt(i, s.threads[i]);
    }
  }

  // A flush moves the stopper from its flush into storing or out, and no other thread so.
  lemma FlushPhases(s: State, i: nat)
    requires Lifecycle(s) && i < |s.threads| && s.threads[i].MustFlush?
    ensures |Flushed(s, i, s.threads[i].next).threads| >= 2 && Phases(Flushed(s, i, s.threads[i].next))
  {
    assert RoleAt(i, s.threads[i]);
  }

  lemma BatchPhases(cfg: Config, s: State, a: Action)
    requires Lifecycle(s) && Enabled(s, a) && (a.Store? || a.Count? || a.CountBatch?)
    ensures |Step(cfg, s, a).threads| >= 2 && Phases(Step(cfg, s, a))
  {
    assert RoleAt(a.i, s.threads[a.i]);
  }

  lemma IngestPhases(cfg: Config, s: State, a: Action)
    requires Lifecycle(s) && Enabled(s, a) && (a.Call? || a.Enter? || a.Retake?)
    ensures |Step(cfg, s, a).threads| >= 2 && Phases(Step(cfg, s, a))
  {
    assert RoleAt(a.i, s.threads[a.i]);
    assert RoleAt(FLUSHER, s.threads[FLUSHER]) && RoleAt(STOPPER, s.threads[STOPPER]);
  }

  lemma StepPhases(cfg: Config, s: State, a: Action)
    requires Lifecycle(s) && Enabled(s, a)
    ensures |Step(cfg, s, a).threads| >= 2 && Phases(Step(cfg, s, a))
  {
    if a.Flush? {
      FlushPhases(s, a.i);
    } else if a.Store? || a.Count? || a.CountBatch? {
      BatchPhases(cfg, s, a);
    } else if a.Call? || a.Enter? || a.Retake? {
      IngestPhases(cfg, s, a);
    } else {
      assert RoleAt(FLUSHER, s.threads[FLUSHER]) && RoleAt(STOPPER, s.threads[STOPPER]);
    }
  }

  // ---- Conservation is kept ------------------------------------------------------------

  lemma Cancel<T>(a: multiset<T>, b: multiset<T>, c: multiset<T>)
    requires a + c == b + c
    ensures a == b
  {
    assert a == (a + c) - c;
    assert b == (b + c) - c;
  }

  // A thread moves and holds what it held.
  lemma MoveHolds(threads: seq<Pc>, i: nat, pc: Pc)
    requires i < |threads| && Held(pc) == Held(threads[i])
    ensures InFlight(threads[i := pc]) == InFlight(threads)
  {
    InFlightUpdate(threads, i, pc);
    Cancel(InFlight(threads[i := pc]), InFlight(threads), Held(pc));
  }

  // Flush: the buffer's metrics go into the thread's batch.
  lemma TakeHolds(threads: seq<Pc>, i: nat, pc: Pc, buffer: seq<Metric>)
    requires i < |threads| && Held(threads[i]) == multiset{} && Held(pc) == multiset(buffer)
    ensures InFlight(threads[i := pc]) == multiset(buffer) + InFlight(threads)
  {
    InFlightUpdate(threads, i, pc);
    NothingAdded(InFlight(threads[i := pc]), Held(threads[i]));
    assert InFlight(threads) + multiset(buffer) == multiset(buffer) + InFlight(threads);
  }

  lemma NothingAdded<T>(a: multiset<T>, none: multiset<T>)
    requires none == multiset{}
    ensures a + none == a
  {
  }

  // Store: the first metric of the batch leaves the thread.
  lemma HandHolds(threads: seq<Pc>, i: nat, pc: Pc, batch: seq<Metric>)
    requires i < |threads| && batch != []
    requires Held(threads[i]) == multiset(batch) && Held(pc) == multiset(batch[1..])
    ensures InFlight(threads) == InFlight(threads[i := pc]) + multiset{batch[0]}
  {
    InFlightUpdate(threads, i, pc);
    FirstAndRest(batch);
    HandAlgebra(InFlight(threads), InFlight(threads[i := pc]), multiset{batch[0]}, multiset(batch[1..]));
  }

  lemma FirstAndRest<T>(batch: seq<T>)
    requires batch != []
    ensures multiset(batch) == multiset{batch[0]} + multiset(batch[1..])
  {
    assert batch == [batch[0]] + batch[1..];
  }

  lemma HandAlgebra<T>(f: multiset<T>, f': multiset<T>, x: multiset<T>, rest: multiset<T>)
    requires f' + (x + rest) == f + rest
    ensures f == f' + x
  {
    assert f' + (x + rest) == (f' + x) + rest;
    Cancel(f, f' + x, rest);
  }

  lemma AppendConserves(cfg: Config, s: State, i: nat, m: Metric)
    requires Conserved(s) && i < |s.threads| && Held(s.threads[i]) == multiset{}
    ensures Conserved(Appended(cfg, s, i, m))
  {
    var t := Appended(cfg, s, i, m);
    MoveHolds(s.threads, i, t.threads[i]);
    assert multiset(t.buffer) == multiset(s.buffer) + multiset{m};
    FourPlusOne(multiset(s.buffer), InFlight(s.threads), s.stored, s.failed, multiset{m});
  }

  lemma FourPlusOne<T>(a: multiset<T>, b: multiset<T>, c: multiset<T>, d: multiset<T>, e: multiset<T>)
    ensures a + b + c + d + e == (a + e) + b + c + d
    ensures a + (b + e) + c + d == a + b + (c + e) + d
    ensures a + (b + e) + c + d == a + b + c + (d + e)
  {
  }

  lemma TakeAlgebra<T>(b: multiset<T>, f: multiset<T>, c: multiset<T>, d: multiset<T>, none: multiset<T>)
    requires none == multiset{}
    ensures none + (b + f) + c + d == b + f + c + d
  {
    assert none + (b + f) == b + f;
  }

  lemma TakeConserves(s: State, t: State, i: nat, next: After)
    requires Conserved(s) && i < |s.threads| && Held(s.threads[i]) == multiset{}
    requires t.threads == s.threads[i := Storing(s.buffer, next)] && t.buffer == []
    requires t.accepted == s.accepted && t.stored == s.stored && t.failed == s.failed
    ensures Conserved(t)
  {
    TakeHolds(s.threads, i, Storing(s.buffer, next), s.buffer);
    TakeAlgebra(multiset(s.buffer), InFlight(s.threads), s.stored, s.failed, multiset(t.buffer));
  }

  lemma EmptyFlushConserves(s: State, i: nat, next: After)
    requires Conserved(s) && i < |s.threads| && s.threads[i] == MustFlush(next) && s.buffer == []
    ensures Conserved(Flushed(s, i, next))
  {
    ResumedHolds(next);
    assert Flushed(s, i, next).threads == s.threads[i := Resumed(next)];
    MoveConserves(s, Flushed(s, i, next), i);
  }

  lemma ResumedHolds(next: After)
    ensures Held(Resumed(next)) == multiset{} && !Resumed(next).Counting?
  {
  }

  lemma FlushConserves(s: State, i: nat, next: After)
    requires Conserved(s) && i < |s.threads| && s.threads[i] == MustFlush(next)
    ensures Conserved(Flushed(s, i, next))
  {
    if s.buffer == [] {
      EmptyFlushConserves(s, i, next);
    } else {
      TakeConserves(s, Flushed(s, i, next), i, next);
    }
  }

  lemma StoreConserves(s: State, i: nat, ok: bool)
    requires Conserved(s) && i < |s.threads| && s.threads[i].Storing? && s.threads[i].batch != []
    ensures Conserved(Handed(s, i, ok))
  {
    var t, batch := Handed(s, i, ok), s.threads[i].batch;
    HandHolds(s.threads, i, t.threads[i], batch);
    FourPlusOne(multiset(s.buffer), InFlight(t.threads), s.stored, s.failed, multiset{batch[0]});
  }

  lemma MoveConserves(s: State, t: State, i: nat)
    requires Conserved(s) && i < |s.threads| == |t.threads|
    requires t.threads == s.threads[i := t.threads[i]] && Held(t.threads[i]) == Held(s.threads[i])
    requires t.buffer == s.buffer && t.accepted == s.accepted && t.stored == s.stored && t.failed == s.failed
    ensures Conserved(t)
  {
    MoveHolds(s.threads, i, t.threads[i]);
  }

  lemma EnterConserves(cfg: Config, s: State, i: nat)
    requires Conserved(s) && Enabled(s, Enter(i))
    ensures Conserved(Step(cfg, s, Enter(i)))
  {
    if s.running && |s.buffer| < cfg.bufferSize {
      AppendConserves(cfg, s, i, s.threads[i].m);
    } else {
      MoveConserves(s, Step(cfg, s, Enter(i)), i);
    }
  }

  lemma RetakeConserves(cfg: Config, s: State, i: nat)
    requires Conserved(s) && Enabled(s, Retake(i))
    ensures Conserved(Step(cfg, s, Retake(i)))
  {
    if s.threads[i].next.Append? {
      AppendConserves(cfg, s, i, s.threads[i].next.m);
    } else {
      MoveConserves(s, Step(cfg, s, Retake(i)), i);
    }
  }

  // All other actions move one thread and leave buffer and history alone.
  lemma CallConserves(cfg: Config, s: State, i: nat, m: Metric, valid: bool)
    requires Conserved(s) && Enabled(s, Call(i, m, valid))
    ensures Conserved(Step(cfg, s, Call(i, m, valid)))
  {
    if valid {
      MoveConserves(s, Step(cfg, s, Call(i, m, valid)), i);
    }
  }

  lemma CountConserves(s: State, i: nat)
    requires Conserved(s) && i < |s.threads| && s.threads[i].Counting?
    ensures Conserved(Counted(s, i))
  {
    MoveConserves(s, Counted(s, i), i);
  }

  lemma MovedConserves(s: State, i: nat, pc: Pc)
    requires Conserved(s) && i < |s.threads| && Held(s.threads[i]) == Held(pc)
    ensures Conserved(Moved(s, i, pc))
  {
    MoveConserves(s, Moved(s, i, pc), i);
  }

  lemma LifecycleConserves(cfg: Config, s: State, a: Action)
    requires Conserved(s) && Enabled(s, a)
    requires a.Start? || a.Tick? || a.FlusherExit? || a.StopCalled? || a.StopJoined?
    ensures Conserved(Step(cfg, s, a))
  {
    match a
    case Start => MovedConserves(s, FLUSHER, Idle);
    case Tick => MovedConserves(s, FLUSHER, MustFlush(WaitTick));
    case FlusherExit => MovedConserves(s, FLUSHER, Exited);
    case StopCalled => MovedConserves(s, STOPPER, Waiting);
    case StopJoined => MovedConserves(s, STOPPER, MustFlush(Finish));
  }

  lemma StepConserves(cfg: Config, s: State, a: Action)
    requires Conserved(s) && Enabled(s, a)
    ensures Conserved(Step(cfg, s, a))
  {
    match a
    case Enter(i) => EnterConserves(cfg, s, i);
    case Retake(i) => RetakeConserves(cfg, s, i);
    case Flush(i) => FlushConserves(s, i, s.threads[i].next);
    case Store(i, ok) => StoreConserves(s, i, ok);
    case Call(i, m, valid) => CallConserves(cfg, s, i, m, valid);
    case Count(i) => CountConserves(s, i);
    case CountBatch(i) => MovedConserves(s, i, Resumed(s.threads[i].next));
    case _ => LifecycleConserves(cfg, s, a);
  }

  lemma MoveCounts(s: State, t: State, i: nat)
    requires Counters(s) && i < |s.threads| == |t.threads| && t.threads == s.threads[i := t.threads[i]]
    requires t.ingested - s.ingested == |t.accepted| - |s.accepted|
    requires t.processed + B(StoredUncounted(t.threads[i])) - |t.stored|
             == s.processed + B(StoredUncounted(s.threads[i])) - |s.stored|
    requires t.errors + B(FailedUncounted(t.threads[i])) - |t.failed| - t.invalid
             == s.errors + B(FailedUncounted(s.threads[i])) - |s.failed| - s.invalid
    ensures Counters(t)
  {
    CountUpdate(s.threads, StoredUncounted, i, t.threads[i]);
    CountUpdate(s.threads, FailedUncounted, i, t.threads[i]);
  }

  lemma StoreCounts(s: State, i: nat, ok: bool)
    requires Counters(s) && i < |s.threads| && s.threads[i].Storing? && s.threads[i].batch != []
    ensures Counters(Handed(s, i, ok))
  {
    MoveCounts(s, Handed(s, i, ok), i);
  }

  lemma AppendCounts(cfg: Config, s: State, i: nat, m: Metric)
    requires Counters(s) && i < |s.threads| && !s.threads[i].Counting?
    ensures Counters(Appended(cfg, s, i, m))
  {
    MoveCounts(s, Appended(cfg, s, i, m), i);
  }

  lemma IngestCounts(cfg: Config, s: State, a: Action)
    requires Counters(s) && Enabled(s, a) && (a.Enter? || a.Retake?)
    ensures Counters(Step(cfg, s, a))
  {
    if a.Enter? && s.running && |s.buffer| < cfg.bufferSize {
      AppendCounts(cfg, s, a.i, s.threads[a.i].m);
    } else if a.Retake? && s.threads[a.i].next.Append? {
      AppendCounts(cfg, s, a.i, s.threads[a.i].next.m);
    } else {
      MoveCounts(s, Step(cfg, s, a), a.i);
    }
  }

  lemma OtherCounts(cfg: Config, s: State, a: Action)
    requires Counters(s) && Enabled(s, a) && !a.Enter? && !a.Retake? && !a.Store?
    ensures Counters(Step(cfg, s, a))
  {
    OneMoves(cfg, s, a);
    MoveCounts(s, Step(cfg, s, a), Actor(a));
  }

  lemma StepCounters(cfg: Config, s: State, a: Action)
    requires Counters(s) && Enabled(s, a)
    ensures Counters(Step(cfg, s, a))
  {
    match a
    case Store(i, ok) => StoreCounts(s, i, ok);
    case Enter(_) => IngestCounts(cfg, s, a);
    case Retake(_) => IngestCounts(cfg, s, a);
    case _ => OtherCounts(cfg, s, a);
  }

  // ---- Bounds are kept -----------------------------------------------------------------

  lemma StepBounded(cfg: Config, s: State, a: Action)
    requires Bounded(cfg, s) && Enabled(s, a)
    ensures Bounded(cfg, Step(cfg, s, a))
  {
    OneMoves(cfg, s, a);
    CountUpdate(s.threads, Owes, Actor(a), Step(cfg, s, a).threads[Actor(a)]);
  }

  lemma StepStopBound(cfg: Config, s: State, a: Action)
    requires Lifecycle(s) && StopBound(s) && Enabled(s, a)
    ensures StopBound(Step(cfg, s, a))
  {
    OneMoves(cfg, s, a);
    assert RoleAt(Actor(a), s.threads[Actor(a)]);
    CountUpdate(s.threads, WillAppend, Actor(a), Step(cfg, s, a).threads[Actor(a)]);
  }

  lemma NextInv(cfg: Config, s: State, a: Action)
    requires Inv(cfg, s)
    ensures Inv(cfg, Next(cfg, s, a))
  {
    if Enabled(s, a) {
      StepRoles(cfg, s, a);
      StepPhases(cfg, s, a);
      StepConserves(cfg, s, a);
      StepCounters(cfg, s, a);
      StepBounded(cfg, s, a);
      StepStopBound(cfg, s, a);
    }
  }

  lemma {:induction false} RunsInv(cfg: Config, s: State, acts: seq<Action>)
    requires Inv(cfg, s)
    ensures Inv(cfg, RunFrom(cfg, s, acts))
  {
    if acts != [] {
      RunsInv(cfg, s, acts[..|acts| - 1]);
      NextInv(cfg, RunFrom(cfg, s, acts[..|acts| - 1]), acts[|acts| - 1]);
    }
  }

  // Every state of every interleaving.
  lemma RunInv(cfg: Config, ingesters: nat, acts: seq<Action>)
    ensures Inv(cfg, Run(cfg, ingesters, acts))
  {
    InitInv(cfg, ingesters);
    RunsInv(cfg, Init(ingesters), acts);
  }

  lemma {:induction false} RunThreads(cfg: Config, s: State, acts: seq<Action>)
    ensures |RunFrom(cfg, s, acts).threads| == |s.threads|
  {
    if acts != [] {
      var before, a := RunFrom(cfg, s, acts[..|acts| - 1]), acts[|acts| - 1];
      RunThreads(cfg, s, acts[..|acts| - 1]);
      if Enabled(before, a) {
        OneMoves(cfg, before, a);
      }
    }
  }

  lemma RunSnoc(cfg: Config, s: State, acts: seq<Action>, a: Action)
    ensures RunFrom(cfg, s, acts + [a]) == Next(cfg, RunFrom(cfg, s, acts), a)
  {
    assert (acts + [a])[..|acts + [a]| - 1] == acts;
  }

  lemma SplitLast<T>(first: seq<T>, second: seq<T>)
    requires second != []
    ensures second == second[..|second| - 1] + [second[|second| - 1]]
    ensures first + second == (first + second[..|second| - 1]) + [second[|second| - 1]]
  {
  }

  lemma SnocSame(cfg: Config, s: State, acts: seq<Action>, t: State, others: seq<Action>, a: Action)
    requires RunFrom(cfg, s, acts) == RunFrom(cfg, t, others)
    ensures RunFrom(cfg, s, acts + [a]) == RunFrom(cfg, t, others + [a])
  {
    RunSnoc(cfg, s, acts, a);
    RunSnoc(cfg, t, others, a);
  }

  lemma {:induction false} RunsCompose(cfg: Config, s: State, first: seq<Action>, second: seq<Action>)
    ensures RunFrom(cfg, s, first + second) == RunFrom(cfg, RunFrom(cfg, s, first), second)
    decreases |second|
  {
    if second == [] {
      assert first + second == first;
    } else {
      var rest, a := second[..|second| - 1], second[|second| - 1];
      RunsCompose(cfg, s, first, rest);
      SnocSame(cfg, s, first + rest, RunFrom(cfg, s, first), rest, a);
      SplitLast(first, second);
    }
  }

  // ---- What every interleaving keeps ---------------------------------------------------

  // No accepted metric is lost or handed to storage twice, and the counters are true.
  lemma NothingLost(cfg: Config, ingesters: nat, acts: seq<Action>)
    ensures var s := Run(cfg, ingesters, acts);
            && s.accepted == multiset(s.buffer) + InFlight(s.threads) + s.stored + s.failed
            && s.ingested == |s.accepted|
            && s.processed + CountIf(s.threads, StoredUncounted) == |s.stored|
            && s.errors + CountIf(s.threads, FailedUncounted) == |s.failed| + s.invalid
  {
    RunInv(cfg, ingesters, acts);
  }

  // However many ingesters race, the buffer holds less than a batch, and one
  // more metric for each ingester that still owes a flush.
  lemma BufferBound(cfg: Config, ingesters: nat, acts: seq<Action>)
    requires cfg.batchSize >= 1
    ensures var s := Run(cfg, ingesters, acts);
            && |s.buffer| <= cfg.batchSize - 1 + Owing(s.threads)
            && |s.buffer| <= cfg.batchSize - 1 + ingesters
  {
    RunInv(cfg, ingesters, acts);
    RunThreads(cfg, Init(ingesters), acts);
    AtMostIngesters(Run(cfg, ingesters, acts).threads);
  }

  // Neither the flusher nor Stop owes a flush for batch size or appends.
  lemma AtMostIngesters(threads: seq<Pc>)
    requires Roles(threads)
    ensures Owing(threads) <= |threads| - 2 && Appenders(threads) <= |threads| - 2
  {
    assert RoleAt(FLUSHER, threads[FLUSHER]) && RoleAt(STOPPER, threads[STOPPER]);
    CountAtMost(threads, Owes);
    CountAtMost(threads, WillAppend);
  }
}
