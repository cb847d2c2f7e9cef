/**
 What Stop drains, and when it can leave a metric behind: an ingester admitted
 before Stop may append after Stop's last flush, and nothing flushes again.
 */
module PipelineStop {
  import opened Pipeline
  import opened PipelineRuns

  // ---- No ingest overlaps Stop -----------------------------------------------------------

  // Not admitted: such an ingester finds the processor stopped.
  ghost predicate Outside(pc: Pc) {
    pc.Idle? || pc.Arrived?
  }

  ghost predicate NoneInside(threads: seq<Pc>) {
    forall i :: 2 <= i < |threads| ==> Outside(threads[i])
  }

  ghost predicate Stopping(s: State) {
    && |s.threads| >= 2
    && !s.running && !s.threads[STOPPER].Idle?
    && NoneInside(s.threads)
    && (s.stopFlushed ==> s.buffer == [])
  }

  lemma StepStopping(cfg: Config, s: State, a: Action)
    requires Lifecycle(s) && Stopping(s) && Enabled(s, a)
    ensures Stopping(Step(cfg, s, a))
  {
    OneMoves(cfg, s, a);
    var i := Actor(a);
    assert RoleAt(i, s.threads[i]) && (i >= 2 ==> Outside(s.threads[i]));
    assert RoleAt(FLUSHER, s.threads[FLUSHER]) && RoleAt(STOPPER, s.threads[STOPPER]);
    ActorKeepsRole(cfg, s, a);
  }

  lemma {:induction false} RunStopping(cfg: Config, s: State, acts: seq<Action>)
    requires Inv(cfg, s) && Stopping(s)
    ensures Inv(cfg, RunFrom(cfg, s, acts)) && Stopping(RunFrom(cfg, s, acts))
  {
    RunsInv(cfg, s, acts);
    if acts != [] {
      var before, a := RunFrom(cfg, s, acts[..|acts| - 1]), acts[|acts| - 1];
      RunStopping(cfg, s, acts[..|acts| - 1]);
      if Enabled(before, a) {
        StepStopping(cfg, before, a);
      }
    }
  }

  // If no ingester is inside a call when Stop takes the lock, then once Stop
  // returns every accepted metric was handed to storage, and counted.
  lemma StopDrains(cfg: Config, ingesters: nat, before: seq<Action>, after: seq<Action>)
    requires var s := Run(cfg, ingesters, before); Enabled(s, StopCalled) && NoneInside(s.threads)
    ensures var s := Run(cfg, ingesters, before + [StopCalled] + after);
            |s.threads| >= 2 &&
            (s.threads[STOPPER].Exited? ==>
               && s.buffer == [] && InFlight(s.threads) == multiset{}
               && s.accepted == s.stored + s.failed
               && s.ingested == s.processed + (s.errors - s.invalid))
  {
    var s0, acts := Run(cfg, ingesters, before), [StopCalled];
    RunInv(cfg, ingesters, before);
    NextInv(cfg, s0, StopCalled);
    var s1 := Step(cfg, s0, StopCalled);
    assert acts[..|acts| - 1] == [];
    assert RunFrom(cfg, s0, acts) == s1;
    assert Phases(s0);
    RunsCompose(cfg, Init(ingesters), before, acts);
    RunsCompose(cfg, Init(ingesters), before + acts, after);
    RunStopping(cfg, s1, after);
    var s := RunFrom(cfg, s1, after);
    if s.threads[STOPPER].Exited? {
      Drained(cfg, s);
    }
  }

  ghost predicate AtRest(pc: Pc) {
    pc.Idle? || pc.Arrived? || pc.Exited?
  }

  lemma Drained(cfg: Config, s: State)
    requires Inv(cfg, s) && s.threads[STOPPER].Exited? && NoneInside(s.threads) && s.buffer == []
    ensures InFlight(s.threads) == multiset{} && s.accepted == s.stored + s.failed
    ensures s.ingested == s.processed + (s.errors - s.invalid)
  {
    assert Phases(s);
    forall i | 0 <= i < |s.threads| ensures AtRest(s.threads[i]) {
      assert i >= 2 ==> Outside(s.threads[i]);
    }
    NothingHeld(s.threads);
    CountNone(s.threads, StoredUncounted);
    CountNone(s.threads, FailedUncounted);
    assert s.accepted == s.stored + s.failed;
  }

  // ---- Everything is over ------------------------------------------------------------------

  // Stop has returned and so has every call.
  ghost predicate Over(s: State) {
    && |s.threads| >= 2 && s.threads[STOPPER].Exited?
    && forall i :: 2 <= i < |s.threads| ==> s.threads[i].Idle?
  }

  ghost predicate Stranded(s: State) {
    Over(s) && s.buffer != []
  }

  // A stranded metric stays in the buffer: later calls are refused.
  lemma {:induction false} StrandedStays(cfg: Config, s: State, acts: seq<Action>)
    requires Lifecycle(s) && s.threads[STOPPER].Exited? && NoneInside(s.threads)
    ensures var t := RunFrom(cfg, s, acts);
            Lifecycle(t) && t.threads[STOPPER].Exited? && NoneInside(t.threads) && t.buffer == s.buffer
  {
    if acts != [] {
      var before, a := RunFrom(cfg, s, acts[..|acts| - 1]), acts[|acts| - 1];
      StrandedStays(cfg, s, acts[..|acts| - 1]);
      if Enabled(before, a) {
        StepRoles(cfg, before, a);
        StepPhases(cfg, before, a);
        StoppedStep(cfg, before, a);
      }
    }
  }

  lemma StoppedStep(cfg: Config, s: State, a: Action)
    requires Lifecycle(s) && s.threads[STOPPER].Exited? && NoneInside(s.threads) && Enabled(s, a)
    ensures var t := Step(cfg, s, a);
            |t.threads| >= 2 && t.threads[STOPPER].Exited? && NoneInside(t.threads) && t.buffer == s.buffer
  {
    OneMoves(cfg, s, a);
    var i := Actor(a);
    assert RoleAt(i, s.threads[i]) && (i >= 2 ==> Outside(s.threads[i]));
    assert s.threads[FLUSHER].Exited?;
    ActorKeepsRole(cfg, s, a);
  }

  ghost predicate CanStrand(cfg: Config, ingesters: nat) {
    ingesters >= 1 && cfg.batchSize >= 2 && cfg.bufferSize <= cfg.batchSize + ingesters - 2
  }

  // ---- No room problem, nothing stranded --------------------------------------------------

  // The capacity branch is never taken.
  ghost predicate NeverFull(s: State) {
    && (forall i :: 0 <= i < |s.threads| ==> !WillAppend(s.threads[i]))
    && (s.stopFlushed ==> s.late == 0)
  }

  // A flush does not change what its thread does next.
  lemma FlushNotAppending(s: State, i: nat)
    requires i < |s.threads| && s.threads[i].MustFlush? && !WillAppend(s.threads[i])
    ensures !WillAppend(Flushed(s, i, s.threads[i].next).threads[i])
  {
    var pc := if s.buffer == [] then Resumed(s.threads[i].next) else Storing(s.buffer, s.threads[i].next);
    assert Flushed(s, i, s.threads[i].next).threads == s.threads[i := pc];
  }

  lemma BatchNotAppending(s: State, i: nat, ok: bool)
    requires i < |s.threads| && !WillAppend(s.threads[i])
    ensures s.threads[i].Storing? && s.threads[i].batch != [] ==> !WillAppend(Handed(s, i, ok).threads[i])
    ensures s.threads[i].Counting? ==> !WillAppend(Counted(s, i).threads[i])
  {
  }

  lemma ActorNotAppending(cfg: Config, s: State, a: Action)
    requires Enabled(s, a) && Actor(a) < |s.threads| && !WillAppend(s.threads[Actor(a)])
    requires a.Enter? ==> |s.buffer| < cfg.bufferSize
    ensures |Step(cfg, s, a).threads| == |s.threads| && !WillAppend(Step(cfg, s, a).threads[Actor(a)])
  {
    OneMoves(cfg, s, a);
    match a
    case Flush(i) => FlushNotAppending(s, i);
    case Store(i, ok) => BatchNotAppending(s, i, ok);
    case Count(i) => BatchNotAppending(s, i, true);
    case _ =>
  }

  lemma StepNeverFull(cfg: Config, s: State, a: Action)
    requires Roles(s.threads) && NeverFull(s) && Enabled(s, a)
    requires a.Enter? ==> |s.buffer| < cfg.bufferSize
    ensures NeverFull(Step(cfg, s, a))
  {
    OneMoves(cfg, s, a);
    ActorNotAppending(cfg, s, a);
    CountNone(s.threads, WillAppend);
    assert Step(cfg, s, a).stopFlushed ==> Step(cfg, s, a).late == 0;
  }

  // An ingester that is arriving does not owe a flush.
  lemma OwingOthers(threads: seq<Pc>, i: nat)
    requires Roles(threads) && 2 <= i < |threads| && threads[i].Arrived?
    ensures Owing(threads) <= |threads| - 3
  {
    var pc := MustFlush(Return);
    CountUpdate(threads, Owes, i, pc);
    var others := threads[i := pc];
    forall j | 0 <= j < |others| ensures RoleAt(j, others[j]) {
      assert RoleAt(j, threads[j]);
    }
    AtMostIngesters(others);
  }

  lemma {:induction false} RunNeverFull(cfg: Config, ingesters: nat, acts: seq<Action>)
    requires ingesters == 0 || cfg.bufferSize > Slack(cfg) + ingesters - 1
    ensures NeverFull(Run(cfg, ingesters, acts))
  {
    if acts == [] {
    } else {
      var before, a := Run(cfg, ingesters, acts[..|acts| - 1]), acts[|acts| - 1];
      RunNeverFull(cfg, ingesters, acts[..|acts| - 1]);
      RunInv(cfg, ingesters, acts[..|acts| - 1]);
      RunThreads(cfg, Init(ingesters), acts[..|acts| - 1]);
      if Enabled(before, a) {
        if a.Enter? {
          OwingOthers(before.threads, a.i);
        }
        StepNeverFull(cfg, before, a);
      }
    }
  }

  lemma OverEmpty(cfg: Config, ingesters: nat, acts: seq<Action>)
    requires !CanStrand(cfg, ingesters) && Over(Run(cfg, ingesters, acts))
    ensures Run(cfg, ingesters, acts).buffer == []
  {
    var s := Run(cfg, ingesters, acts);
    RunInv(cfg, ingesters, acts);
    assert Phases(s);
    if cfg.batchSize <= 1 {
      CountNone(s.threads, Owes);
    } else {
      RunNeverFull(cfg, ingesters, acts);
    }
  }

  // ---- A run that strands a metric --------------------------------------------------------

  const SOME := Metric("", 0.0, 0)

  lemma RunOne(cfg: Config, s: State, a: Action)
    ensures RunFrom(cfg, s, [a]) == Next(cfg, s, a)
  {
    assert [a] == [] + [a];
    RunSnoc(cfg, s, [], a);
  }

  lemma RunTwo(cfg: Config, s: State, a: Action, b: Action)
    ensures RunFrom(cfg, s, [a, b]) == Next(cfg, Next(cfg, s, a), b)
  {
    assert [a, b] == [] + [a] + [b];
    RunSnoc(cfg, s, [], a);
    RunSnoc(cfg, s, [a], b);
  }

  // Started, k metrics in the buffer; every one from the batch size on left an
  // ingester owing a flush.
  ghost predicate Filled(cfg: Config, s: State, ingesters: nat, k: int) {
    && |s.threads| == ingesters + 2 && |s.buffer| == k && s.running && !s.stopFlushed
    && s.threads[FLUSHER] == Idle && s.threads[STOPPER] == Idle
    && forall i :: 2 <= i < ingesters + 2 ==> s.threads[i] == Filler(i - 2 < k - (cfg.batchSize - 1))
  }

  ghost function Filler(owes: bool): Pc {
    if owes then MustFlush(Return) else Idle
  }

  lemma FillOne(cfg: Config, s: State, ingesters: nat, k: nat) returns (acts: seq<Action>)
    requires cfg.batchSize >= 1 && ingesters >= 1 && Filled(cfg, s, ingesters, k)
    requires k < cfg.bufferSize && k < cfg.batchSize - 1 + ingesters
    ensures Filled(cfg, RunFrom(cfg, s, acts), ingesters, k + 1)
  {
    var i := if k + 1 < cfg.batchSize then 2 else 2 + (k + 1 - cfg.batchSize);
    assert s.threads[i] == Filler(i - 2 < k - (cfg.batchSize - 1));
    acts := [Call(i, SOME, true), Enter(i)];
    RunTwo(cfg, s, acts[0], acts[1]);
    var t := Step(cfg, s, acts[0]);
    assert t.threads == s.threads[i := Arrived(SOME)];
    var u := Step(cfg, t, acts[1]);
    assert u == Appended(cfg, t, i, SOME);
    assert u.threads == s.threads[i := Filler(i - 2 < k + 1 - (cfg.batchSize - 1))];
  }

  lemma {:induction false} Fill(cfg: Config, ingesters: nat, k: nat) returns (acts: seq<Action>)
    requires cfg.batchSize >= 1 && ingesters >= 1
    requires k <= cfg.bufferSize || k == 0
    requires k <= cfg.batchSize - 1 + ingesters
    ensures Filled(cfg, Run(cfg, ingesters, acts), ingesters, k)
  {
    if k == 0 {
      acts := [Start];
      assert acts == [] + [Start];
      RunSnoc(cfg, Init(ingesters), [], Start);
    } else {
      var first := Fill(cfg, ingesters, k - 1);
      var last := FillOne(cfg, Run(cfg, ingesters, first), ingesters, k - 1);
      RunsCompose(cfg, Init(ingesters), first, last);
      acts := first + last;
    }
  }

  // The bound on the buffer is reached.
  lemma BufferBoundReached(cfg: Config, ingesters: nat)
    requires cfg.batchSize >= 1 && ingesters >= 1 && cfg.bufferSize >= cfg.batchSize - 1 + ingesters
    ensures exists acts :: |Run(cfg, ingesters, acts).buffer| == cfg.batchSize - 1 + ingesters
  {
    var acts := Fill(cfg, ingesters, cfg.batchSize - 1 + ingesters);
  }

  lemma StoreOne(cfg: Config, s: State, i: nat, ok: bool)
    requires 2 <= |s.threads| && i < |s.threads| && s.threads[i].Storing? && s.threads[i].batch != []
    ensures var t := RunFrom(cfg, s, [Store(i, ok), Count(i)]);
            && t.threads == s.threads[i := Storing(s.threads[i].batch[1..], s.threads[i].next)] && t.buffer == s.buffer
            && t.stored == s.stored + (if ok then multiset{s.threads[i].batch[0]} else multiset{})
            && t.failed == s.failed + (if ok then multiset{} else multiset{s.threads[i].batch[0]})
  {
    RunTwo(cfg, s, Store(i, ok), Count(i));
    HandOne(cfg, s, i, ok);
  }

  lemma HandOne(cfg: Config, s: State, i: nat, ok: bool)
    requires 2 <= |s.threads| && i < |s.threads| && s.threads[i].Storing? && s.threads[i].batch != []
    ensures Next(cfg, s, Store(i, ok)) == Handed(s, i, ok)
    ensures Next(cfg, Handed(s, i, ok), Count(i)) == Counted(Handed(s, i, ok), i)
  {
    assert Handed(s, i, ok).threads == s.threads[i := Counting(ok, s.threads[i].batch[1..], s.threads[i].next)];
  }

  ghost predicate OnlyBy(acts: seq<Action>, i: nat) {
    forall a :: a in acts ==> Actor(a) == i
  }

  lemma BatchEnds(cfg: Config, s: State, i: nat)
    requires 2 <= |s.threads| && i < |s.threads| && s.threads[i].Storing? && s.threads[i].batch == []
    ensures var t := RunFrom(cfg, s, [CountBatch(i)]);
            && t.threads == s.threads[i := Resumed(s.threads[i].next)] && t.buffer == s.buffer
            && t.stored == s.stored && t.failed == s.failed
  {
    RunOne(cfg, s, CountBatch(i));
    assert Next(cfg, s, CountBatch(i)) == Moved(s, i, Resumed(s.threads[i].next)).(batches := s.batches + 1);
  }

  // A thread, by its own steps, hands its batch to storage and goes on; here storage
  // takes all of it or nothing.
  lemma {:induction false} StoreAll(cfg: Config, s: State, i: nat, ok: bool) returns (acts: seq<Action>)
    requires 2 <= |s.threads| && i < |s.threads| && s.threads[i].Storing?
    ensures var t := RunFrom(cfg, s, acts);
            && t.threads == s.threads[i := Resumed(s.threads[i].next)] && t.buffer == s.buffer
            && t.stored == s.stored + (if ok then multiset(s.threads[i].batch) else multiset{})
            && t.failed == s.failed + (if ok then multiset{} else multiset(s.threads[i].batch))
    ensures OnlyBy(acts, i)
    decreases |s.threads[i].batch|
  {
    var batch, next := s.threads[i].batch, s.threads[i].next;
    if batch == [] {
      acts := [CountBatch(i)];
      BatchEnds(cfg, s, i);
    } else {
      var two := [Store(i, ok), Count(i)];
      StoreOne(cfg, s, i, ok);
      var u := RunFrom(cfg, s, two);
      assert u.threads[i] == Storing(batch[1..], next);
      assert u.threads[i := Resumed(next)] == s.threads[i := Resumed(next)];
      var rest := StoreAll(cfg, u, i, ok);
      RunsCompose(cfg, s, two, rest);
      FirstStored(if ok then s.stored else s.failed, batch);
      acts := two + rest;
    }
  }

  lemma FirstStored<T>(stored: multiset<T>, batch: seq<T>)
    requires batch != []
    ensures (stored + multiset{batch[0]}) + multiset(batch[1..]) == stored + multiset(batch)
  {
    FirstAndRest(batch);
    assert stored + (multiset{batch[0]} + multiset(batch[1..])) == (stored + multiset{batch[0]}) + multiset(batch[1..]);
  }

  // ---- The ticker ------------------------------------------------------------------------

  lemma TickTurn(cfg: Config, s: State)
    requires |s.threads| >= 2 && s.threads[FLUSHER].Idle?
    ensures RunFrom(cfg, s, [Tick, Flush(FLUSHER)]) == Flushed(Moved(s, FLUSHER, MustFlush(WaitTick)), FLUSHER, WaitTick)
  {
    RunTwo(cfg, s, Tick, Flush(FLUSHER));
    var t := Moved(s, FLUSHER, MustFlush(WaitTick));
    assert Next(cfg, s, Tick) == t;
    assert Next(cfg, t, Flush(FLUSHER)) == Flushed(t, FLUSHER, WaitTick);
  }

  // In every state in which the flusher waits, reached or not, a tick and its
  // flush leave the buffer empty and its metrics with the flusher.
  lemma TickTakesBuffer(cfg: Config, s: State)
    requires |s.threads| >= 2 && s.threads[FLUSHER].Idle?
    ensures var t := RunFrom(cfg, s, [Tick, Flush(FLUSHER)]);
            && t.buffer == [] && t.stored == s.stored && t.failed == s.failed
            && t.threads == s.threads[FLUSHER := if s.buffer == [] then Idle else Storing(s.buffer, WaitTick)]
  {
    TickTurn(cfg, s);
  }

  // From there the flusher alone hands exactly those metrics to storage, which takes
  // or refuses them, and waits again.
  lemma TickStoresBuffer(cfg: Config, s: State, ok: bool) returns (turn: seq<Action>)
    requires |s.threads| >= 2 && s.threads[FLUSHER].Idle?
    ensures OnlyBy(turn, FLUSHER)
    ensures var t := RunFrom(cfg, s, turn);
            && t.buffer == [] && t.threads == s.threads
            && t.stored == s.stored + (if ok then multiset(s.buffer) else multiset{})
            && t.failed == s.failed + (if ok then multiset{} else multiset(s.buffer))
  {
    turn := [Tick, Flush(FLUSHER)];
    TickTakesBuffer(cfg, s);
    var t := RunFrom(cfg, s, turn);
    if s.buffer != [] {
      var rest := StoreAll(cfg, t, FLUSHER, ok);
      RunsCompose(cfg, s, turn, rest);
      turn := turn + rest;
    }
    assert s.threads[FLUSHER := Idle] == s.threads;
  }

  lemma EndedStays(cfg: Config, s: State, a: Action)
    requires |s.threads| >= 2 && s.threads[FLUSHER].Exited?
    ensures |Next(cfg, s, a).threads| >= 2 && Next(cfg, s, a).threads[FLUSHER].Exited?
  {
    if Enabled(s, a) {
      OneMoves(cfg, s, a);
      assert Actor(a) != FLUSHER;
    }
  }

  // While the flusher waits it can end at any time, Stop called or not, and then it
  // has ended for good.
  lemma {:induction false} FlusherEndsForGood(cfg: Config, s: State, acts: seq<Action>)
    requires |s.threads| >= 2 && s.threads[FLUSHER].Idle?
    ensures var t := RunFrom(cfg, Next(cfg, s, FlusherExit), acts); |t.threads| >= 2 && t.threads[FLUSHER].Exited?
  {
    if acts != [] {
      FlusherEndsForGood(cfg, s, acts[..|acts| - 1]);
      EndedStays(cfg, RunFrom(cfg, Next(cfg, s, FlusherExit), acts[..|acts| - 1]), acts[|acts| - 1]);
    }
  }

  // Stop was called after the last ingester found the buffer full, and has returned.
  ghost predicate Left(s: State, ingesters: nat, owing: int) {
    && |s.threads| == ingesters + 2 && ingesters >= 1 && s.buffer == []
    && s.threads[FLUSHER] == Exited && s.threads[STOPPER] == Exited
    && s.threads[ingesters + 1] == MustFlush(Append(SOME))
    && forall i :: 2 <= i < ingesters + 1 ==> s.threads[i] == Filler(i - 2 < owing)
  }

  lemma LastArrives(cfg: Config, s: State, ingesters: nat, k: nat)
    requires Filled(cfg, s, ingesters, k) && CanStrand(cfg, ingesters)
    requires k >= cfg.bufferSize && k <= cfg.batchSize + ingesters - 2
    ensures var t := RunFrom(cfg, s, [Call(ingesters + 1, SOME, true), Enter(ingesters + 1)]);
            t == s.(threads := s.threads[ingesters + 1 := MustFlush(Append(SOME))])
  {
    var i := ingesters + 1;
    assert s.threads[i] == Filler(i - 2 < k - (cfg.batchSize - 1));
    RunTwo(cfg, s, Call(i, SOME, true), Enter(i));
    ArriveFull(cfg, s, i);
  }

  lemma ArriveFull(cfg: Config, s: State, i: nat)
    requires 2 <= i < |s.threads| && s.threads[i].Idle? && s.running && |s.buffer| >= cfg.bufferSize
    ensures Next(cfg, Next(cfg, s, Call(i, SOME, true)), Enter(i)) == Moved(s, i, MustFlush(Append(SOME)))
  {
    var t := Moved(s, i, Arrived(SOME));
    assert Next(cfg, s, Call(i, SOME, true)) == t;
    assert t.threads[i := MustFlush(Append(SOME))] == s.threads[i := MustFlush(Append(SOME))];
  }

  lemma StopReachesFlush(cfg: Config, s: State)
    requires |s.threads| >= 2 && s.running && s.threads[FLUSHER] == Idle && s.threads[STOPPER] == Idle
    ensures var t := RunFrom(cfg, s, [StopCalled, FlusherExit] + [StopJoined]);
            && t.threads == s.threads[FLUSHER := Exited][STOPPER := MustFlush(Finish)]
            && t.buffer == s.buffer
  {
    RunTwo(cfg, s, StopCalled, FlusherExit);
    RunSnoc(cfg, s, [StopCalled, FlusherExit], StopJoined);
  }

  lemma StopFlushes(cfg: Config, s: State) returns (acts: seq<Action>)
    requires |s.threads| >= 2 && s.threads[STOPPER] == MustFlush(Finish)
    ensures var t := RunFrom(cfg, s, acts); t.threads == s.threads[STOPPER := Exited] && t.buffer == []
  {
    var one := [Flush(STOPPER)];
    assert one == [] + one;
    RunSnoc(cfg, s, [], Flush(STOPPER));
    var t := RunFrom(cfg, s, one);
    if s.buffer == [] {
      acts := one;
    } else {
      var rest := StoreAll(cfg, t, STOPPER, true);
      RunsCompose(cfg, s, one, rest);
      acts := one + rest;
    }
  }

  // A flush of the empty buffer ends at once.
  lemma EmptyFlush(cfg: Config, s: State, i: nat, next: After)
    requires 2 <= i < |s.threads| && s.buffer == [] && s.threads[i] == MustFlush(next)
    requires next.Return? || next == Append(SOME)
    ensures var t := RunFrom(cfg, s, [Flush(i), Retake(i)]);
            && (next.Return? ==> t.threads == s.threads[i := Idle] && t.buffer == [])
            && (next.Append? && cfg.batchSize >= 2 ==> t.threads == s.threads[i := Idle] && t.buffer == [SOME])
  {
    RunTwo(cfg, s, Flush(i), Retake(i));
    var t := Step(cfg, s, Flush(i));
    assert t.threads == s.threads[i := Retaking(next)];
    if next.Append? && cfg.batchSize >= 2 {
      assert |t.buffer + [SOME]| < cfg.batchSize;
      assert Step(cfg, t, Retake(i)).threads == s.threads[i := Idle];
    }
  }

  lemma {:induction false} OwersReturn(cfg: Config, s: State, ingesters: nat, owing: int) returns (acts: seq<Action>)
    requires cfg.batchSize >= 2 && Left(s, ingesters, owing) && owing <= ingesters - 1
    ensures Stranded(RunFrom(cfg, s, acts))
    decreases owing
  {
    var last := ingesters + 1;
    var i := if owing <= 0 then last else owing + 1;
    acts := [Flush(i), Retake(i)];
    if owing <= 0 {
      EmptyFlush(cfg, s, i, Append(SOME));
    } else {
      assert s.threads[i] == Filler(i - 2 < owing);
      EmptyFlush(cfg, s, i, Return);
      var rest := OwersReturn(cfg, RunFrom(cfg, s, acts), ingesters, owing - 1);
      RunsCompose(cfg, s, acts, rest);
      acts := acts + rest;
    }
  }

  lemma Strand(cfg: Config, ingesters: nat) returns (acts: seq<Action>)
    requires CanStrand(cfg, ingesters)
    ensures Stranded(Run(cfg, ingesters, acts))
  {
    var k := if cfg.bufferSize < 0 then 0 else cfg.bufferSize;
    acts := Fill(cfg, ingesters, k);
    var s := Run(cfg, ingesters, acts);
    var more := [Call(ingesters + 1, SOME, true), Enter(ingesters + 1)];
    LastArrives(cfg, s, ingesters, k);
    RunsCompose(cfg, Init(ingesters), acts, more);
    acts, s := acts + more, RunFrom(cfg, s, more);
    more := [StopCalled, FlusherExit] + [StopJoined];
    StopReachesFlush(cfg, s);
    RunsCompose(cfg, Init(ingesters), acts, more);
    acts, s := acts + more, RunFrom(cfg, s, more);
    more := StopFlushes(cfg, s);
    RunsCompose(cfg, Init(ingesters), acts, more);
    acts, s := acts + more, RunFrom(cfg, s, more);
    more := OwersReturn(cfg, s, ingesters, k - (cfg.batchSize - 1));
    RunsCompose(cfg, Init(ingesters), acts, more);
    acts := acts + more;
  }

  // A metric can be left in the buffer when all is over, exactly when the
  // buffer's capacity can be reached with the batch size not.
  lemma StrandedIff(cfg: Config, ingesters: nat)
    ensures (exists acts :: Stranded(Run(cfg, ingesters, acts))) <==> CanStrand(cfg, ingesters)
  {
    if CanStrand(cfg, ingesters) {
      var acts := Strand(cfg, ingesters);
    } else {
      forall acts ensures !Stranded(Run(cfg, ingesters, acts)) {
        if Over(Run(cfg, ingesters, acts)) {
          OverEmpty(cfg, ingesters, acts);
        }
      }
    }
  }
}
