/**
 The methods of the stream processor, each run by one thread with no other in
 between.  A ghost trace records the steps they take, so that every state they
 leave is a state of the machine, and every law of its runs holds of it.
 */
module StreamProcessors {
  import opened Pipeline
  import opened PipelineRuns

  lemma HandedAll<T>(stored: multiset<T>, failed: multiset<T>, x: T, done: multiset<T>, before: multiset<T>)
    requires stored + failed == before + done
    ensures (stored + multiset{x}) + failed == before + (done + multiset{x})
    ensures stored + (failed + multiset{x}) == before + (done + multiset{x})
  {
    assert (stored + multiset{x}) + failed == (stored + failed) + multiset{x};
    assert stored + (failed + multiset{x}) == (stored + failed) + multiset{x};
  }

  lemma OneMore<T>(s: seq<T>, k: nat)
    requires k < |s|
    ensures multiset(s[..k + 1]) == multiset(s[..k]) + multiset{s[k]}
  {
    assert s[..k + 1] == s[..k] + [s[k]];
  }

  lemma Overwrite<T>(s: seq<T>, i: nat, first: T, second: T)
    requires i < |s|
    ensures s[i := first][i := second] == s[i := second]
    ensures s[i := first][i := s[i]] == s
  {
  }

  ghost predicate SameCounts(s: State, t: State) {
    && s.running == t.running && s.ingested == t.ingested && s.processed == t.processed
    && s.errors == t.errors && s.batches == t.batches && s.stored == t.stored && s.failed == t.failed
    && s.accepted == t.accepted
  }

  lemma FlushStep(cfg: Config, s: State, i: nat)
    requires |s.threads| >= 2 && i < |s.threads| && s.threads[i].MustFlush?
    ensures var t, next := Next(cfg, s, Flush(i)), s.threads[i].next;
            && t.buffer == [] && SameCounts(t, s)
            && t.threads == s.threads[i := if s.buffer == [] then Resumed(next) else Storing(s.buffer, next)]
  {
    assert Next(cfg, s, Flush(i)) == Flushed(s, i, s.threads[i].next);
  }

  // The first branch of IngestMetric that appends, and the second.
  lemma AdmitStep(cfg: Config, s: State, i: nat, m: Metric, a: Action)
    requires 2 <= i < |s.threads|
    requires || (a == Enter(i) && s.threads[i] == Arrived(m) && s.running && |s.buffer| < cfg.bufferSize)
             || (a == Retake(i) && s.threads[i] == Retaking(Append(m)))
    ensures Next(cfg, s, a) == Appended(cfg, s, i, m)
  {
  }

  // From s to t thread i's next metric was handed to storage and counted.
  ghost predicate Delivered(s: State, t: State, i: nat, ok: bool)
    requires i < |s.threads| && s.threads[i].Storing? && s.threads[i].batch != []
  {
    var pc := s.threads[i];
    && t.threads == s.threads[i := Storing(pc.batch[1..], pc.next)]
    && t.buffer == s.buffer && t.running == s.running && t.ingested == s.ingested && t.batches == s.batches
    && t.accepted == s.accepted
    && t.stored == s.stored + (if ok then multiset{pc.batch[0]} else multiset{})
    && t.failed == s.failed + (if ok then multiset{} else multiset{pc.batch[0]})
    && t.processed == s.processed + (if ok then 1 else 0)
    && t.errors == s.errors + (if ok then 0 else 1)
  }

  lemma HandedCounted(s: State, i: nat, ok: bool)
    requires i < |s.threads| && s.threads[i].Storing? && s.threads[i].batch != []
    ensures Delivered(s, Counted(Handed(s, i, ok), i), i, ok)
  {
    var pc := s.threads[i];
    Overwrite(s.threads, i, Counting(ok, pc.batch[1..], pc.next), Storing(pc.batch[1..], pc.next));
  }

  lemma DropOne<T>(s: seq<T>, k: nat)
    requires k < |s|
    ensures s[k..] != [] && s[k..][0] == s[k] && s[k..][1..] == s[k + 1..]
  {
  }

  // From s to t the first k metrics of thread i's batch have been handed to storage.
  ghost predicate HandedOver(s: State, t: State, i: nat, batch: seq<Metric>, k: nat)
    requires i < |s.threads| && s.threads[i].Storing? && k <= |batch|
  {
    && t.threads == s.threads[i := Storing(batch[k..], s.threads[i].next)]
    && t.stored + t.failed == s.stored + s.failed + multiset(batch[..k])
    && t.accepted == s.accepted && t.processed + t.errors == s.processed + s.errors + k
  }

  lemma NoneHanded(s: State, i: nat, batch: seq<Metric>)
    requires i < |s.threads| && s.threads[i].Storing? && s.threads[i].batch == batch
    ensures HandedOver(s, s, i, batch, 0)
  {
    assert batch[0..] == batch && batch[..0] == [];
    assert s.threads[i] == Storing(batch[0..], s.threads[i].next);
    assert s.threads[i := s.threads[i]] == s.threads;
    assert s.stored + s.failed + multiset{} == s.stored + s.failed;
  }

  lemma AllHanded(s: State, t: State, i: nat, batch: seq<Metric>)
    requires i < |s.threads| && s.threads[i].Storing? && HandedOver(s, t, i, batch, |batch|)
    ensures t.threads == s.threads[i := Storing([], s.threads[i].next)]
    ensures t.stored + t.failed == s.stored + s.failed + multiset(batch)
  {
    assert batch[..|batch|] == batch && batch[|batch|..] == [];
  }

  class StreamProcessor {
    const cfg: Config
    ghost const ingesters: nat

    var dataBuffer: seq<Metric>
    var isRunning: bool
    var totalIngested: int
    var totalProcessed: int
    var totalErrors: int
    var batchesProcessed: int

    ghost var now: State
    ghost var trace: seq<Action>

    ghost predicate Reached()
      reads this
    {
      now == Run(cfg, ingesters, trace) && |now.threads| >= 2
    }

    ghost predicate Shown()
      reads this
    {
      && now.buffer == dataBuffer && now.running == isRunning && now.ingested == totalIngested
      && now.processed == totalProcessed && now.errors == totalErrors && now.batches == batchesProcessed
    }

    ghost predicate Valid()
      reads this
    {
      Reached() && Shown()
    }

    constructor (bufferSize: int, batchSize: int, ghost threads: nat)
      ensures Valid() && trace == [] && now == Init(threads)
      ensures cfg == Config(bufferSize, batchSize) && ingesters == threads
      ensures dataBuffer == [] && !isRunning
    {
      cfg := Config(bufferSize, batchSize);
      ingesters := threads;
      dataBuffer, isRunning := [], false;
      totalIngested, totalProcessed, totalErrors, batchesProcessed := 0, 0, 0, 0;
      now := Init(threads);
      trace := [];
    }

    ghost method Act(a: Action)
      requires Reached()
      modifies this`now, this`trace
      ensures Reached() && now == Next(cfg, old(now), a)
    {
      RunSnoc(cfg, Init(ingesters), trace, a);
      now, trace := Next(cfg, now, a), trace + [a];
      RunThreads(cfg, Init(ingesters), trace);
    }

    // The steps that the methods below take.
    ghost method TakeBuffer(i: nat)
      requires Reached() && i < |now.threads| && now.threads[i].MustFlush?
      modifies this`now, this`trace
      ensures Reached() && now.buffer == [] && SameCounts(now, old(now))
      ensures var next := old(now.threads[i].next);
              now.threads == old(now.threads)[i := if old(now.buffer) == [] then Resumed(next) else Storing(old(now.buffer), next)]
    {
      FlushStep(cfg, now, i);
      Act(Flush(i));
    }

    ghost method HandOver(i: nat, ok: bool)
      requires Reached() && i < |now.threads| && now.threads[i].Storing? && now.threads[i].batch != []
      modifies this`now, this`trace
      ensures Reached() && now == Handed(old(now), i, ok)
    {
      Act(Store(i, ok));
    }

    ghost method CountOne(i: nat)
      requires Reached() && i < |now.threads| && now.threads[i].Counting?
      modifies this`now, this`trace
      ensures Reached() && now == Counted(old(now), i)
    {
      Act(Count(i));
    }

    ghost method HandAndCount(i: nat, ok: bool)
      requires Reached() && i < |now.threads| && now.threads[i].Storing? && now.threads[i].batch != []
      modifies this`now, this`trace
      ensures Reached() && Delivered(old(now), now, i, ok)
    {
      HandOver(i, ok);
      CountOne(i);
      HandedCounted(old(now), i, ok);
    }

    ghost method EndBatch(i: nat)
      requires Reached() && i < |now.threads| && now.threads[i].Storing? && now.threads[i].batch == []
      modifies this`now, this`trace
      ensures Reached() && now == Moved(old(now), i, Resumed(old(now.threads[i].next))).(batches := old(now.batches) + 1)
    {
      Act(CountBatch(i));
    }

    ghost method Arrive(i: nat, m: Metric, valid: bool)
      requires Reached() && 2 <= i < |now.threads| && now.threads[i].Idle?
      modifies this`now, this`trace
      ensures Reached()
      ensures now == if valid then Moved(old(now), i, Arrived(m))
                     else old(now).(errors := old(now.errors) + 1, invalid := old(now.invalid) + 1)
    {
      Act(Call(i, m, valid));
    }

    ghost method TurnAway(i: nat)
      requires Reached() && 2 <= i < |now.threads| && now.threads[i].Arrived?
      requires !now.running || |now.buffer| >= cfg.bufferSize
      modifies this`now, this`trace
      ensures Reached()
      ensures now == Moved(old(now), i, if old(now.running) then MustFlush(Append(old(now.threads[i].m))) else Idle)
    {
      Act(Enter(i));
    }

    ghost method LeaveCall(i: nat)
      requires Reached() && 2 <= i < |now.threads| && now.threads[i] == Retaking(Return)
      modifies this`now, this`trace
      ensures Reached() && now == Moved(old(now), i, Idle)
    {
      Act(Retake(i));
    }

    ghost method TakeTick()
      requires Reached() && now.threads[FLUSHER].Idle?
      modifies this`now, this`trace
      ensures Reached() && now == Moved(old(now), FLUSHER, MustFlush(WaitTick))
    {
      Act(Tick);
    }

    ghost method CloseAndJoin()
      requires Reached() && now.running && now.threads[STOPPER].Idle?
      requires now.threads[FLUSHER].Idle? || now.threads[FLUSHER].Exited?
      modifies this`now, this`trace
      ensures Reached()
      ensures now.threads == old(now.threads)[FLUSHER := Exited][STOPPER := MustFlush(Finish)]
      ensures now.buffer == old(now.buffer) && !now.running && SameCounts(now, old(now).(running := false))
    {
      Act(StopCalled);
      assert now == Moved(old(now), STOPPER, Waiting).(running := false);
      LetFlusherEnd();
      JoinFlusher();
      assert now.threads == old(now.threads)[FLUSHER := Exited][STOPPER := MustFlush(Finish)];
    }

    ghost method JoinFlusher()
      requires Reached() && now.threads[STOPPER].Waiting? && now.threads[FLUSHER].Exited?
      modifies this`now, this`trace
      ensures Reached() && now == Moved(old(now), STOPPER, MustFlush(Finish))
    {
      Act(StopJoined);
    }

    ghost method LetFlusherEnd()
      requires Reached() && (now.threads[FLUSHER].Idle? || now.threads[FLUSHER].Exited?)
      modifies this`now, this`trace
      ensures Reached() && now == Moved(old(now), FLUSHER, Exited)
    {
      if now.threads[FLUSHER].Idle? {
        Act(FlusherExit);
      } else {
        assert now.threads == now.threads[FLUSHER := Exited];
      }
    }

    method Start() returns (ok: bool)
      requires Valid() && (isRunning || now.threads[FLUSHER].NotStarted?)
      modifies this
      ensures Valid() && isRunning && ok == !old(isRunning)
      ensures dataBuffer == old(dataBuffer)
      ensures now.threads == if ok then old(now.threads)[FLUSHER := Idle] else old(now.threads)
    {
      if isRunning {
        return false;
      }
      Act(Action.Start);
      isRunning := true;
      ok := true;
    }

    method ProcessBatch(batch: seq<Metric>, i: nat)
      requires Valid() && i < |now.threads| && now.threads[i].Storing? && now.threads[i].batch == batch
      modifies this`totalProcessed, this`totalErrors, this`now, this`trace
      ensures Valid()
      ensures now.threads == old(now.threads)[i := Storing([], old(now.threads[i].next))]
      ensures totalProcessed + totalErrors == old(totalProcessed + totalErrors) + |batch|
      ensures now.stored + now.failed == old(now.stored + now.failed) + multiset(batch)
      ensures now.accepted == old(now.accepted)
    {
      ghost var s := now;
      NoneHanded(s, i, batch);
      for k := 0 to |batch|
        invariant Valid() && HandedOver(s, now, i, batch, k)
      {
        StoreNext(batch, k, i, s);
      }
      AllHanded(s, now, i, batch);
    }

    // Storage answers as it likes.
    method StoreNext(batch: seq<Metric>, k: nat, i: nat, ghost s: State)
      requires Valid() && i < |s.threads| && s.threads[i].Storing? && k < |batch| && HandedOver(s, now, i, batch, k)
      modifies this`totalProcessed, this`totalErrors, this`now, this`trace
      ensures Valid() && HandedOver(s, now, i, batch, k + 1)
    {
      var ok: bool := *;
      ghost var next := s.threads[i].next;
      OneMore(batch, k);
      HandedAll(now.stored, now.failed, batch[k], multiset(batch[..k]), s.stored + s.failed);
      DropOne(batch, k);
      Overwrite(s.threads, i, Storing(batch[k..], next), Storing(batch[k + 1..], next));
      StoreMetric(ok, i);
    }

    // One storage call and its counter.
    method StoreMetric(ok: bool, i: nat)
      requires Valid() && i < |now.threads| && now.threads[i].Storing? && now.threads[i].batch != []
      modifies this`totalProcessed, this`totalErrors, this`now, this`trace
      ensures Valid()
      ensures Delivered(old(now), now, i, ok)
      ensures totalProcessed == old(totalProcessed) + (if ok then 1 else 0)
      ensures totalErrors == old(totalErrors) + (if ok then 0 else 1)
    {
      HandAndCount(i, ok);
      if ok {
        totalProcessed := totalProcessed + 1;
      } else {
        totalErrors := totalErrors + 1;
      }
    }

    method FlushBuffer(i: nat)
      requires Valid() && i < |now.threads| && now.threads[i].MustFlush?
      modifies this`dataBuffer, this`totalProcessed, this`totalErrors, this`batchesProcessed, this`now, this`trace
      ensures Valid() && dataBuffer == []
      ensures now.threads == old(now.threads)[i := Resumed(old(now.threads[i].next))]
      ensures totalProcessed + totalErrors == old(totalProcessed + totalErrors) + |old(dataBuffer)|
      ensures batchesProcessed == old(batchesProcessed) + (if old(dataBuffer) == [] then 0 else 1)
      ensures now.stored + now.failed == old(now.stored + now.failed) + multiset(old(dataBuffer))
      ensures now.accepted == old(now.accepted)
    {
      ghost var next := now.threads[i].next;
      TakeBuffer(i);
      if |dataBuffer| == 0 {
        return;
      }
      var batch := dataBuffer;
      dataBuffer := [];
      Overwrite(old(now.threads), i, Storing(batch, next), Storing([], next));
      ProcessBatch(batch, i);
      Overwrite(old(now.threads), i, Storing([], next), Resumed(next));
      EndBatch(i);
      batchesProcessed := batchesProcessed + 1;
    }

    method IngestMetric(metric: Metric, valid: bool, i: nat) returns (ok: bool)
      requires Valid() && 2 <= i < |now.threads| && now.threads[i].Idle?
      modifies this`dataBuffer, this`totalIngested, this`totalProcessed, this`totalErrors, this`batchesProcessed, this`now, this`trace
      ensures Valid() && now.threads == old(now.threads)
      ensures ok == (valid && old(isRunning))
      ensures totalIngested == old(totalIngested) + (if ok then 1 else 0)
      ensures now.accepted == old(now.accepted) + (if ok then multiset{metric} else multiset{})
      ensures !ok ==> dataBuffer == old(dataBuffer) && totalErrors == old(totalErrors) + (if valid then 0 else 1)
      ensures var kept := if |old(dataBuffer)| >= cfg.bufferSize then [] else old(dataBuffer);
              ok ==> dataBuffer == if |kept| + 1 >= cfg.batchSize then [] else kept + [metric]
    {
      Arrive(i, metric, valid);
      if !valid {
        totalErrors := totalErrors + 1;
        return false;
      }
      Overwrite(old(now.threads), i, Arrived(metric), Idle);
      if !isRunning {
        TurnAway(i);
        return false;
      }
      FlushIfFullAndAppend(metric, i, old(now.threads));
      FlushIfDue(i, old(now.threads));
      ok := true;
    }

    // The first flush of IngestMetric, for capacity; nothing is checked again after it.
    method FlushIfFullAndAppend(metric: Metric, i: nat, ghost before: seq<Pc>)
      requires Valid() && isRunning && 2 <= i < |before| && now.threads == before[i := Arrived(metric)]
      modifies this`dataBuffer, this`totalIngested, this`totalProcessed, this`totalErrors, this`batchesProcessed, this`now, this`trace
      ensures Valid() && totalIngested == old(totalIngested) + 1
      ensures now.accepted == old(now.accepted) + multiset{metric}
      ensures dataBuffer == (if |old(dataBuffer)| >= cfg.bufferSize then [] else old(dataBuffer)) + [metric]
      ensures now.threads == before[i := if |dataBuffer| >= cfg.batchSize then MustFlush(Return) else Idle]
    {
      if |dataBuffer| >= cfg.bufferSize {
        TurnAway(i);
        Overwrite(before, i, Arrived(metric), MustFlush(Append(metric)));
        FlushBuffer(i);
        Overwrite(before, i, MustFlush(Append(metric)), Retaking(Append(metric)));
        Admit(metric, i, Retake(i));
        Overwrite(before, i, Retaking(Append(metric)), now.threads[i]);
      } else {
        Admit(metric, i, Enter(i));
        Overwrite(before, i, Arrived(metric), now.threads[i]);
      }
    }

    // The second flush of IngestMetric, for batch size.
    method FlushIfDue(i: nat, ghost before: seq<Pc>)
      requires Valid() && 2 <= i < |before| && before[i].Idle?
      requires now.threads == before[i := if |dataBuffer| >= cfg.batchSize then MustFlush(Return) else Idle]
      modifies this`dataBuffer, this`totalProcessed, this`totalErrors, this`batchesProcessed, this`now, this`trace
      ensures Valid() && now.threads == before && now.accepted == old(now.accepted)
      ensures dataBuffer == if |old(dataBuffer)| >= cfg.batchSize then [] else old(dataBuffer)
    {
      if |dataBuffer| >= cfg.batchSize {
        FlushBuffer(i);
        LeaveCall(i);
      }
    }

    // The metric goes into the buffer and is counted.
    method Admit(metric: Metric, i: nat, ghost a: Action)
      requires Valid() && 2 <= i < |now.threads|
      requires || (a == Enter(i) && now.threads[i] == Arrived(metric) && isRunning && |dataBuffer| < cfg.bufferSize)
               || (a == Retake(i) && now.threads[i] == Retaking(Append(metric)))
      modifies this`dataBuffer, this`totalIngested, this`now, this`trace
      ensures Valid() && dataBuffer == old(dataBuffer) + [metric] && totalIngested == old(totalIngested) + 1
      ensures now == Appended(cfg, old(now), i, metric)
    {
      AdmitStep(cfg, now, i, metric, a);
      Act(a);
      dataBuffer := dataBuffer + [metric];
      totalIngested := totalIngested + 1;
    }

    // One tick of flushRoutine.
    method FlushTick()
      requires Valid() && now.threads[FLUSHER].Idle?
      modifies this`dataBuffer, this`totalProcessed, this`totalErrors, this`batchesProcessed, this`now, this`trace
      ensures Valid() && dataBuffer == [] && now.threads == old(now.threads)
      ensures totalProcessed + totalErrors == old(totalProcessed + totalErrors) + |old(dataBuffer)|
      ensures batchesProcessed == old(batchesProcessed) + (if old(dataBuffer) == [] then 0 else 1)
      ensures now.stored + now.failed == old(now.stored + now.failed) + multiset(old(dataBuffer))
      ensures now.accepted == old(now.accepted)
    {
      TakeTick();
      FlushBuffer(FLUSHER);
      Overwrite(old(now.threads), FLUSHER, MustFlush(WaitTick), Idle);
    }

    // Closing the channel lets the flusher end, if it had not ended before.
    method Stop()
      requires Valid() && (isRunning ==> now.threads[STOPPER].Idle?)
      requires isRunning ==> now.threads[FLUSHER].Idle? || now.threads[FLUSHER].Exited?
      modifies this
      ensures Valid() && !isRunning
      ensures !old(isRunning) ==> now == old(now)
      ensures old(isRunning) ==>
                && dataBuffer == []
                && now.threads == old(now.threads)[FLUSHER := Exited][STOPPER := Exited]
                && totalProcessed + totalErrors == old(totalProcessed + totalErrors) + |old(dataBuffer)|
                && now.stored + now.failed == old(now.stored + now.failed) + multiset(old(dataBuffer))
                && now.accepted == old(now.accepted)
    {
      if !isRunning {
        return;
      }
      CloseAndJoin();
      isRunning := false;
      FlushBuffer(STOPPER);
    }
  }

  // A processor used by one call at a time holds less than a batch between the
  // calls, and has handed everything else to storage.
  lemma AtRestBetweenCalls(p: StreamProcessor)
    requires p.Valid() && p.cfg.batchSize >= 1
    requires forall i :: 0 <= i < |p.now.threads| ==> p.now.threads[i].Idle?
    ensures |p.dataBuffer| <= p.cfg.batchSize - 1
    ensures p.now.accepted == multiset(p.dataBuffer) + p.now.stored + p.now.failed
    ensures p.totalIngested == |p.dataBuffer| + p.totalProcessed + (p.totalErrors - p.now.invalid)
  {
    var s := p.now;
    RunInv(p.cfg, p.ingesters, p.trace);
    CountNone(s.threads, Owes);
    CountNone(s.threads, StoredUncounted);
    CountNone(s.threads, FailedUncounted);
    NothingHeld(s.threads);
    assert s.accepted == multiset(s.buffer) + s.stored + s.failed;
  }
}
