/**
 The ingestion pipeline as a state machine: ingesters, the ticker flusher and
 Stop take turns at lock boundaries.  IngestMetric gives the lock up twice,
 around a flush for capacity and around a flush for batch size, and checks
 nothing again after retaking it.
 */
module Pipeline {

  datatype Metric = Metric(name: string, value: real, timestamp: int)
  datatype Config = Config(bufferSize: int, batchSize: int)

  // What a thread does once its flush is over.
  datatype After = Append(m: Metric) | Return | WaitTick | Finish

  datatype Pc =
    | NotStarted                                      // the flusher before Start
    | Idle                                            // between calls; in the flusher's select
    | Arrived(m: Metric)                              // validated, about to take the lock
    | MustFlush(next: After)                          // about to take the lock in flushBuffer
    | Storing(batch: seq<Metric>, next: After)        // these metrics are still to be stored
    | Counting(ok: bool, batch: seq<Metric>, next: After) // one was stored or refused, not counted yet
    | Batched(next: After)                            // about to count the batch
    | Retaking(next: After)                           // about to retake the lock in IngestMetric
    | Waiting                                         // Stop waiting for the flusher
    | Exited

  const FLUSHER: nat := 0
  const STOPPER: nat := 1

  // accepted, stored and failed record history: the metrics appended to the
  // buffer, and those handed to storage by outcome.  late counts the ingesters
  // that could still append when Stop flushed.
  datatype State = State(
    running: bool, buffer: seq<Metric>, threads: seq<Pc>,
    ingested: int, processed: int, errors: int, batches: int,
    accepted: multiset<Metric>, stored: multiset<Metric>, failed: multiset<Metric>, invalid: nat,
    stopFlushed: bool, late: nat)

  datatype Action =
    | Start
    | Call(i: nat, m: Metric, valid: bool)  // an ingester is called; valid is the validator's verdict
    | Enter(i: nat)                         // IngestMetric takes the lock
    | Flush(i: nat)                         // flushBuffer takes the lock
    | Store(i: nat, ok: bool)               // one storage call; ok is its outcome
    | Count(i: nat)                         // its counter
    | CountBatch(i: nat)
    | Retake(i: nat)                        // IngestMetric retakes the lock
    | Tick
    | FlusherExit                           // stop channel closed or context done
    | StopCalled
    | StopJoined                            // the wait for the flusher is over

  ghost function Init(ingesters: nat): State {
    State(false, [], [NotStarted, Idle] + seq(ingesters, _ => Idle), 0, 0, 0, 0,
          multiset{}, multiset{}, multiset{}, 0, false, 0)
  }

  ghost predicate IsIngester(s: State, i: nat) {
    2 <= i < |s.threads|
  }

  ghost predicate Enabled(s: State, a: Action) {
    && |s.threads| >= 2
    && match a
       case Start => !s.running && s.threads[FLUSHER].NotStarted?
       case Call(i, m, valid) => IsIngester(s, i) && s.threads[i].Idle?
       case Enter(i) => IsIngester(s, i) && s.threads[i].Arrived?
       case Flush(i) => i < |s.threads| && s.threads[i].MustFlush?
       case Store(i, ok) => i < |s.threads| && s.threads[i].Storing? && s.threads[i].batch != []
       case Count(i) => i < |s.threads| && s.threads[i].Counting?
       case CountBatch(i) =>
         i < |s.threads| && (s.threads[i].Batched? || (s.threads[i].Storing? && s.threads[i].batch == []))
       case Retake(i) => i < |s.threads| && s.threads[i].Retaking?
       case Tick => s.threads[FLUSHER].Idle?
       case FlusherExit => s.threads[FLUSHER].Idle?
       case StopCalled => s.running && s.threads[STOPPER].Idle?
       case StopJoined => s.threads[STOPPER].Waiting? && s.threads[FLUSHER].Exited?
  }

  // Where a thread goes when its flush is over.
  function Resumed(next: After): Pc {
    match next
    case Append(_) => Retaking(next)
    case Return => Retaking(next)
    case WaitTick => Idle
    case Finish => Exited
  }

  ghost function Moved(s: State, i: nat, pc: Pc): State
    requires i < |s.threads|
  {
    s.(threads := s.threads[i := pc])
  }

  // Append and TotalIngested happen under one hold of the lock.
  ghost function Appended(cfg: Config, s: State, i: nat, m: Metric): State
    requires i < |s.threads|
  {
    var buffer := s.buffer + [m];
    s.(buffer := buffer, ingested := s.ingested + 1, accepted := s.accepted + multiset{m},
       threads := s.threads[i := if |buffer| >= cfg.batchSize then MustFlush(Return) else Idle])
  }

  ghost function Flushed(s: State, i: nat, next: After): State
    requires i < |s.threads|
  {
    var t := if s.buffer == [] then Moved(s, i, Resumed(next))
             else s.(buffer := [], threads := s.threads[i := Storing(s.buffer, next)]);
    if next.Finish? then t.(stopFlushed := true, late := Appenders(s.threads)) else t
  }

  ghost function Handed(s: State, i: nat, ok: bool): State
    requires i < |s.threads| && s.threads[i].Storing? && s.threads[i].batch != []
  {
    var pc := s.threads[i];
    var m := pc.batch[0];
    var t := Moved(s, i, Counting(ok, pc.batch[1..], pc.next));
    if ok then t.(stored := s.stored + multiset{m}) else t.(failed := s.failed + multiset{m})
  }

  ghost function Counted(s: State, i: nat): State
    requires i < |s.threads| && s.threads[i].Counting?
  {
    var pc := s.threads[i];
    var t := Moved(s, i, Storing(pc.batch, pc.next));
    if pc.ok then t.(processed := s.processed + 1) else t.(errors := s.errors + 1)
  }

  ghost function Step(cfg: Config, s: State, a: Action): State
    requires Enabled(s, a)
  {
    match a
    case Start => Moved(s, FLUSHER, Idle).(running := true)
    case Call(i, m, valid) =>
      if valid then Moved(s, i, Arrived(m)) else s.(errors := s.errors + 1, invalid := s.invalid + 1)
    case Enter(i) =>
      if !s.running then Moved(s, i, Idle)
      else if |s.buffer| >= cfg.bufferSize then Moved(s, i, MustFlush(Append(s.threads[i].m)))
      else Appended(cfg, s, i, s.threads[i].m)
    case Flush(i) => Flushed(s, i, s.threads[i].next)
    case Store(i, ok) => Handed(s, i, ok)
    case Count(i) => Counted(s, i)
    case CountBatch(i) => Moved(s, i, Resumed(s.threads[i].next)).(batches := s.batches + 1)
    case Retake(i) =>
      if s.threads[i].next.Append? then Appended(cfg, s, i, s.threads[i].next.m) else Moved(s, i, Idle)
    case Tick => Moved(s, FLUSHER, MustFlush(WaitTick))
    case FlusherExit => Moved(s, FLUSHER, Exited)
    case StopCalled => Moved(s, STOPPER, Waiting).(running := false)
    case StopJoined => Moved(s, STOPPER, MustFlush(Finish))
  }

  // Any list of actions is an interleaving; an action that is not enabled is no step.
  ghost function Next(cfg: Config, s: State, a: Action): State {
    if Enabled(s, a) then Step(cfg, s, a) else s
  }

  ghost function RunFrom(cfg: Config, s: State, acts: seq<Action>): State {
    if acts == [] then s else Next(cfg, RunFrom(cfg, s, acts[..|acts| - 1]), acts[|acts| - 1])
  }

  ghost function Run(cfg: Config, ingesters: nat, acts: seq<Action>): State {
    RunFrom(cfg, Init(ingesters), acts)
  }

  // ---- Sums over the threads ---------------------------------------------------------

  ghost function Held(pc: Pc): multiset<Metric> {
    match pc
    case Storing(batch, _) => multiset(batch)
    case Counting(_, batch, _) => multiset(batch)
    case _ => multiset{}
  }

  // The metrics taken from the buffer and not yet handed to storage.
  ghost function InFlight(threads: seq<Pc>): multiset<Metric> {
    if threads == [] then multiset{} else InFlight(threads[..|threads| - 1]) + Held(threads[|threads| - 1])
  }

  lemma AddBoth<T>(a: multiset<T>, b: multiset<T>, c: multiset<T>, d: multiset<T>, e: multiset<T>)
    requires a + b == c + d
    ensures (a + e) + b == (c + e) + d
  {
    assert (a + e) + b == (a + b) + e;
    assert (c + e) + d == (c + d) + e;
  }

  lemma Exchange<T>(a: multiset<T>, b: multiset<T>, c: multiset<T>)
    ensures (a + b) + c == (a + c) + b
  {
  }

  lemma {:induction false} InFlightUpdate(threads: seq<Pc>, i: nat, pc: Pc)
    requires i < |threads|
    ensures InFlight(threads[i := pc]) + Held(threads[i]) == InFlight(threads) + Held(pc)
  {
    var n := |threads| - 1;
    if i == n {
      assert threads[i := pc][..n] == threads[..n];
      Exchange(InFlight(threads[..n]), Held(pc), Held(threads[i]));
    } else {
      assert threads[i := pc][..n] == threads[..n][i := pc];
      InFlightUpdate(threads[..n], i, pc);
      AddBoth(InFlight(threads[..n][i := pc]), Held(threads[i]), InFlight(threads[..n]), Held(pc), Held(threads[n]));
    }
  }

  ghost function CountIf(threads: seq<Pc>, f: Pc -> bool): nat {
    if threads == [] then 0 else
      CountIf(threads[..|threads| - 1], f) + if f(threads[|threads| - 1]) then 1 else 0
  }

  function B(b: bool): nat {
    if b then 1 else 0
  }

  lemma {:induction false} CountUpdate(threads: seq<Pc>, f: Pc -> bool, i: nat, pc: Pc)
    requires i < |threads|
    ensures CountIf(threads[i := pc], f) + B(f(threads[i])) == CountIf(threads, f) + B(f(pc))
  {
    var n := |threads| - 1;
    if i == n {
      assert threads[i := pc][..n] == threads[..n];
    } else {
      assert threads[i := pc][..n] == threads[..n][i := pc];
      CountUpdate(threads[..n], f, i, pc);
    }
  }

  lemma {:induction false} CountNone(threads: seq<Pc>, f: Pc -> bool)
    requires forall i :: 0 <= i < |threads| ==> !f(threads[i])
    ensures CountIf(threads, f) == 0
  {
    if threads != [] {
      CountNone(threads[..|threads| - 1], f);
    }
  }

  lemma {:induction false} CountAtMost(threads: seq<Pc>, f: Pc -> bool)
    ensures CountIf(threads, f) <= |threads|
    ensures |threads| >= 2 && !f(threads[0]) && !f(threads[1]) ==> CountIf(threads, f) <= |threads| - 2
  {
    if threads != [] {
      CountAtMost(threads[..|threads| - 1], f);
      if |threads| == 2 {
        assert threads[..1][..0] == [];
      }
    }
  }

  // Between an append that reached the batch size and the flush it owes.
  predicate Owes(pc: Pc) {
    pc.MustFlush? && pc.next.Return?
  }

  // Admitted, and still to append after its flush for capacity.
  predicate WillAppend(pc: Pc) {
    (pc.MustFlush? || pc.Storing? || pc.Counting? || pc.Batched? || pc.Retaking?) && pc.next.Append?
  }

  predicate StoredUncounted(pc: Pc) {
    pc.Counting? && pc.ok
  }

  predicate FailedUncounted(pc: Pc) {
    pc.Counting? && !pc.ok
  }

  ghost function Owing(threads: seq<Pc>): nat {
    CountIf(threads, Owes)
  }

  ghost function Appenders(threads: seq<Pc>): nat {
    CountIf(threads, WillAppend)
  }
}
