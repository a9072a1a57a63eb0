/**
 Many producers, one sleeping consumer. Every atomic action of `publish`, `wake_worker` and the
 worker's main loop is one step: what happens under the queue lock is a single step, while setting
 the latch and counting drops are separate, later steps that other processes can get in between of.
 The theorems hold after every run of enabled steps, for any number of producers.
 */
module Protocol {
  import opened Delivery
  import opened Framing
  import opened Queue
  import opened Span
  import Store
  import Worker
  import opened Wrappers

  /** How far a backend is inside `publish`. */
  datatype Producer =
    | Idle
    | SkipPending(spans: seq<SpanRecord>)  // about to count the spans that could not be encoded
    | PushPending(spans: seq<SpanRecord>)  // about to take the queue lock
    | DropPending(records: nat)            // the push was rejected; about to count the batch
    | WakePending                          // decided to wake under the lock; about to look the worker up
    | LatchPending                         // found a worker; about to set its latch

  datatype State = State(
    store: Store.Store,
    worker: Worker.Worker,
    producers: seq<Producer>,
    dropped: nat,   // the shared counter
    offered: nat)   // history: spans passed to publish

  datatype Step =
    | Publish(p: nat, spans: seq<SpanRecord>)
    | CountSkipped(p: nat)
    | Push(p: nat)
    | CountDropped(p: nat)
    | LookUpWorker(p: nat)
    | SetLatch(p: nat)
    | TakeChunk(maxBytes: nat)
    | Act(action: Worker.Action)

  function Init(capacity: nat, producers: nat, latch: bool): State {
    State(Store.Empty(capacity), Worker.Initial(latch), seq(producers, _ => Idle), 0, 0)
  }

  predicate At(s: State, p: nat) { p < |s.producers| }

  predicate Enabled(s: State, step: Step) {
    match step
    case Publish(p, _) => At(s, p) && s.producers[p].Idle?
    case CountSkipped(p) => At(s, p) && s.producers[p].SkipPending?
    case Push(p) => At(s, p) && s.producers[p].PushPending? && Store.InBounds(s.store)
    case CountDropped(p) => At(s, p) && s.producers[p].DropPending?
    case LookUpWorker(p) => At(s, p) && s.producers[p].WakePending?
    case SetLatch(p) => At(s, p) && s.producers[p].LatchPending?
    case TakeChunk(_) => Worker.CanTake(s.worker)
    case Act(action) => Worker.Can(s.worker, action)
  }

  /** What `publish` does after the critical section. */
  function AfterPush(r: Store.Pushed, records: nat): Producer {
    match r
    case Rejected => DropPending(records)
    case Accepted(wake) => if wake then WakePending else Idle
  }

  function PublishStep(s: State, p: nat, spans: seq<SpanRecord>): State
    requires At(s, p)
  {
    s.(producers := s.producers[p := SkipPending(spans)], offered := s.offered + |spans|)
  }

  function CountSkippedStep(s: State, p: nat, spans: seq<SpanRecord>): State
    requires At(s, p)
  {
    PayloadsAtMost(spans);
    s.(producers := s.producers[p := if Payloads(spans) == [] then Idle else PushPending(spans)],
       dropped := s.dropped + (|spans| - |Payloads(spans)|))
  }

  function PushStep(s: State, p: nat, spans: seq<SpanRecord>): State
    requires At(s, p) && Store.InBounds(s.store)
  {
    var (store, r) := Store.PushBatch(s.store, spans);
    s.(store := store, producers := s.producers[p := AfterPush(r, |Payloads(spans)|)])
  }

  function CountDroppedStep(s: State, p: nat, records: nat): State
    requires At(s, p)
  {
    s.(producers := s.producers[p := Idle], dropped := s.dropped + records)
  }

  function LookUpStep(s: State, p: nat): State
    requires At(s, p)
  {
    s.(producers := s.producers[p := if s.worker.registered then LatchPending else Idle])
  }

  function SetLatchStep(s: State, p: nat): State
    requires At(s, p)
  {
    s.(producers := s.producers[p := Idle], worker := s.worker.(latch := true))
  }

  function TakeStep(s: State, maxBytes: nat): State {
    var (store, empty) := Store.TakeChunk(s.store, maxBytes);
    s.(store := store, worker := Worker.Took(s.worker, empty))
  }

  function Next(s: State, step: Step): State
    requires Enabled(s, step)
  {
    match step
    case Publish(p, spans) => PublishStep(s, p, spans)
    case CountSkipped(p) => CountSkippedStep(s, p, s.producers[p].spans)
    case Push(p) => PushStep(s, p, s.producers[p].spans)
    case CountDropped(p) => CountDroppedStep(s, p, s.producers[p].records)
    case LookUpWorker(p) => LookUpStep(s, p)
    case SetLatch(p) => SetLatchStep(s, p)
    case TakeChunk(maxBytes) => TakeStep(s, maxBytes)
    case Act(action) => s.(worker := Worker.Act(s.worker, action))
  }

  lemma PayloadsAtMost(spans: seq<SpanRecord>)
    ensures |Payloads(spans)| <= |spans|
  {
    FilterMapLength(PayloadOf, spans);
  }

  // ---------------------------------------------------------------------
  // The invariant
  // ---------------------------------------------------------------------

  /** Spans inside a `publish` that are neither queued nor counted as dropped yet. */
  function InFlight(p: Producer): nat {
    match p
    case SkipPending(spans) => |spans|
    case PushPending(spans) => |Payloads(spans)|
    case DropPending(records) => records
    case _ => 0
  }

  function AllInFlight(ps: seq<Producer>): nat {
    if ps == [] then 0 else InFlight(ps[0]) + AllInFlight(ps[1..])
  }

  predicate Owes(p: Producer) { p.WakePending? || p.LatchPending? }

  predicate SomeoneOwes(ps: seq<Producer>) { exists p :: 0 <= p < |ps| && Owes(ps[p]) }

  ghost predicate Inv(s: State) {
    && Store.Consistent(s.store)
    && s.offered == Store.SpanCount(s.store) + s.dropped + AllInFlight(s.producers)
    && Worker.Sound(s.worker)
    && Worker.WakeAssured(s.worker, Store.IsEmpty(s.store), SomeoneOwes(s.producers))
  }

  lemma {:induction false} InFlightUpdate(ps: seq<Producer>, p: nat, producer: Producer)
    requires p < |ps|
    ensures AllInFlight(ps[p := producer]) + InFlight(ps[p]) == AllInFlight(ps) + InFlight(producer)
  {
    if p == 0 {
      assert ps[p := producer][1..] == ps[1..];
    } else {
      InFlightUpdate(ps[1..], p - 1, producer);
      assert ps[p := producer][1..] == ps[1..][p - 1 := producer];
    }
  }

  /** Only the producer that moved can have paid, or incurred, a wake. */
  lemma OwingUpdate(ps: seq<Producer>, p: nat, producer: Producer)
    requires p < |ps|
    ensures Owes(producer) ==> SomeoneOwes(ps[p := producer])
    ensures SomeoneOwes(ps) && !Owes(ps[p]) ==> SomeoneOwes(ps[p := producer])
  {
    var ps' := ps[p := producer];
    if Owes(producer) {
      assert Owes(ps'[p]);
    }
    if SomeoneOwes(ps) && !Owes(ps[p]) {
      var o :| 0 <= o < |ps| && Owes(ps[o]);
      assert Owes(ps'[o]);
    }
  }

  /** The case of a producer's step that leaves the store alone. */
  lemma ProducerPreserves(s: State, p: nat, producer: Producer, dropped: nat, offered: nat, latch: bool)
    requires Inv(s) && At(s, p) && (s.worker.latch ==> latch)
    requires offered + s.dropped + InFlight(s.producers[p]) == s.offered + dropped + InFlight(producer)
    requires Owes(s.producers[p]) ==> Owes(producer) || latch || !s.worker.registered
    ensures Inv(State(s.store, s.worker.(latch := latch), s.producers[p := producer], dropped, offered))
  {
    InFlightUpdate(s.producers, p, producer);
    OwingUpdate(s.producers, p, producer);
  }

  lemma CountSkippedPreserves(s: State, p: nat, spans: seq<SpanRecord>)
    requires Inv(s) && At(s, p) && s.producers[p] == SkipPending(spans)
    ensures Inv(CountSkippedStep(s, p, spans))
  {
    hide Store.Consistent, Worker.Sound, Worker.WakeAssured;
    PayloadsAtMost(spans);
    ProducerPreserves(s, p, if Payloads(spans) == [] then Idle else PushPending(spans),
                      s.dropped + (|spans| - |Payloads(spans)|), s.offered, s.worker.latch);
  }

  lemma PushPreserves(s: State, p: nat, spans: seq<SpanRecord>)
    requires Inv(s) && At(s, p) && s.producers[p] == PushPending(spans)
    ensures Inv(PushStep(s, p, spans))
  {
    hide Store.PushBatch, Worker.Sound, Payloads;
    Store.PushKeepsConsistent(s.store, spans);
    var r := Store.PushBatch(s.store, spans).1;
    InFlightUpdate(s.producers, p, AfterPush(r, |Payloads(spans)|));
    OwingUpdate(s.producers, p, AfterPush(r, |Payloads(spans)|));
  }

  lemma TakePreserves(s: State, maxBytes: nat)
    requires Inv(s) && Worker.CanTake(s.worker)
    ensures Inv(TakeStep(s, maxBytes))
  {
    hide Store.TakeChunk;
    Store.TakeKeepsConsistent(s.store, maxBytes);
    Store.NoSpansIffEmpty(s.store, maxBytes);
    var empty := Store.TakeChunk(s.store, maxBytes).1;
    Worker.TookPreserves(s.worker, empty, SomeoneOwes(s.producers));
  }

  lemma ActPreserves(s: State, action: Worker.Action)
    requires Inv(s) && Worker.Can(s.worker, action)
    ensures Inv(s.(worker := Worker.Act(s.worker, action)))
  {
    hide Worker.Act, Worker.Sound, Worker.WakeAssured, Store.Consistent;
    Worker.ActPreserves(s.worker, action, Store.IsEmpty(s.store), SomeoneOwes(s.producers));
  }

  lemma PublishPreserves(s: State, p: nat, spans: seq<SpanRecord>)
    requires Inv(s) && At(s, p) && s.producers[p].Idle?
    ensures Inv(PublishStep(s, p, spans))
  {
    hide Store.Consistent, Worker.Sound, Worker.WakeAssured;
    ProducerPreserves(s, p, SkipPending(spans), s.dropped, s.offered + |spans|, s.worker.latch);
  }

  lemma BookkeepingPreserves(s: State, p: nat)
    requires Inv(s) && At(s, p)
    ensures s.producers[p].DropPending? ==> Inv(CountDroppedStep(s, p, s.producers[p].records))
    ensures s.producers[p].WakePending? ==> Inv(LookUpStep(s, p))
    ensures s.producers[p].LatchPending? ==> Inv(SetLatchStep(s, p))
  {
    hide Store.Consistent, Worker.Sound, Worker.WakeAssured;
    var w := s.worker;
    match s.producers[p]
    case DropPending(records) => ProducerPreserves(s, p, Idle, s.dropped + records, s.offered, w.latch);
    case WakePending =>
      ProducerPreserves(s, p, if w.registered then LatchPending else Idle, s.dropped, s.offered, w.latch);
    case LatchPending => ProducerPreserves(s, p, Idle, s.dropped, s.offered, true);
    case _ =>
  }

  lemma StepPreserves(s: State, step: Step)
    requires Inv(s) && Enabled(s, step)
    ensures Inv(Next(s, step))
  {
    hide Inv, PublishStep, CountSkippedStep, PushStep, CountDroppedStep, LookUpStep, SetLatchStep, TakeStep, Worker.Act;
    match step
    case Publish(p, spans) => PublishPreserves(s, p, spans);
    case Push(p) => PushPreserves(s, p, s.producers[p].spans);
    case CountSkipped(p) => CountSkippedPreserves(s, p, s.producers[p].spans);
    case TakeChunk(maxBytes) => TakePreserves(s, maxBytes);
    case Act(action) => ActPreserves(s, action);
    case _ => BookkeepingPreserves(s, step.p);
  }

  // ---------------------------------------------------------------------
  // Whole runs
  // ---------------------------------------------------------------------

  predicate IsRun(s: State, steps: seq<Step>)
    decreases |steps|
  {
    steps == [] || (Enabled(s, steps[0]) && IsRun(Next(s, steps[0]), steps[1..]))
  }

  function After(s: State, steps: seq<Step>): State
    requires IsRun(s, steps)
    decreases |steps|
  {
    if steps == [] then s else After(Next(s, steps[0]), steps[1..])
  }

  lemma InitInv(capacity: nat, producers: nat, latch: bool)
    ensures Inv(Init(capacity, producers, latch))
  {
    NothingInFlight(producers);
  }

  lemma {:induction false} NothingInFlight(n: nat)
    ensures AllInFlight(seq(n, _ => Idle)) == 0
  {
    if n > 0 {
      NothingInFlight(n - 1);
      assert seq(n, _ => Idle)[1..] == seq(n - 1, _ => Idle);
    }
  }

  lemma {:induction false} RunPreserves(s: State, steps: seq<Step>)
    requires Inv(s) && IsRun(s, steps)
    ensures Inv(After(s, steps))
    decreases |steps|
  {
    hide Inv, Next;
    if steps != [] {
      StepPreserves(s, steps[0]);
      RunPreserves(Next(s, steps[0]), steps[1..]);
    }
  }

  lemma ReachableInv(capacity: nat, producers: nat, latch: bool, steps: seq<Step>)
    requires IsRun(Init(capacity, producers, latch), steps)
    ensures Inv(After(Init(capacity, producers, latch), steps))
  {
    hide Inv, Init;
    InitInv(capacity, producers, latch);
    RunPreserves(Init(capacity, producers, latch), steps);
  }

  /**
   No lost wake-up. Once the worker has completed a drain, whenever it sleeps with a clear latch,
   nothing is queued, or some producer still owes a wake it decided on under the lock; and as the
   worker is registered, that producer's next steps do set the latch.
   */
  lemma NoLostWakeUp(capacity: nat, producers: nat, latch: bool, steps: seq<Step>)
    requires IsRun(Init(capacity, producers, latch), steps)
    ensures var s := After(Init(capacity, producers, latch), steps);
            s.worker.synced && s.worker.pc.Asleep? && !s.worker.latch ==>
              && !Worker.SignalPending(s.worker) && s.worker.registered
              && (Store.IsEmpty(s.store) || exists p :: 0 <= p < |s.producers| && Owes(s.producers[p]))
  {
    ReachableInv(capacity, producers, latch, steps);
  }

  /** Conservation: every span offered is received, queued, counted as dropped, or still in flight. */
  lemma SpansAreConserved(capacity: nat, producers: nat, latch: bool, steps: seq<Step>)
    requires IsRun(Init(capacity, producers, latch), steps)
    ensures var s := After(Init(capacity, producers, latch), steps);
            s.offered == |Received(s.store.chunks)| + |DecodedSpans(Items(Held(s.store.queue)))|
                         + s.dropped + AllInFlight(s.producers)
  {
    ReachableInv(capacity, producers, latch, steps);
    Store.Delivered(After(Init(capacity, producers, latch), steps).store);
  }

  /**
   Delivery in order, in every interleaving and for every sequence of drain budgets: what the worker
   received, followed by what is queued, is exactly the encodable spans of the accepted batches in the
   order of taking the lock, each batch contiguous and complete, with clamped times; nothing drained
   was undecodable, and the next drain will not report corruption.
   */
  lemma SpansAreDeliveredInOrder(capacity: nat, producers: nat, latch: bool, steps: seq<Step>, maxBytes: nat)
    requires IsRun(Init(capacity, producers, latch), steps)
    ensures var s := After(Init(capacity, producers, latch), steps);
            && Received(s.store.chunks) + DecodedSpans(Items(Held(s.store.queue))) == Kept(Flatten(s.store.accepted))
            && Lost(s.store.chunks) == 0
            && DrainView(s.store.queue, maxBytes).result.Ok?
  {
    ReachableInv(capacity, producers, latch, steps);
    var store := After(Init(capacity, producers, latch), steps).store;
    Store.Delivered(store);
    Store.NeverCorrupted(store, maxBytes);
  }

  lemma RunStep(s: State, step: Step, steps: seq<Step>)
    requires Enabled(s, step) && IsRun(Next(s, step), steps)
    ensures IsRun(s, [step] + steps) && After(s, [step] + steps) == After(Next(s, step), steps)
  {
    assert ([step] + steps)[1..] == steps;
  }

  lemma WorkerFallsAsleep(s: State)
    requires s.worker == Worker.Initial(false)
    ensures var steps := [Act(Worker.Register), Act(Worker.EnterWait)];
            var t := After(s, steps);
            && IsRun(s, steps) && t.store == s.store && t.producers == s.producers
            && t.worker.pc.Asleep? && !t.worker.latch
  {
    RunStep(Next(s, Act(Worker.Register)), Act(Worker.EnterWait), []);
    RunStep(s, Act(Worker.Register), [Act(Worker.EnterWait)]);
    assert [Act(Worker.Register)] + [Act(Worker.EnterWait)] == [Act(Worker.Register), Act(Worker.EnterWait)];
  }

  lemma FourSteps(s: State, a: Step, b: Step, c: Step, d: Step, steps: seq<Step>)
    requires Enabled(s, a) && Enabled(Next(s, a), b) && Enabled(Next(Next(s, a), b), c)
    requires Enabled(Next(Next(Next(s, a), b), c), d) && IsRun(Next(Next(Next(Next(s, a), b), c), d), steps)
    ensures var all := [a] + ([b] + ([c] + ([d] + steps)));
            IsRun(s, all) && After(s, all) == After(Next(Next(Next(Next(s, a), b), c), d), steps)
  {
    hide Enabled, Next;
    RunStep(Next(Next(Next(s, a), b), c), d, steps);
    RunStep(Next(Next(s, a), b), c, [d] + steps);
    RunStep(Next(s, a), b, [c] + ([d] + steps));
    RunStep(s, a, [b] + ([c] + ([d] + steps)));
  }

  // ---------------------------------------------------------------------
  // Before the first drain: exactly when no wake-up is lost
  // ---------------------------------------------------------------------

  /** If the worker sleeps with a clear latch, nothing is queued or somebody owes a wake. */
  predicate NotStranded(s: State) {
    s.worker.pc.Asleep? && !s.worker.latch ==> Store.IsEmpty(s.store) || SomeoneOwes(s.producers)
  }

  /** No continuation, however the processes interleave, leaves the worker stranded. */
  ghost predicate Safe(s: State) {
    forall steps :: IsRun(s, steps) ==> NotStranded(After(s, steps))
  }

  function Synced(s: State): State { s.(worker := Worker.Synced(s.worker)) }

  lemma SyncedNext(s: State, step: Step)
    requires Enabled(s, step)
    ensures Enabled(Synced(s), step) && Next(Synced(s), step) == Synced(Next(s, step))
  {
    hide Store.TakeChunk, Store.PushBatch, Payloads, AfterPush, Worker.Act, Worker.Can, Worker.Took;
    match step
    case TakeChunk(maxBytes) =>
      Worker.SyncedTakes(s.worker, Store.TakeChunk(s.store, maxBytes).1);
    case Act(action) => Worker.SyncedActs(s.worker, action);
    case _ =>
  }

  lemma {:induction false} SyncedRun(s: State, steps: seq<Step>)
    requires IsRun(s, steps)
    ensures IsRun(Synced(s), steps) && After(Synced(s), steps) == Synced(After(s, steps))
    decreases |steps|
  {
    hide Enabled, Next, Synced;
    if steps != [] {
      SyncedNext(s, steps[0]);
      SyncedRun(Next(s, steps[0]), steps[1..]);
    }
  }

  /** What decides it: whoever may go to sleep finds nothing queued, its latch set, or a wake owed. */
  predicate MaySafelySleep(s: State) {
    Worker.MaySleep(s.worker) ==> Store.IsEmpty(s.store) || s.worker.latch || SomeoneOwes(s.producers)
  }

  /** Once the worker has registered, no wake-up is ever lost if and only if it may safely sleep now. */
  lemma SafeIff(s: State)
    requires Inv(s) && !s.worker.pc.Starting?
    ensures Safe(s) <==> MaySafelySleep(s)
  {
    if MaySafelySleep(s) {
      forall steps | IsRun(s, steps) ensures NotStranded(After(s, steps)) {
        SyncedRun(s, steps);
        SyncedInv(s);
        RunPreserves(Synced(s), steps);
        InvKeepsAwake(Synced(After(s, steps)));
      }
    } else {
      SleepsAtOnce(s);
    }
  }

  lemma SyncedInv(s: State)
    requires Inv(s) && !s.worker.pc.Starting? && MaySafelySleep(s)
    ensures Inv(Synced(s))
  {
  }

  lemma InvKeepsAwake(s: State)
    requires Inv(s) && s.worker.synced
    ensures NotStranded(s)
  {
  }

  lemma SleepsAtOnce(s: State)
    requires !MaySafelySleep(s)
    ensures !Safe(s)
  {
    var sleep := if s.worker.pc.Asleep? then [] else [Act(Worker.EnterWait)];
    if !s.worker.pc.Asleep? {
      RunStep(s, sleep[0], []);
      assert sleep == [sleep[0]] + [];
    }
    assert IsRun(s, sleep) && !NotStranded(After(s, sleep));
  }

  /**
   The exact condition at the moment of registration, after any run up to there: from then on no
   wake-up is ever lost if and only if nothing is queued, the worker's latch is set already, or some
   producer is between its push and its wake.
   */
  lemma SafeFromRegistrationIff(capacity: nat, producers: nat, latch: bool, steps: seq<Step>)
    requires IsRun(Init(capacity, producers, latch), steps)
    requires After(Init(capacity, producers, latch), steps).worker.pc.Starting?
    ensures var s := After(Init(capacity, producers, latch), steps);
            Safe(Next(s, Act(Worker.Register))) <==>
            Store.IsEmpty(s.store) || s.worker.latch || SomeoneOwes(s.producers)
  {
    var s := After(Init(capacity, producers, latch), steps);
    ReachableInv(capacity, producers, latch, steps);
    ActPreserves(s, Worker.Register);
    SafeIff(Next(s, Act(Worker.Register)));
    NoSignalYet(s);
    hide Safe, Inv, Init;
  }

  lemma NoSignalYet(s: State)
    requires Inv(s) && s.worker.pc.Starting?
    ensures !Worker.SignalPending(s.worker)
  {
  }

  /**
   A witness for the failing side: a batch pushed before the worker registers leaves it asleep on a
   queue with data, with nobody left to wake it (until its timeout fires).
   */
  lemma WakeLostBeforeRegistration(spans: seq<SpanRecord>) returns (steps: seq<Step>)
    requires Payloads(spans) != []
    ensures var init := Init(|Frames(Payloads(spans))|, 1, false);
            IsRun(init, steps) &&
            var s := After(init, steps);
            s.worker.pc.Asleep? && !s.worker.latch && !Store.IsEmpty(s.store) && !SomeoneOwes(s.producers)
  {
    var init := Init(|Frames(Payloads(spans))|, 1, false);
    var published := PublishStep(init, 0, spans);
    var counted := CountSkippedStep(published, 0, spans);
    var pushed := PushStep(counted, 0, spans);
    var lookedUp := LookUpStep(pushed, 0);
    WorkerFallsAsleep(lookedUp);
    steps := [Act(Worker.Register), Act(Worker.EnterWait)];
    hide Payloads, Frames, After, IsRun;
    FourSteps(init, Publish(0, spans), CountSkipped(0), Push(0), LookUpWorker(0), steps);
    steps := [Publish(0, spans)] + ([CountSkipped(0)] + ([Push(0)] + ([LookUpWorker(0)] + steps)));
  }
}
