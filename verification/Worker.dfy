/**
 The worker's control flow: the main loop, `wait_latch`, the pending signals and the drain loop, one
 atomic action at a time. What the worker sees of the queue is a single bit per chunk taken.
 */
module Worker {

  datatype Control =
    | Starting    // not registered yet
    | Top         // loop head: sleep unless a signal is pending
    | Asleep      // in WaitLatch
    | Woken       // about to reset the latch
    | Polling     // about to fold new signals into the pending set
    | Deciding    // about to act on the pending signals
    | Checking    // drain loop: about to check for an interruption
    | Taking      // drain loop: about to take a chunk
    | Flushing    // shutdown: about to take a chunk, unless the deadline has passed
    | Stopping    // about to unregister
    | Stopped

  datatype Worker = Worker(
    pc: Control,
    registered: bool,  // the header names this process
    latch: bool,
    hupFlag: bool,     // set by the signal handlers, consumed by polling
    termFlag: bool,
    sighup: bool,      // pending signals
    sigterm: bool,
    synced: bool)      // history: a drain has completed since registration

  /** Before registration; whether something has set the latch of the starting process is not known. */
  function Initial(latch: bool): Worker { Worker(Starting, false, latch, false, false, false, false, false) }

  predicate SignalPending(w: Worker) { w.sighup || w.sigterm }

  function Polled(w: Worker): Worker {
    w.(sighup := w.sighup || w.hupFlag, sigterm := w.sigterm || w.termFlag, hupFlag := false, termFlag := false)
  }

  /** An action of the worker that does not touch the queue, or of a signal handler or the kernel. */
  datatype Action =
    | Signal(term: bool, setsLatch: bool)
    | Register
    | EnterWait
    | WakeUp                            // the latch is set, or the timeout fires
    | ResetLatch(postmasterDied: bool)
    | Poll
    | Decide
    | CheckSignals
    | GiveUp                            // the flush deadline has passed
    | Exit

  predicate Can(w: Worker, a: Action) {
    match a
    case Signal(_, _) => true
    case Register => w.pc.Starting?
    case EnterWait => w.pc.Top?
    case WakeUp => w.pc.Asleep?
    case ResetLatch(_) => w.pc.Woken?
    case Poll => w.pc.Polling?
    case Decide => w.pc.Deciding?
    case CheckSignals => w.pc.Checking?
    case GiveUp => w.pc.Flushing?
    case Exit => w.pc.Stopping?
  }

  function Act(w: Worker, a: Action): Worker
    requires Can(w, a)
  {
    match a
    case Signal(term, setsLatch) =>
      w.(latch := w.latch || setsLatch, termFlag := w.termFlag || term, hupFlag := w.hupFlag || !term)
    case Register => w.(registered := true, pc := Top)
    case EnterWait => w.(pc := if SignalPending(w) then Polling else Asleep)
    case WakeUp => w.(pc := Woken)
    case ResetLatch(postmasterDied) =>
      w.(latch := false, sigterm := w.sigterm || w.termFlag || postmasterDied, termFlag := false, pc := Polling)
    case Poll => Polled(w).(pc := Deciding)
    case Decide => if w.sigterm then w.(pc := Flushing) else w.(sighup := false, pc := Checking)
    case CheckSignals => var w' := Polled(w); w'.(pc := if SignalPending(w') then Top else Taking)
    case GiveUp => w.(pc := Stopping)
    case Exit => w.(registered := false, pc := Stopped)
  }

  predicate CanTake(w: Worker) { w.pc.Taking? || w.pc.Flushing? }

  /** After a chunk: an empty one ends the drain. */
  function Took(w: Worker, empty: bool): Worker {
    if w.pc.Flushing? then w.(pc := if empty then Stopping else Flushing)
    else w.(pc := if empty then Top else Checking, synced := w.synced || empty)
  }

  /** The worker is asleep, or about to go to sleep without looking at the queue again. */
  predicate MaySleep(w: Worker) { w.pc.Asleep? || (w.pc.Top? && !SignalPending(w)) }

  /** Never asleep with a pending signal; registered while running. */
  predicate Sound(w: Worker) {
    && (w.registered <==> !w.pc.Starting? && !w.pc.Stopped?)
    && (w.pc.Asleep? ==> !SignalPending(w))
    && (w.pc.Starting? ==> !w.synced && !SignalPending(w))
  }

  /** Data is queued only while the worker is bound to look at it, or its latch is set, or a wake is owed. */
  predicate WakeAssured(w: Worker, queueEmpty: bool, owed: bool) {
    w.synced && MaySleep(w) ==> queueEmpty || w.latch || owed
  }

  /** The same worker, taken to have completed a drain; nothing but the invariant reads that bit. */
  function Synced(w: Worker): Worker { w.(synced := true) }

  lemma SyncedTakes(w: Worker, empty: bool)
    ensures Took(Synced(w), empty) == Synced(Took(w, empty))
  {
    if w.pc.Flushing? {
      assert Took(w, empty) == w.(pc := if empty then Stopping else Flushing);
    } else {
      assert Took(w, empty) == w.(pc := if empty then Top else Checking, synced := w.synced || empty);
    }
  }

  lemma SyncedActs(w: Worker, a: Action)
    requires Can(w, a)
    ensures Can(Synced(w), a) && Act(Synced(w), a) == Synced(Act(w, a))
  {
    match a
    case Signal(_, _) =>
    case Register =>
    case EnterWait =>
    case WakeUp =>
    case ResetLatch(_) =>
    case Poll =>
    case Decide =>
    case CheckSignals =>
    case GiveUp =>
    case Exit =>
  }

  lemma ActPreserves(w: Worker, a: Action, queueEmpty: bool, owed: bool)
    requires Can(w, a) && Sound(w) && WakeAssured(w, queueEmpty, owed)
    ensures Sound(Act(w, a)) && WakeAssured(Act(w, a), queueEmpty, owed)
  {
  }

  lemma TookPreserves(w: Worker, empty: bool, owed: bool)
    requires CanTake(w) && Sound(w)
    ensures Sound(Took(w, empty)) && WakeAssured(Took(w, empty), empty, owed)
  {
  }
}
