/** Termination: a signal is never forgotten, and the worker stops only on an empty queue or past its deadline. */
module Shutdown {
  import opened Protocol
  import Store
  import Worker

  lemma {:induction false} RunSnoc(s: State, steps: seq<Step>)
    requires IsRun(s, steps) && steps != []
    ensures var front := steps[..|steps| - 1];
            && IsRun(s, front) && Enabled(After(s, front), steps[|steps| - 1])
            && After(s, steps) == Next(After(s, front), steps[|steps| - 1])
    decreases |steps|
  {
    hide Enabled, Next;
    if |steps| == 1 {
      assert steps[..0] == [] && steps[1..] == [];
    } else {
      RunSnoc(Next(s, steps[0]), steps[1..]);
      assert steps[..|steps| - 1][0] == steps[0];
      assert steps[..|steps| - 1][1..] == steps[1..][..|steps| - 2];
      assert steps[1..][|steps| - 2] == steps[|steps| - 1];
    }
  }

  // ---------------------------------------------------------------------
  // A termination signal is acted on
  // ---------------------------------------------------------------------

  /** Told to stop: the signal is noted, or the worker is already on its way out. */
  predicate ToldToStop(w: Worker.Worker) {
    w.termFlag || w.sigterm || w.pc.Flushing? || w.pc.Stopping? || w.pc.Stopped?
  }

  lemma ActsOnSignal(w: Worker.Worker, a: Worker.Action)
    requires Worker.Can(w, a)
    ensures ToldToStop(w) ==> ToldToStop(Worker.Act(w, a))
    ensures a.Signal? && a.term ==> ToldToStop(Worker.Act(w, a))
  {
  }

  /** The decision after polling: flush and stop if told to, go on otherwise. */
  lemma DecisionIs(w: Worker.Worker)
    requires w.pc.Deciding?
    ensures var w' := Worker.Act(w, Worker.Decide);
            if w.sigterm then w'.pc.Flushing? else w'.pc.Checking?
  {
  }

  /** A drain stops before the next chunk if any signal has arrived, and else takes it. */
  lemma SignalInterruptsDrain(w: Worker.Worker)
    requires w.pc.Checking?
    ensures var w' := Worker.Act(w, Worker.CheckSignals);
            if w.hupFlag || w.termFlag || w.sighup || w.sigterm then w'.pc.Top? else w'.pc.Taking?
  {
  }

  /** Once told to stop, the worker stays told to. */
  lemma {:induction false} SignalIsKept(s: State, steps: seq<Step>)
    requires IsRun(s, steps) && ToldToStop(s.worker)
    ensures ToldToStop(After(s, steps).worker)
    decreases |steps|
  {
    if steps != [] {
      ToldNext(s, steps[0]);
      hide ToldToStop, Enabled, Next;
      SignalIsKept(Next(s, steps[0]), steps[1..]);
    }
  }

  lemma ToldNext(s: State, step: Step)
    requires Enabled(s, step) && ToldToStop(s.worker)
    ensures ToldToStop(Next(s, step).worker)
  {
    hide Store.TakeChunk, Store.PushBatch, Worker.Act;
    match step
    case Act(action) => ActsOnSignal(s.worker, action);
    case _ =>
  }

  // ---------------------------------------------------------------------
  // Stopping
  // ---------------------------------------------------------------------

  predicate Down(w: Worker.Worker) { w.pc.Stopping? || w.pc.Stopped? }

  predicate IsDown(s: State) { Down(s.worker) }

  /** The step at which a run leaves the final flush: past the deadline, or with a chunk taken that leaves nothing. */
  ghost predicate EndsFlush(s: State, steps: seq<Step>, k: nat)
    requires IsRun(s, steps)
  {
    && k < |steps| && IsRun(s, steps[..k]) && IsRun(s, steps[..k + 1])
    && After(s, steps[..k]).worker.pc.Flushing?
    && (steps[k] == Act(Worker.GiveUp) || (steps[k].TakeChunk? && Store.IsEmpty(After(s, steps[..k + 1]).store)))
  }

  lemma WorkerGoesDown(w: Worker.Worker, a: Worker.Action)
    requires Worker.Can(w, a) && !Down(w) && Down(Worker.Act(w, a))
    ensures w.pc.Flushing? && a.GiveUp?
  {
  }

  lemma ChunkGoesDown(w: Worker.Worker, empty: bool)
    requires !Down(w) && Down(Worker.Took(w, empty))
    ensures w.pc.Flushing? && empty
  {
  }

  /** Only the final flush leads down. */
  lemma GoesDown(s: State, step: Step)
    requires Inv(s) && Enabled(s, step) && !IsDown(s) && IsDown(Next(s, step))
    ensures s.worker.pc.Flushing?
    ensures step == Act(Worker.GiveUp) || (step.TakeChunk? && Store.IsEmpty(Next(s, step).store))
  {
    hide Store.TakeChunk, Store.PushBatch, Store.Consistent, Store.IsEmpty, Worker.Act, Worker.Took, Worker.Sound, Worker.WakeAssured;
    match step
    case TakeChunk(maxBytes) =>
      Store.NoSpansIffEmpty(s.store, maxBytes);
      ChunkGoesDown(s.worker, Store.TakeChunk(s.store, maxBytes).1);
    case Act(action) => WorkerGoesDown(s.worker, action);
    case _ =>
  }

  lemma EndedBefore(s: State, steps: seq<Step>, k: nat)
    requires IsRun(s, steps) && steps != [] && IsRun(s, steps[..|steps| - 1]) && EndsFlush(s, steps[..|steps| - 1], k)
    ensures EndsFlush(s, steps, k)
  {
    var front := steps[..|steps| - 1];
    assert front[..k] == steps[..k] && front[..k + 1] == steps[..k + 1] && front[k] == steps[k];
    hide IsRun, After, Store.IsEmpty;
  }

  /** In every run that ends with the worker stopped, the final flush was ended by its deadline or by an empty queue. */
  lemma {:induction false} StopsDrained(capacity: nat, producers: nat, latch: bool, steps: seq<Step>) returns (k: nat)
    requires IsRun(Init(capacity, producers, latch), steps) && IsDown(After(Init(capacity, producers, latch), steps))
    ensures EndsFlush(Init(capacity, producers, latch), steps, k)
    decreases |steps|
  {
    var init := Init(capacity, producers, latch);
    assert steps != [] by { assert !IsDown(init); }
    var n := |steps| - 1;
    var front := steps[..n];
    hide Inv, Init, Enabled, Next, IsDown, IsRun, After;
    RunSnoc(init, steps);
    ReachableInv(capacity, producers, latch, front);
    assert steps[..n + 1] == steps;
    if IsDown(After(init, front)) {
      k := StopsDrained(capacity, producers, latch, front);
      EndedBefore(init, steps, k);
    } else {
      k := n;
      GoesDown(After(init, front), steps[n]);
    }
  }
}
