/** The ring refines a FIFO of payloads on every run, and recovers from arbitrary corruption. */
module Fifo {
  import opened Bytes
  import opened Framing
  import opened Queue
  import opened Wrappers

  datatype Op = Push(batch: seq<Payload>) | Drain(maxBytes: nat)

  /** What the caller of an operation sees; `T` is what a drain hands over. */
  datatype Outcome<T> = Pushed(pushed: Result<(), QueueFull>) | Took(taken: T, count: Result<nat, Corrupted>)

  /** One operation on the queued bytes, as the ring performs it. */
  function StepView(v: View, capacity: nat, op: Op): (View, Outcome<seq<byte>>)
    requires |Held(v)| <= capacity
  {
    match op
    case Push(batch) => var (v', r) := PushView(v, capacity, Frames(batch)); (v', Pushed(r))
    case Drain(maxBytes) => var d := DrainView(v, maxBytes); (d.view, Took(d.chunk, d.result))
  }

  /** The same operation on a first-in first-out queue of payloads. */
  function StepFifo(q: seq<Payload>, capacity: nat, op: Op): (seq<Payload>, Outcome<seq<Payload>>) {
    match op
    case Push(batch) =>
      if |Frames(q)| + |Frames(batch)| <= capacity then (q + batch, Pushed(Ok(())))
      else (q, Pushed(Err(QueueFull(|Frames(batch)|, if |Frames(q)| <= capacity then capacity - |Frames(q)| else 0))))
    case Drain(maxBytes) =>
      var k := Take(q, 0, maxBytes);
      (q[k..], Took(q[..k], Ok(k)))
  }

  /** The two outcomes agree, and what was drained is the whole records that the queue gave up. */
  ghost predicate SameOutcome(b: Outcome<seq<byte>>, q: Outcome<seq<Payload>>) {
    match (b, q)
    case (Pushed(r), Pushed(r')) => r == r'
    case (Took(chunk, n), Took(ps, n')) => n == n' == Ok(|ps|) && chunk == Frames(ps) && Items(chunk) == AllOk(ps)
    case _ => false
  }

  lemma PushRefines(q: seq<Payload>, capacity: nat, batch: seq<Payload>)
    requires |Frames(q)| <= capacity
    ensures var (v', r) := PushView(Queued(Frames(q)), capacity, Frames(batch));
            var (q', o) := StepFifo(q, capacity, Push(batch));
            v' == Queued(Frames(q')) && |Frames(q')| <= capacity && o == Pushed(r)
  {
    FramesConcat(q, batch);
    hide Frames, Take, Measure;
  }

  lemma DrainRefines(q: seq<Payload>, maxBytes: nat)
    ensures var d := DrainView(Queued(Frames(q)), maxBytes);
            var k := Take(q, 0, maxBytes);
            && LongestDrain(q, maxBytes, k)
            && d == Drained(Queued(Frames(q[k..])), Frames(q[..k]), Ok(k))
            && Items(d.chunk) == AllOk(q[..k])
            && |Frames(q[k..])| <= |Frames(q)|
  {
    var k := Take(q, 0, maxBytes);
    TakeIsLongest(q, 0, maxBytes);
    assert q[..0] == [];
    MeasureOfFrames(q, 0, maxBytes);
    assert q == q[..k] + q[k..];
    FramesConcat(q[..k], q[k..]);
    ItemsOfFrames(q[..k]);
  }

  /**
   The budget of a drain: at least one record if any is queued; all that was drained is within the budget
   unless it is a single record; and one record more would not be.
   */
  lemma DrainBudget(q: seq<Payload>, maxBytes: nat) returns (k: nat)
    ensures k <= |q| && DrainView(Queued(Frames(q)), maxBytes) == Drained(Queued(Frames(q[k..])), Frames(q[..k]), Ok(k))
    ensures (q != [] ==> k >= 1) && (k > 1 ==> |Frames(q[..k])| <= maxBytes)
    ensures k < |q| ==> |Frames(q[..k + 1])| > maxBytes
  {
    k := Take(q, 0, maxBytes);
    DrainRefines(q, maxBytes);
    hide DrainView, Frames, Take;
    assert q != [] ==> Acceptable(q, maxBytes, 1);
    assert k < |q| ==> !Acceptable(q, maxBytes, k + 1);
  }

  lemma StepRefines(q: seq<Payload>, capacity: nat, op: Op)
    requires |Frames(q)| <= capacity
    ensures var (v', b) := StepView(Queued(Frames(q)), capacity, op);
            var (q', o) := StepFifo(q, capacity, op);
            v' == Queued(Frames(q')) && |Frames(q')| <= capacity && SameOutcome(b, o)
  {
    match op
    case Push(batch) => PushRefines(q, capacity, batch);
    case Drain(maxBytes) => DrainRefines(q, maxBytes);
  }

  function RunView(v: View, capacity: nat, ops: seq<Op>): (View, seq<Outcome<seq<byte>>>)
    requires |Held(v)| <= capacity
    decreases ops
  {
    if ops == [] then (v, [])
    else
      var (v', o) := StepView(v, capacity, ops[0]);
      var (end, os) := RunView(v', capacity, ops[1..]);
      (end, [o] + os)
  }

  function RunFifo(q: seq<Payload>, capacity: nat, ops: seq<Op>): (seq<Payload>, seq<Outcome<seq<Payload>>>)
    decreases ops
  {
    if ops == [] then (q, [])
    else
      var (q', o) := StepFifo(q, capacity, ops[0]);
      var (end, os) := RunFifo(q', capacity, ops[1..]);
      (end, [o] + os)
  }

  /**
   Refinement over whole runs: for any capacity and any sequence of operations the ring answers as
   the FIFO does. A push is accepted exactly when it fits and appends its payloads; a drain hands
   over the longest acceptable prefix; no operation ever reports corruption.
   */
  lemma {:induction false} RunRefines(q: seq<Payload>, capacity: nat, ops: seq<Op>)
    requires |Frames(q)| <= capacity
    ensures var (v, bs) := RunView(Queued(Frames(q)), capacity, ops);
            var (q', os) := RunFifo(q, capacity, ops);
            && v == Queued(Frames(q'))
            && |bs| == |os| == |ops|
            && forall i :: 0 <= i < |ops| ==> SameOutcome(bs[i], os[i])
    decreases ops
  {
    if ops != [] {
      StepRefines(q, capacity, ops[0]);
      RunRefines(StepFifo(q, capacity, ops[0]).0, capacity, ops[1..]);
    }
  }

  /** The payloads an operation handed over. */
  function Gave(o: Outcome<seq<Payload>>): seq<Payload> {
    if o.Took? then o.taken else []
  }

  /** The payloads an operation took in. */
  function Got(op: Op, o: Outcome<seq<Payload>>): seq<Payload> {
    if op.Push? && o.Pushed? && o.pushed.Ok? then op.batch else []
  }

  function Handed(os: seq<Outcome<seq<Payload>>>): seq<Payload> {
    if os == [] then [] else Gave(os[0]) + Handed(os[1..])
  }

  function Accepted(ops: seq<Op>, os: seq<Outcome<seq<Payload>>>): seq<Payload>
    requires |ops| == |os|
  {
    if ops == [] then [] else Got(ops[0], os[0]) + Accepted(ops[1..], os[1..])
  }

  lemma StepConserves(q: seq<Payload>, capacity: nat, op: Op)
    ensures var (q', o) := StepFifo(q, capacity, op); Gave(o) + q' == q + Got(op, o)
  {
  }

  /** Concatenating what a run drained and what it leaves queued gives back what it accepted. */
  lemma {:induction false} RunConserves(q: seq<Payload>, capacity: nat, ops: seq<Op>)
    ensures var (q', os) := RunFifo(q, capacity, ops);
            |os| == |ops| && Handed(os) + q' == q + Accepted(ops, os)
    decreases ops
  {
    if ops != [] {
      var (q', o) := StepFifo(q, capacity, ops[0]);
      StepConserves(q, capacity, ops[0]);
      RunConserves(q', capacity, ops[1..]);
      var (end, os) := RunFifo(q', capacity, ops[1..]);
      Reassociate(Gave(o), Handed(os), end, q', Accepted(ops[1..], os), q, Got(ops[0], o));
      assert ([o] + os)[1..] == os;
    }
  }

  lemma Reassociate<T>(a: seq<T>, b: seq<T>, c: seq<T>, d: seq<T>, e: seq<T>, f: seq<T>, g: seq<T>)
    requires b + c == d + e && a + d == f + g
    ensures (a + b) + c == f + (g + e)
  {
    assert (a + b) + c == a + (b + c);
    assert a + (d + e) == (a + d) + e;
    assert (f + g) + e == f + (g + e);
  }

  /**
   Self-stabilisation: whatever the positions and the bytes, a drain either fails, handing over
   nothing and leaving an empty well-formed ring, or hands over exactly the reported number of
   well-formed records from the front; and it moves something unless nothing was queued.
   */
  lemma DrainOfAnything(v: View, maxBytes: nat) returns (ps: seq<Payload>)
    ensures var d := DrainView(v, maxBytes);
            && (d.result.Err? ==> d.chunk == [] && d.view == Queued([]))
            && (d.result.Ok? ==>
                  && v.Queued? && v.bytes == d.chunk + Held(d.view) && d.view.Queued?
                  && d.chunk == Frames(ps) && Items(d.chunk) == AllOk(ps) && |ps| == d.result.value
                  && (ps == [] <==> v.bytes == []))
  {
    ps := [];
    assert v.Queued? && v.bytes == [] ==> Measure(v.bytes, 0, 0, maxBytes) == Ok((0, 0));
    hide Measure, Frames, Frame, SplitRecord;
    if v.Queued? && Measure(v.bytes, 0, 0, maxBytes).Ok? {
      ps := MeasuredPrefixIsFrames(v.bytes, [], maxBytes);
      ItemsOfFrames(ps);
      var (taken, _) := Measure(v.bytes, 0, 0, maxBytes).value;
      assert v.bytes == v.bytes[..taken] + v.bytes[taken..];
    }
  }

  /** A single drain, successful or not, or a single push makes the positions consistent for good. */
  lemma OneStepRepairs(v: View, capacity: nat, op: Op)
    requires |Held(v)| <= capacity
    ensures StepView(v, capacity, op).0.Queued?
    ensures v.Inconsistent? && op.Push? ==> StepView(v, capacity, op) == StepView(Queued([]), capacity, op)
    ensures v.Inconsistent? && op.Drain? ==> StepView(v, capacity, op) == (Queued([]), Took([], Err(InconsistentPositions)))
  {
  }

  predicate Corrupt<T>(o: Outcome<T>) { o.Took? && o.count.Err? }

  lemma CorruptEmpties(v: View, capacity: nat, op: Op)
    requires |Held(v)| <= capacity && Corrupt(StepView(v, capacity, op).1)
    ensures StepView(v, capacity, op).0 == Queued(Frames([]))
  {
    hide Measure;
  }

  /** After position `i` a run answers as the FIFO, without another corruption. */
  ghost predicate Converged(bs: seq<Outcome<seq<byte>>>, os: seq<Outcome<seq<Payload>>>, i: nat) {
    && |bs| == |os| + i + 1
    && forall j :: 0 <= j < |os| ==> SameOutcome(bs[i + 1..][j], os[j]) && !Corrupt(bs[i + 1..][j])
  }

  lemma ConvergedShift(b: Outcome<seq<byte>>, bs: seq<Outcome<seq<byte>>>, os: seq<Outcome<seq<Payload>>>, i: nat)
    requires Converged(bs, os, i)
    ensures Converged([b] + bs, os, i + 1)
  {
    assert ([b] + bs)[i + 1 + 1..] == bs[i + 1..];
  }

  lemma RunHead(v: View, capacity: nat, ops: seq<Op>)
    requires |Held(v)| <= capacity && ops != []
    ensures var (v', b) := StepView(v, capacity, ops[0]);
            RunView(v, capacity, ops).1 == [b] + RunView(v', capacity, ops[1..]).1
  {
    hide StepView;
  }

  lemma StepStays(v: View, capacity: nat, op: Op)
    requires |Held(v)| <= capacity
    ensures |Held(StepView(v, capacity, op).0)| <= capacity
  {
    hide Measure;
  }

  /**
   Convergence over whole runs: from arbitrary positions and bytes, corruption is reported at most once,
   and from then on the ring answers as the FIFO that starts empty.
   */
  lemma {:induction false} RunConverges(v: View, capacity: nat, ops: seq<Op>, i: nat)
    requires |Held(v)| <= capacity && i < |ops|
    ensures var bs := RunView(v, capacity, ops).1;
            |bs| == |ops| && (Corrupt(bs[i]) ==> Converged(bs, RunFifo([], capacity, ops[i + 1..]).1, i))
    decreases i
  {
    hide *;
    var (v', b) := StepView(v, capacity, ops[0]);
    RunHead(v, capacity, ops);
    StepStays(v, capacity, ops[0]);
    RunLength(v, capacity, ops);
    var bs, rest := RunView(v, capacity, ops).1, RunView(v', capacity, ops[1..]).1;
    if i == 0 {
      if Corrupt(b) {
        CorruptEmpties(v, capacity, ops[0]);
        FromEmpty(capacity, ops[1..]);
        ConvergedAtOnce(b, rest, RunFifo([], capacity, ops[1..]).1);
      }
    } else {
      RunConverges(v', capacity, ops[1..], i - 1);
      assert ops[1..][i - 1 + 1..] == ops[i + 1..];
      if Corrupt(bs[i]) {
        ConvergedShift(b, rest, RunFifo([], capacity, ops[i + 1..]).1, i - 1);
      }
    }
  }

  lemma ConvergedAtOnce(b: Outcome<seq<byte>>, bs: seq<Outcome<seq<byte>>>, os: seq<Outcome<seq<Payload>>>)
    requires |bs| == |os| && forall i :: 0 <= i < |os| ==> SameOutcome(bs[i], os[i]) && !Corrupt(bs[i])
    ensures Converged([b] + bs, os, 0)
  {
    hide SameOutcome, Corrupt;
    assert ([b] + bs)[0 + 1..] == bs;
  }

  lemma {:induction false} RunLength(v: View, capacity: nat, ops: seq<Op>)
    requires |Held(v)| <= capacity
    ensures |RunView(v, capacity, ops).1| == |ops|
    decreases ops
  {
    if ops != [] {
      RunLength(StepView(v, capacity, ops[0]).0, capacity, ops[1..]);
    }
  }

  lemma FromEmpty(capacity: nat, ops: seq<Op>)
    ensures var bs, os := RunView(Queued(Frames([])), capacity, ops).1, RunFifo([], capacity, ops).1;
            |bs| == |os| && forall i :: 0 <= i < |os| ==> SameOutcome(bs[i], os[i]) && !Corrupt(bs[i])
  {
    RunRefines([], capacity, ops);
    hide RunView, RunFifo;
  }
}
