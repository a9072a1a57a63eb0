/** Which pushes decide to wake the worker, over whole runs of pushes with no drain in between. */
module Wakes {
  import opened Delivery
  import opened Framing
  import Protocol
  import opened Queue
  import opened Span
  import opened Store

  /** The store after the first `n` of `batches` have been pushed. */
  function AfterPushes(st: Store, batches: seq<seq<SpanRecord>>, n: nat): (r: Store)
    requires InBounds(st) && n <= |batches|
    ensures InBounds(r) && r.capacity == st.capacity
  {
    if n == 0 then st else PushBatch(AfterPushes(st, batches, n - 1), batches[n - 1]).0
  }

  function Answer(st: Store, batches: seq<seq<SpanRecord>>, i: nat): Pushed
    requires InBounds(st) && i < |batches|
  {
    PushBatch(AfterPushes(st, batches, i), batches[i]).1
  }

  function BatchBytes(spans: seq<SpanRecord>): nat { |Frames(Payloads(spans))| }

  function Sizes(batches: seq<seq<SpanRecord>>): (r: seq<nat>)
    ensures |r| == |batches|
  {
    seq(|batches|, i requires 0 <= i < |batches| => BatchBytes(batches[i]))
  }

  /** The total of the first `n` sizes. */
  function Fill(sizes: seq<nat>, n: nat): nat
    requires n <= |sizes|
  {
    if n == 0 then 0 else Fill(sizes, n - 1) + sizes[n - 1]
  }

  /** A single push: accepted exactly if it fits; it wakes exactly if it ends idleness or reaches half the capacity. */
  lemma PushDecides(st: Store, spans: seq<SpanRecord>)
    requires InBounds(st)
    ensures var (st', r) := PushBatch(st, spans);
            var used, used' := |Held(st.queue)|, |Held(st'.queue)|;
            && (r.Accepted? <==> used + BatchBytes(spans) <= st.capacity)
            && used' == used + (if r.Accepted? then BatchBytes(spans) else 0)
            && (r.Accepted? ==> (r.wake <==> used == 0 || used < st.capacity / 2 <= used'))
  {
  }

  /** The first `n` pushes are accepted, and put something into the queue. */
  ghost predicate AllAccepted(st: Store, batches: seq<seq<SpanRecord>>, n: nat)
    requires InBounds(st) && n <= |batches|
  {
    forall i :: 0 <= i < n ==> Answer(st, batches, i).Accepted? && Sizes(batches)[i] > 0
  }

  /** What `PushDecides` says of push `i` of a run. */
  lemma PushOfRun(st: Store, batches: seq<seq<SpanRecord>>, i: nat)
    requires InBounds(st) && i < |batches| && Answer(st, batches, i).Accepted?
    ensures var used, used' := |Held(AfterPushes(st, batches, i).queue)|, |Held(AfterPushes(st, batches, i + 1).queue)|;
            && used' == used + Sizes(batches)[i]
            && (Answer(st, batches, i).wake <==> used == 0 || used < st.capacity / 2 <= used')
  {
    hide PushBatch, Held, BatchBytes;
    PushDecides(AfterPushes(st, batches, i), batches[i]);
  }

  lemma {:induction false} FillAfter(st: Store, batches: seq<seq<SpanRecord>>, n: nat)
    requires InBounds(st) && n <= |batches| && IsEmpty(st) && AllAccepted(st, batches, n)
    ensures |Held(AfterPushes(st, batches, n).queue)| == Fill(Sizes(batches), n)
  {
    hide PushBatch, Held, Sizes, Answer;
    if n > 0 {
      PushOfRun(st, batches, n - 1);
      hide AfterPushes;
      FillAfter(st, batches, n - 1);
    }
  }

  lemma {:induction false} FillGrows(sizes: seq<nat>, m: nat, n: nat)
    requires m <= n <= |sizes|
    ensures Fill(sizes, m) <= Fill(sizes, n) && (m < n && sizes[m] > 0 ==> Fill(sizes, m) < Fill(sizes, n))
  {
    if m < n - 1 {
      FillGrows(sizes, m, n - 1);
    }
  }

  /** Push `i` takes the fill from below half the capacity to half or more. */
  predicate Crosses(sizes: seq<nat>, capacity: nat, i: nat)
    requires i < |sizes|
  {
    Fill(sizes, i) < capacity / 2 <= Fill(sizes, i + 1)
  }

  /**
   From an empty queue, in a run of accepted, non-empty pushes with no drain in between, the pushes that
   decide to wake are exactly the first one and the one that crosses half the capacity.
   */
  lemma WakesOfRun(st: Store, batches: seq<seq<SpanRecord>>, i: nat)
    requires InBounds(st) && IsEmpty(st) && i < |batches| && AllAccepted(st, batches, i + 1)
    ensures Answer(st, batches, i).wake <==> i == 0 || Crosses(Sizes(batches), st.capacity, i)
  {
    hide PushBatch, Held, AfterPushes, Sizes, Answer;
    FillAfter(st, batches, i);
    PushOfRun(st, batches, i);
    FillGrows(Sizes(batches), 0, i);
  }

  /** At most one push of such a run crosses half the capacity. */
  lemma CrossesOnce(sizes: seq<nat>, capacity: nat, i: nat, j: nat)
    requires i < j < |sizes|
    ensures !(Crosses(sizes, capacity, i) && Crosses(sizes, capacity, j))
  {
    FillGrows(sizes, i + 1, j);
  }

  /** In the protocol: after its push a producer owes a wake exactly in those cases, and a drop count if rejected. */
  lemma PushOwes(s: Protocol.State, p: nat)
    requires p < |s.producers| && s.producers[p].PushPending? && InBounds(s.store)
    ensures var spans := s.producers[p].spans;
            var t := Protocol.Next(s, Protocol.Push(p));
            var used, size := |Held(s.store.queue)|, BatchBytes(spans);
            t.producers[p] ==
            if used + size > s.store.capacity then Protocol.DropPending(|Payloads(spans)|)
            else if used == 0 || used < s.store.capacity / 2 <= used + size then Protocol.WakePending
            else Protocol.Idle
  {
    PushDecides(s.store, s.producers[p].spans);
    hide PushBatch, Held, BatchBytes, Payloads;
  }
}
