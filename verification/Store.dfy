/**
 What lies in shared memory and what has passed through it: the queued bytes, the chunks the worker
 drained, and the batches that were accepted. The critical sections of `publish` and `take_chunk`.
 */
module Store {
  import opened Bytes
  import opened Delivery
  import opened Fifo
  import opened Framing
  import opened Queue
  import opened Span
  import opened Wrappers

  datatype Store = Store(
    capacity: nat,
    queue: View,
    chunks: seq<seq<byte>>,          // byte streams drained so far
    accepted: seq<seq<SpanRecord>>,  // batches pushed so far, in the order of taking the lock
    fifo: seq<Payload>,              // a first-in first-out queue of payloads run alongside,
    given: seq<seq<Payload>>)        // and what it gave for each chunk

  function Empty(capacity: nat): Store {
    Store(capacity, Queued([]), [], [], [], [])
  }

  predicate InBounds(st: Store) { |Held(st.queue)| <= st.capacity }

  predicate IsEmpty(st: Store) { Held(st.queue) == [] }

  datatype Pushed = Rejected | Accepted(wake: bool)

  /** Push the batch and decide, still under the lock, whether to wake the worker. */
  function PushBatch(st: Store, spans: seq<SpanRecord>): (Store, Pushed)
    requires InBounds(st)
  {
    var usedBefore := |Held(st.queue)|;
    var (queue, r) := PushView(st.queue, st.capacity, Frames(Payloads(spans)));
    if r.Err? then (st.(queue := queue), Rejected)
    else (st.(queue := queue, accepted := st.accepted + [spans], fifo := st.fifo + Payloads(spans)),
          Accepted(ShouldWake(usedBefore, |Held(queue)|, st.capacity)))
  }

  /** Drain a chunk and decode it; the flag says that it held no span, so the queue counts as empty. */
  function TakeChunk(st: Store, maxBytes: nat): (Store, bool) {
    var d := DrainView(st.queue, maxBytes);
    var k := Take(st.fifo, 0, maxBytes);
    (st.(queue := d.view, chunks := st.chunks + [d.chunk], fifo := st.fifo[k..], given := st.given + [st.fifo[..k]]),
     d.result.Err? || DecodedSpans(Items(d.chunk)) == [])
  }

  // ---------------------------------------------------------------------
  // The invariant
  // ---------------------------------------------------------------------

  /** The bytes of the queue and of every drained chunk are whole records, as the FIFO has them. */
  ghost predicate Uncorrupted(st: Store) {
    && st.queue == Queued(Frames(st.fifo)) && |Frames(st.fifo)| <= st.capacity
    && WholeRecords(st.given, st.chunks)
  }

  /** What was drained, then what is queued, is what the accepted batches were encoded to, in lock order. */
  ghost predicate InOrder(st: Store) {
    Flatten(st.given) + st.fifo == Payloads(Flatten(st.accepted))
  }

  ghost predicate Consistent(st: Store) { Uncorrupted(st) && InOrder(st) }

  /** Spans drained or queued. */
  function SpanCount(st: Store): nat { |Flatten(st.given)| + |st.fifo| }

  lemma WholeRecordsExtend(given: seq<seq<Payload>>, chunks: seq<seq<byte>>, more: seq<Payload>)
    requires WholeRecords(given, chunks)
    ensures WholeRecords(given + [more], chunks + [Frames(more)])
  {
  }

  /** A batch goes to the end of the queue as a whole, or nowhere; a push onto an empty queue decides to wake. */
  lemma PushKeepsConsistent(st: Store, spans: seq<SpanRecord>)
    requires Consistent(st)
    ensures var (st', r) := PushBatch(st, spans);
            && Consistent(st')
            && SpanCount(st') == SpanCount(st) + (if r.Rejected? then 0 else |Payloads(spans)|)
            && (r.Rejected? ==> st' == st)
            && (r.Accepted? && IsEmpty(st) ==> r.wake)
  {
    var batch := Payloads(spans);
    PushRefines(st.fifo, st.capacity, batch);
    StaysInOrderIn(PayloadOf, st.given, st.fifo, st.accepted, spans);
  }

  /** A chunk of whole records comes off the front of the queue. */
  lemma TakeKeepsConsistent(st: Store, maxBytes: nat)
    requires Consistent(st)
    ensures var st' := TakeChunk(st, maxBytes).0; Consistent(st') && SpanCount(st') == SpanCount(st)
  {
    var k := Take(st.fifo, 0, maxBytes);
    DrainRefines(st.fifo, maxBytes);
    StaysInOrderOut(st.given, st.fifo, k);
    WholeRecordsExtend(st.given, st.chunks, st.fifo[..k]);
  }

  /** Decoding what was drained and what is queued gives the accepted spans; everything decodes. */
  lemma AllDecodes(drained: seq<Payload>, queued: seq<Payload>, spans: seq<SpanRecord>)
    requires drained + queued == Payloads(spans)
    ensures DecodedSpans(AllOk(drained)) + DecodedSpans(AllOk(queued)) == Kept(spans)
    ensures Undecodable(AllOk(drained)) == 0 && Undecodable(AllOk(queued)) == 0
  {
    PayloadsDecode(spans);
    assert AllOk(drained + queued) == AllOk(drained) + AllOk(queued);
    FilterMapConcat(Decoded, AllOk(drained), AllOk(queued));
    FilterMapLength(Decoded, AllOk(drained));
    FilterMapLength(Decoded, AllOk(queued));
  }

  /** The worker takes the queue for empty exactly if it is. */
  lemma NoSpansIffEmpty(st: Store, maxBytes: nat)
    requires Consistent(st)
    ensures var (st', empty) := TakeChunk(st, maxBytes);
            (empty <==> IsEmpty(st)) && (empty ==> IsEmpty(st'))
  {
    var q := st.fifo;
    var k := Take(q, 0, maxBytes);
    DrainRefines(q, maxBytes);
    AllDecodes(Flatten(st.given), q, Flatten(st.accepted));
    AllDecodesPrefix(q, k);
    if q != [] {
      assert Acceptable(q, maxBytes, 1);
    }
  }

  lemma AllDecodesPrefix(q: seq<Payload>, k: nat)
    requires k <= |q| && Undecodable(AllOk(q)) == 0
    ensures |DecodedSpans(AllOk(q[..k]))| == k
  {
    assert AllOk(q) == AllOk(q[..k]) + AllOk(q[k..]);
    FilterMapConcat(Decoded, AllOk(q[..k]), AllOk(q[k..]));
    FilterMapLength(Decoded, AllOk(q[..k]));
    FilterMapLength(Decoded, AllOk(q[k..]));
  }

  /**
   End-to-end delivery: in a consistent store nothing drained was undecodable, and the spans
   received so far, followed by the spans still queued, are exactly the non-skipped spans of the
   accepted batches, in order, with clamped times.
   */
  lemma Delivered(st: Store)
    requires Consistent(st)
    ensures Lost(st.chunks) == 0 && Undecodable(Items(Held(st.queue))) == 0
    ensures Received(st.chunks) + DecodedSpans(Items(Held(st.queue))) == Kept(Flatten(st.accepted))
    ensures |Received(st.chunks)| + |DecodedSpans(Items(Held(st.queue)))| == SpanCount(st)
  {
    AllDecodes(Flatten(st.given), st.fifo, Flatten(st.accepted));
    CutsDoNotMatter(st.given, st.chunks);
    ItemsOfFrames(st.fifo);
  }

  /** A drain of a consistent store succeeds. */
  lemma NeverCorrupted(st: Store, maxBytes: nat)
    requires Consistent(st)
    ensures DrainView(st.queue, maxBytes).result.Ok?
  {
    DrainRefines(st.fifo, maxBytes);
  }
}
