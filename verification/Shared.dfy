/**
 The shared header and the worker's drain loop as they run in one process: `publish` with its drop
 counter and wake-up, `take_chunk`, and `drain_queue`. Module `Protocol` interleaves the same steps.
 */
module Shared {
  import opened Delivery
  import opened Fifo
  import opened Framing
  import opened Queue
  import opened Span
  import opened Wrappers

  const NO_WORKER: int := -1

  /** The `Published` answer of `publish`. */
  datatype Published = WasQueued | WasDropped

  class Header {
    const ring: Ring
    const processes: Option<nat>   // how many process slots there are, once they exist
    var droppedSpans: nat
    var workerProcNumber: int
    var workerLatch: bool          // the latch of the process that `workerProcNumber` names

    constructor (ring: Ring, processes: Option<nat>)
      ensures this.ring == ring && this.processes == processes
      ensures droppedSpans == 0 && workerProcNumber == NO_WORKER && !workerLatch
    {
      this.ring := ring;
      this.processes := processes;
      droppedSpans, workerProcNumber, workerLatch := 0, NO_WORKER, false;
    }

    method CountDropped(spans: nat)
      modifies this`droppedSpans
      ensures droppedSpans == old(droppedSpans) + spans
    {
      if spans > 0 {
        droppedSpans := droppedSpans + spans;
      }
    }

    method RegisterWorker(procNumber: nat)
      modifies this`workerProcNumber
      ensures workerProcNumber == procNumber
    {
      workerProcNumber := procNumber;
    }

    /** The header names a slot of the process table. */
    predicate NamesProcess()
      reads this
    {
      processes.Some? && 0 <= workerProcNumber < processes.value
    }

    method WakeWorker()
      modifies this`workerLatch
      ensures workerLatch == (old(workerLatch) || NamesProcess())
    {
      var procNumber := workerProcNumber;
      if procNumber < 0 || processes.None? || procNumber >= processes.value {
        return;
      }
      workerLatch := true;
    }

    /** Queues the batch as a whole or drops it and counts it; wakes the worker when that is useful. */
    method Publish(batch: Batch, skipped: nat) returns (r: Published)
      requires batch.Valid() && batch as object != this && batch as object != ring
      modifies this`droppedSpans, this`workerLatch, ring, ring.data
      ensures var before := old(ring.View());
              var (after, pushed) := PushView(before, ring.data.Length, batch.bytes);
              if batch.payloads == [] then
                r == WasQueued && ring.View() == before && droppedSpans == old(droppedSpans) + skipped
                && workerLatch == old(workerLatch)
              else
                && ring.View() == after
                && (r == WasQueued <==> pushed.Ok?)
                && droppedSpans == old(droppedSpans) + skipped + (if pushed.Ok? then 0 else |batch.payloads|)
                && workerLatch == (old(workerLatch) || (NamesProcess() && pushed.Ok?
                                   && (|Held(before)| == 0
                                       || |Held(before)| < ring.data.Length / 2 <= |Held(after)|)))
    {
      CountDropped(skipped);
      if batch.IsEmpty() {
        return WasQueued;
      }
      var usedBefore := ring.Used();
      var pushed := ring.PushBatch(batch);
      if pushed.Ok? {
        var wake := ShouldWake(usedBefore, ring.Used(), ring.data.Length);
        if wake {
          WakeWorker();
        }
        return WasQueued;
      }
      CountDropped(batch.records);
      return WasDropped;
    }
  }

  // ---------------------------------------------------------------------
  // The consumer
  // ---------------------------------------------------------------------

  datatype Drained = Empty | Interrupted

  /** The queue after `n` drains of at most `maxBytes`. */
  function AfterDrains(v: View, n: nat, maxBytes: nat): View {
    if n == 0 then v else DrainView(AfterDrains(v, n - 1, maxBytes), maxBytes).view
  }

  /** The spans in the chunk of drain `n`, counted from 0. */
  function SpansOf(v: View, n: nat, maxBytes: nat): seq<SpanRecord> {
    DecodedSpans(Items(DrainView(AfterDrains(v, n, maxBytes), maxBytes).chunk))
  }

  /** The spans of the first `n` drains. */
  function SpansOfFirst(v: View, n: nat, maxBytes: nat): seq<SpanRecord> {
    if n == 0 then [] else SpansOfFirst(v, n - 1, maxBytes) + SpansOf(v, n - 1, maxBytes)
  }

  lemma NextDrain(v: View, n: nat, maxBytes: nat)
    ensures var d := DrainView(AfterDrains(v, n, maxBytes), maxBytes);
            && AfterDrains(v, n + 1, maxBytes) == d.view
            && SpansOf(v, n, maxBytes) == DecodedSpans(Items(d.chunk))
            && SpansOfFirst(v, n + 1, maxBytes) == SpansOfFirst(v, n, maxBytes) + SpansOf(v, n, maxBytes)
  {
  }

  lemma NoDrain(v: View, maxBytes: nat)
    ensures AfterDrains(v, 0, maxBytes) == v && SpansOfFirst(v, 0, maxBytes) == []
  {
  }

  /** A drain that hands over a span leaves less queued. */
  lemma DrainShrinks(v: View, maxBytes: nat)
    ensures var d := DrainView(v, maxBytes);
            |Held(d.view)| <= |Held(v)| && (DecodedSpans(Items(d.chunk)) != [] ==> |Held(d.view)| < |Held(v)|)
  {
    var ps := DrainOfAnything(v, maxBytes);
  }

  class Exporter {
    var exported: seq<SpanRecord>
    var buffer: ByteVec

    constructor ()
      ensures exported == [] && fresh(buffer)
    {
      exported := [];
      buffer := new ByteVec();
    }

    /** Copies the next chunk out of the queue and decodes it; nothing on corruption. */
    method TakeChunk(ring: Ring, maxBytes: nat) returns (spans: seq<SpanRecord>)
      requires buffer as object != ring && buffer as object != ring.data
      modifies buffer, ring
      ensures ring.View() == DrainView(old(ring.View()), maxBytes).view
      ensures spans == DecodedSpans(Items(DrainView(old(ring.View()), maxBytes).chunk))
    {
      ghost var drained := DrainView(ring.View(), maxBytes);
      EmptyChunk(ring.View(), maxBytes);
      hide DrainView, Items, DecodedSpans, Undecodable;
      buffer.Clear();
      var taken := ring.DrainInto(buffer, maxBytes);
      assert buffer.bytes == drained.chunk;
      match taken {
        case Err(_) => spans := [];
        case Ok(records) =>
          if records == 0 {
            spans := [];
          } else {
            var undecodable;
            spans, undecodable := DecodeRecords(buffer.bytes);
          }
      }
    }

    /**
     Takes chunks and exports them until one holds no span or `interrupted` says to stop; the answer of
     the `n`-th check is `interrupted(n)`. Whatever the queue holds, the loop terminates, and the spans of
     the first `checks` chunks, none of them empty, are exported; `Empty` means that one more chunk was
     taken and held no span.
     */
    method DrainQueue(ring: Ring, chunkBytes: nat, interrupted: nat -> bool, ghost v: View)
      returns (r: Drained, checks: nat)
      requires buffer as object != ring && buffer as object != ring.data && ring as object != this && buffer as object != this
      requires v == ring.View()
      modifies this`exported, buffer, ring
      ensures exported == old(exported) + SpansOfFirst(v, checks, chunkBytes)
      ensures forall n :: 0 <= n < checks ==> !interrupted(n) && SpansOf(v, n, chunkBytes) != []
      ensures r == Interrupted <==> interrupted(checks)
      ensures r == Interrupted ==> ring.View() == AfterDrains(v, checks, chunkBytes)
      ensures r == Empty ==> SpansOf(v, checks, chunkBytes) == []
      ensures r == Empty ==> ring.View() == AfterDrains(v, checks + 1, chunkBytes)
    {
      hide *;
      checks := 0;
      NoDrain(v, chunkBytes);
      assert exported + [] == exported;
      while true
        invariant buffer == old(buffer)
        invariant ring.View() == AfterDrains(v, checks, chunkBytes)
        invariant exported == old(exported) + SpansOfFirst(v, checks, chunkBytes)
        invariant forall n :: 0 <= n < checks ==> !interrupted(n) && SpansOf(v, n, chunkBytes) != []
        decreases |Held(ring.View())|
      {
        if interrupted(checks) {
          return Interrupted, checks;
        }
        DrainShrinks(ring.View(), chunkBytes);
        NextDrain(v, checks, chunkBytes);
        var spans := TakeChunk(ring, chunkBytes);
        if spans == [] {
          return Empty, checks;
        }
        Assoc(old(exported), SpansOfFirst(v, checks, chunkBytes), spans);
        exported := exported + spans;
        checks := checks + 1;
      }
    }
  }

  /**
   Of a queue of whole records the first `n` chunks hold exactly the first `taken` of them; and if all
   records decode, the next chunk holds no span exactly if none is left.
   */
  lemma {:induction false} DrainsOfRecords(queue: seq<Payload>, n: nat, maxBytes: nat) returns (taken: nat)
    ensures taken <= |queue|
    ensures var v := Queued(Frames(queue));
            && AfterDrains(v, n, maxBytes) == Queued(Frames(queue[taken..]))
            && SpansOfFirst(v, n, maxBytes) == DecodedSpans(AllOk(queue[..taken]))
            && (Undecodable(AllOk(queue)) == 0 ==> (SpansOf(v, n, maxBytes) == [] <==> taken == |queue|))
  {
    hide DrainView, Items, DecodedSpans, Undecodable, Frames, AfterDrains, SpansOf, SpansOfFirst;
    var v := Queued(Frames(queue));
    if n == 0 {
      taken := 0;
      NothingTaken(queue);
      NoDrain(v, maxBytes);
    } else {
      var before := DrainsOfRecords(queue, n - 1, maxBytes);
      var k := ChunkOf(queue, before, maxBytes);
      NextDrain(v, n - 1, maxBytes);
      taken := before + k;
    }
    var next := ChunkOf(queue, taken, maxBytes);
    NextDrain(v, n, maxBytes);
  }

  lemma NothingTaken(queue: seq<Payload>)
    ensures queue[0..] == queue && DecodedSpans(AllOk(queue[..0])) == []
  {
  }

  /** A drain that fails or reports no record hands over no bytes, hence no spans. */
  lemma EmptyChunk(v: View, maxBytes: nat)
    ensures var d := DrainView(v, maxBytes);
            d.result.Err? || d.result.value == 0 ==> DecodedSpans(Items(d.chunk)) == []
  {
    var ps := DrainOfAnything(v, maxBytes);
  }

  /** The chunk that a drain takes off `queue[taken..]`, decoded. */
  lemma ChunkOf(queue: seq<Payload>, taken: nat, maxBytes: nat) returns (k: nat)
    requires taken <= |queue|
    ensures taken + k <= |queue| && (k == 0 <==> taken == |queue|)
    ensures var d := DrainView(Queued(Frames(queue[taken..])), maxBytes);
            var spans := DecodedSpans(Items(d.chunk));
            && d.view == Queued(Frames(queue[taken + k..]))
            && DecodedSpans(AllOk(queue[..taken + k])) == DecodedSpans(AllOk(queue[..taken])) + spans
            && (Undecodable(AllOk(queue)) == 0 ==> (spans == [] <==> taken == |queue|))
  {
    hide DrainView, Items, DecodedSpans, Undecodable, Frames;
    var rest := queue[taken..];
    k := Take(rest, 0, maxBytes);
    DrainRefines(rest, maxBytes);
    assert rest[k..] == queue[taken + k..];
    SplitDecoded(queue, taken, k);
    if rest != [] {
      assert Acceptable(rest, maxBytes, 1);
    }
    if Undecodable(AllOk(queue)) == 0 {
      AllDecode(queue, taken, k);
    }
    NoneDecoded(rest[..k]);
  }

  lemma NoneDecoded(ps: seq<Payload>)
    ensures ps == [] ==> DecodedSpans(AllOk(ps)) == []
  {
  }

  lemma SplitDecoded(queue: seq<Payload>, from: nat, k: nat)
    requires from + k <= |queue|
    ensures DecodedSpans(AllOk(queue[..from + k])) == DecodedSpans(AllOk(queue[..from])) + DecodedSpans(AllOk(queue[from..][..k]))
  {
    assert AllOk(queue[..from + k]) == AllOk(queue[..from]) + AllOk(queue[from..][..k]);
    FilterMapConcat(Decoded, AllOk(queue[..from]), AllOk(queue[from..][..k]));
  }

  lemma AllDecode(queue: seq<Payload>, from: nat, k: nat)
    requires from + k <= |queue| && Undecodable(AllOk(queue)) == 0
    ensures |DecodedSpans(AllOk(queue[from..][..k]))| == k
  {
    var a, b, c := AllOk(queue[..from]), AllOk(queue[from..][..k]), AllOk(queue[from..][k..]);
    assert AllOk(queue) == a + (b + c);
    FilterMapConcat(Decoded, a, b + c);
    FilterMapConcat(Decoded, b, c);
    FilterMapLength(Decoded, a);
    FilterMapLength(Decoded, b);
    FilterMapLength(Decoded, c);
  }
}
