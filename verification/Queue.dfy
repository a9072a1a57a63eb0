/**
 The byte ring. `Ring` works in place on a byte array with two monotone counters; what it does is
 specified on a `View`, which is either the queued bytes or "the positions are inconsistent".
 The counters are unbounded here; the program relies on a 64-bit byte counter never wrapping.
 */
module Queue {
  import opened Bytes
  import opened Framing
  import opened Wrappers

  datatype RecordTooLarge = RecordTooLarge(len: nat)
  datatype QueueFull = QueueFull(needed: nat, free: nat)

  // ---------------------------------------------------------------------
  // Specification: what the operations do to the queued bytes
  // ---------------------------------------------------------------------

  datatype View = Inconsistent | Queued(bytes: seq<byte>)

  /** The bytes that count as queued: none if the positions are inconsistent. */
  function Held(v: View): seq<byte> {
    if v.Queued? then v.bytes else []
  }

  function PushView(v: View, capacity: nat, batch: seq<byte>): (View, Result<(), QueueFull>)
    requires |Held(v)| <= capacity
  {
    var free := capacity - |Held(v)|;
    if |batch| > free then (Queued(Held(v)), Err(QueueFull(|batch|, free)))
    else (Queued(Held(v) + batch), Ok(()))
  }

  datatype Drained = Drained(view: View, chunk: seq<byte>, result: Result<nat, Corrupted>)

  function DrainView(v: View, maxBytes: nat): Drained {
    if v.Inconsistent? then Drained(Queued([]), [], Err(InconsistentPositions))
    else
      match Measure(v.bytes, 0, 0, maxBytes)
      case Err(e) => Drained(Queued([]), [], Err(e))
      case Ok((taken, records)) => Drained(Queued(v.bytes[taken..]), v.bytes[..taken], Ok(records))
  }

  lemma DrainViewIs(c: seq<byte>, maxBytes: nat)
    ensures var m := Measure(c, 0, 0, maxBytes);
            DrainView(Queued(c), maxBytes) ==
            if m.Ok? then Drained(Queued(c[m.value.0..]), c[..m.value.0], Ok(m.value.1))
            else Drained(Queued([]), [], Err(m.error))
    ensures DrainView(Inconsistent, maxBytes) == Drained(Queued([]), [], Err(InconsistentPositions))
  {
  }

  // ---------------------------------------------------------------------
  // Wrap-around arithmetic
  // ---------------------------------------------------------------------

  /** The position of counter `pos` inside a slice: `pos % capacity`, see `PositionIsRemainder`. */
  function Position(pos: nat, capacity: nat): (r: nat)
    requires 0 < capacity
    ensures r < capacity
  {
    if pos < capacity then pos else Position(pos - capacity, capacity)
  }

  lemma {:induction false} PositionIsRemainder(pos: nat, capacity: nat)
    requires 0 < capacity
    ensures Position(pos, capacity) == pos % capacity
  {
    if pos >= capacity {
      PositionIsRemainder(pos - capacity, capacity);
      RemainderOfShift(pos - capacity, capacity);
    }
  }

  lemma RemainderOfShift(n: nat, d: nat)
    requires 0 < d
    ensures (n + d) % d == n % d
  {
    var q, q' := n / d, (n + d) / d;
    var r, r' := n % d, (n + d) % d;
    assert n == q * d + r && n + d == q' * d + r';
    var k := q' - q - 1;
    assert k * d == q' * d - q * d - d == r - r';
    ProductSign(k, d);
  }

  lemma ProductSign(k: int, d: nat)
    ensures k > 0 ==> k * d >= d
    ensures k < 0 ==> k * d + d <= 0
  {
  }

  /** The slot of the `i`-th byte from counter `lo` on. */
  function Slot(lo: nat, i: nat, capacity: nat): (r: nat)
    requires 0 < capacity
    ensures r < capacity
  {
    Position(lo + i, capacity)
  }

  /** Less than a capacity further on, a slot either follows directly or wraps once. */
  lemma {:induction false} SlotWraps(lo: nat, i: nat, capacity: nat)
    requires i < capacity
    ensures var start := Position(lo, capacity);
            Slot(lo, i, capacity) == if start + i < capacity then start + i else start + i - capacity
  {
    if lo >= capacity {
      SlotWraps(lo - capacity, i, capacity);
      assert Position(lo + i, capacity) == Position(lo - capacity + i, capacity);
    } else if lo + i >= capacity {
      assert Position(lo + i - capacity, capacity) == lo + i - capacity;
    }
  }

  /** The `len` bytes of the ring that start at counter `lo`. */
  function Window(d: seq<byte>, lo: nat, len: nat): (r: seq<byte>)
    requires len <= |d|
    ensures |r| == len
  {
    seq(len, i requires 0 <= i < len => d[Slot(lo, i, |d|)])
  }

  lemma WindowSplit(d: seq<byte>, lo: nat, len: nat, k: nat)
    requires k <= len <= |d|
    ensures Window(d, lo, len)[..k] == Window(d, lo, k)
    ensures Window(d, lo, len)[k..] == Window(d, lo + k, len - k)
  {
    forall i | k <= i < len ensures Window(d, lo, len)[i] == Window(d, lo + k, len - k)[i - k] {
      assert lo + i == lo + k + (i - k);
    }
  }

  lemma WindowFront(d: seq<byte>, lo: nat, len: nat, k: nat, n: nat)
    requires k + n <= len <= |d|
    ensures Window(d, lo, len)[k..][..n] == Window(d, lo + k, n)
  {
    WindowSplit(d, lo, len, k);
    WindowSplit(d, lo + k, len - k, n);
  }

  /** One step of the measurement, in terms of the length prefix it reads. */
  lemma MeasureStep(d: seq<byte>, lo: nat, used: nat, taken: nat, records: nat, maxBytes: nat)
    requires taken <= used <= |d|
    ensures var m := Measure(Window(d, lo, used), taken, records, maxBytes);
            if taken == used then m == Ok((taken, records))
            else if used - taken < LEN_PREFIX_BYTES then m == Err(TruncatedPrefix)
            else
            var len := FromLE(Window(d, lo + taken, LEN_PREFIX_BYTES));
            var size := LEN_PREFIX_BYTES + len;
            m ==
            if len > MAX_RECORD_BYTES || size > used - taken then Err(LengthOutOfRange)
            else if records > 0 && taken + size > maxBytes then Ok((taken, records))
            else Measure(Window(d, lo, used), taken + size, records + 1, maxBytes)
  {
    if taken + LEN_PREFIX_BYTES <= used {
      WindowFront(d, lo, used, taken, LEN_PREFIX_BYTES);
    }
  }

  /** `d'` is `d` with `src` written from counter `pos` on. */
  ghost predicate Wrote(d: seq<byte>, d': seq<byte>, pos: nat, src: seq<byte>) {
    && |d'| == |d| && |src| <= |d|
    && (forall i :: 0 <= i < |src| ==> d'[Slot(pos, i, |d|)] == src[i])
    && (forall s :: 0 <= s < |d| && Untouched(s, pos, |src|, |d|) ==> d'[s] == d[s])
  }

  ghost predicate Untouched(s: nat, pos: nat, len: nat, capacity: nat)
    requires 0 < capacity
  {
    forall i :: 0 <= i < len ==> s != Slot(pos, i, capacity)
  }

  /** Writing a batch behind the queued bytes extends the window and leaves the queued bytes alone. */
  lemma WindowAfterWrite(d: seq<byte>, d': seq<byte>, lo: nat, used: nat, src: seq<byte>)
    requires used + |src| <= |d| && Wrote(d, d', lo + used, src)
    ensures Window(d', lo, used + |src|) == Window(d, lo, used) + src
  {
    var next := lo + used;
    forall k | 0 <= k < used ensures Window(d', lo, used + |src|)[k] == Window(d, lo, used)[k] {
      forall i | 0 <= i < |src| ensures Slot(lo, k, |d|) != Slot(next, i, |d|) {
        SlotWraps(lo, k, |d|);
        SlotWraps(lo, used + i, |d|);
        assert lo + (used + i) == next + i;
      }
      assert Untouched(Slot(lo, k, |d|), next, |src|, |d|);
    }
    var w := Window(d', lo, used + |src|);
    WindowSplit(d', lo, used + |src|, used);
    assert w == w[..used] + w[used..];
    assert Window(d', lo + used, |src|) == src;
  }

  // ---------------------------------------------------------------------
  // The growable byte vector, the batch and the ring
  // ---------------------------------------------------------------------

  /** `Vec<u8>`. */
  class ByteVec {
    var bytes: seq<byte>

    constructor ()
      ensures bytes == []
    {
      bytes := [];
    }

    method Clear()
      modifies this
      ensures bytes == []
    {
      bytes := [];
    }
  }

  /** Records prepared for a single all-or-nothing push. */
  class Batch {
    var bytes: seq<byte>
    var records: nat
    ghost var payloads: seq<Payload>

    ghost predicate Valid()
      reads this
    {
      bytes == Frames(payloads) && records == |payloads|
    }

    constructor ()
      ensures Valid() && payloads == []
    {
      bytes, records, payloads := [], 0, [];
    }

    /** `written` is what the caller's closure appends to the vector. */
    method PushRecord(written: seq<byte>) returns (r: Result<(), RecordTooLarge>)
      requires Valid()
      modifies this
      ensures Valid()
      ensures |written| <= 65536 ==> r == Ok(()) && payloads == old(payloads) + [written]
      ensures |written| > 65536 ==>
                r == Err(RecordTooLarge(|written|)) && payloads == old(payloads) && bytes == old(bytes)
    {
      var start := |bytes|;
      bytes := bytes + [0, 0, 0, 0];
      bytes := bytes + written;
      var len := |bytes| - start - LEN_PREFIX_BYTES;
      if len > MAX_RECORD_BYTES {
        bytes := bytes[..start];
        return Err(RecordTooLarge(len));
      }
      var prefix := ToLE(len, LEN_PREFIX_BYTES);
      bytes := bytes[..start] + prefix + bytes[start + LEN_PREFIX_BYTES..];
      records := records + 1;
      FramesSnoc(payloads, written);
      payloads := payloads + [written];
      return Ok(());
    }

    predicate IsEmpty()
      reads this
    {
      records == 0
    }
  }

  class Ring {
    var head: nat
    var tail: nat
    const data: array<byte>

    constructor (data: array<byte>)
      ensures this.data == data && View() == Queued([])
    {
      head, tail := 0, 0;
      this.data := data;
    }

    predicate IsConsistent()
      reads this
    {
      tail >= head && tail - head <= data.Length
    }

    /** The abstract state: a function of the counters and the slots they delimit. */
    ghost function View(): (v: View)
      reads this, data
      ensures |Held(v)| <= data.Length
      ensures v.Queued? <==> IsConsistent()
    {
      if IsConsistent() then Queued(Window(data[..], head, tail - head)) else Inconsistent
    }

    function Used(): (n: nat)
      reads this, data
      ensures n == |Held(View())| <= data.Length
    {
      if IsConsistent() then tail - head else 0
    }

    method Reset()
      modifies this
      ensures head == tail == 0
    {
      head, tail := 0, 0;
    }

    method PushBatch(batch: Batch) returns (r: Result<(), QueueFull>)
      modifies this, data
      ensures (View(), r) == PushView(old(View()), data.Length, batch.bytes)
    {
      if !IsConsistent() {
        Reset();
      }
      var needed := |batch.bytes|;
      var free := data.Length - Used();
      if needed > free {
        return Err(QueueFull(needed, free));
      }
      ghost var before := data[..];
      CopyIn(tail, batch.bytes);
      WindowAfterWrite(before, data[..], head, tail - head, batch.bytes);
      tail := tail + needed;
      return Ok(());
    }

    /** Writes `src` at counter `pos`: up to the end of the slice, then from its start. */
    method CopyIn(pos: nat, src: seq<byte>)
      requires |src| <= data.Length
      modifies data
      ensures Wrote(old(data[..]), data[..], pos, src)
    {
      if src == [] {
        return;
      }
      var capacity := data.Length;
      var start := pos % capacity;
      PositionIsRemainder(pos, capacity);
      var first := if |src| < capacity - start then |src| else capacity - start;
      forall i | 0 <= i < first {
        data[start + i] := src[i];
      }
      forall i | 0 <= i < |src| - first {
        data[i] := src[first + i];
      }
      forall i | 0 <= i < |src| ensures data[Slot(pos, i, capacity)] == src[i] {
        SlotWraps(pos, i, capacity);
        if i >= first {
          assert data[i - first] == src[first + (i - first)];
        } else {
          assert data[start + i] == src[i];
        }
      }
      forall s | 0 <= s < capacity && Untouched(s, pos, |src|, capacity) ensures data[s] == old(data[s]) {
        if start <= s < start + first {
          SlotWraps(pos, s - start, capacity);
        } else if s < |src| - first {
          SlotWraps(pos, s + first, capacity);
        }
      }
    }

    method DrainInto(out: ByteVec, maxBytes: nat) returns (r: Result<nat, Corrupted>)
      requires out as object != this && out as object != data
      modifies this, out
      ensures View() == DrainView(old(View()), maxBytes).view
      ensures out.bytes == old(out.bytes) + DrainView(old(View()), maxBytes).chunk
      ensures r == DrainView(old(View()), maxBytes).result
    {
      hide Measure, Window, DrainView;
      DrainViewIs(Held(View()), maxBytes);
      if !IsConsistent() {
        Reset();
        return Err(InconsistentPositions);
      }
      ghost var d, lo, used := data[..], head, tail - head;
      ghost var c := Window(d, lo, used);
      var m := MeasureDrain(maxBytes);
      match m {
        case Ok((bytes, records)) =>
          WindowSplit(d, lo, used, bytes);
          CopyOut(head, bytes, out);
          head := head + bytes;
          assert data[..] == d && View() == Queued(c[bytes..]);
          return Ok(records);
        case Err(corrupted) =>
          head := tail;
          assert View() == Queued([]);
          return Err(corrupted);
      }
    }

    method MeasureDrain(maxBytes: nat) returns (r: Result<(nat, nat), Corrupted>)
      requires IsConsistent()
      ensures r == Measure(View().bytes, 0, 0, maxBytes)
    {
      hide Measure, Window, FromLE;
      var available := Used();
      ghost var d := data[..];
      ghost var c := Window(d, head, available);
      ghost var target := Measure(c, 0, 0, maxBytes);
      var taken, records := 0, 0;
      while taken < available
        invariant taken <= available
        invariant data[..] == d
        invariant Measure(c, taken, records, maxBytes) == target
      {
        MeasureStep(d, head, available, taken, records, maxBytes);
        var remaining := available - taken;
        if remaining < LEN_PREFIX_BYTES {
          return Err(TruncatedPrefix);
        }
        var len := ReadLen(head + taken);
        if len > MAX_RECORD_BYTES || LEN_PREFIX_BYTES + len > remaining {
          return Err(LengthOutOfRange);
        }
        var size := LEN_PREFIX_BYTES + len;
        if records > 0 && taken + size > maxBytes {
          break;
        }
        taken := taken + size;
        records := records + 1;
      }
      MeasureStep(d, head, available, taken, records, maxBytes);
      return Ok((taken, records));
    }

    method ReadLen(pos: nat) returns (len: nat)
      requires LEN_PREFIX_BYTES <= data.Length
      ensures len == FromLE(Window(data[..], pos, LEN_PREFIX_BYTES))
    {
      var prefix := new byte[LEN_PREFIX_BYTES](_ => 0);
      CopyOutSlice(pos, prefix);
      len := FromLE(prefix[..]);
    }

    method CopyOut(pos: nat, len: nat, out: ByteVec)
      requires len <= data.Length && out as object != data
      modifies out
      ensures out.bytes == old(out.bytes) + Window(data[..], pos, len)
    {
      // The zero-filled tail that the vector grows by is the destination slice.
      var grown := new byte[len](_ => 0);
      CopyOutSlice(pos, grown);
      out.bytes := out.bytes + grown[..];
    }

    /** Reads `dst.Length` bytes at counter `pos`: up to the end of the slice, then from its start. */
    method CopyOutSlice(pos: nat, dst: array<byte>)
      requires dst != data && dst.Length <= data.Length
      modifies dst
      ensures dst[..] == Window(data[..], pos, dst.Length)
    {
      if dst.Length == 0 {
        return;
      }
      var capacity := data.Length;
      var start := pos % capacity;
      PositionIsRemainder(pos, capacity);
      var first := if dst.Length < capacity - start then dst.Length else capacity - start;
      forall i | 0 <= i < first {
        dst[i] := data[start + i];
      }
      var rest := dst.Length - first;
      forall i | 0 <= i < rest {
        dst[first + i] := data[i];
      }
      forall i | 0 <= i < dst.Length ensures dst[i] == data[Slot(pos, i, capacity)] {
        SlotWraps(pos, i, capacity);
        if i >= first {
          assert dst[first + (i - first)] == data[i - first];
        }
      }
    }
  }

  /** The iterator over the payloads of a drained byte stream. */
  class Records {
    var rest: seq<byte>

    constructor (bytes: seq<byte>)
      ensures rest == bytes
    {
      rest := bytes;
    }

    method Next() returns (item: Option<Result<Payload, Corrupted>>)
      modifies this
      ensures item.None? <==> Items(old(rest)) == []
      ensures item.None? ==> rest == old(rest)
      ensures item.Some? ==> Items(old(rest)) == [item.value] + Items(rest) && |rest| < |old(rest)|
    {
      if rest == [] {
        return None;
      }
      var split := SplitRecord(rest);
      match split {
        case Ok((payload, remaining)) =>
          SplitIsFrame(rest);
          rest := remaining;
          return Some(Ok(payload));
        case Err(e) =>
          rest := [];
          return Some(Err(e));
      }
    }
  }

  /** Whether a producer should wake the consumer after a push. */
  predicate ShouldWake(usedBefore: nat, usedAfter: nat, capacity: nat) {
    var half := capacity / 2;
    usedBefore == 0 || (usedBefore < half && usedAfter >= half)
  }
}
