/** The record format of the queue: length-prefixed payloads, stored back to back. */
module Framing {
  import opened Bytes
  import opened Wrappers

  const LEN_PREFIX_BYTES: nat := 4
  const MAX_RECORD_BYTES: nat := 64 * 1024

  datatype Corrupted = InconsistentPositions | TruncatedPrefix | LengthOutOfRange

  type Payload = p: seq<byte> | |p| <= MAX_RECORD_BYTES witness []

  function Frame(p: Payload): (r: seq<byte>)
    ensures |r| == LEN_PREFIX_BYTES + |p|
  {
    ToLE(|p|, LEN_PREFIX_BYTES) + p
  }

  function Frames(ps: seq<Payload>): seq<byte> {
    if ps == [] then [] else Frame(ps[0]) + Frames(ps[1..])
  }

  /** Cuts the first record off a byte stream. */
  function SplitRecord(bytes: seq<byte>): Result<(Payload, seq<byte>), Corrupted> {
    if |bytes| < LEN_PREFIX_BYTES then Err(TruncatedPrefix)
    else
      var len := FromLE(bytes[..LEN_PREFIX_BYTES]);
      var body := bytes[LEN_PREFIX_BYTES..];
      if len > MAX_RECORD_BYTES || len > |body| then Err(LengthOutOfRange)
      else Ok((body[..len], body[len..]))
  }

  /** What iterating over the records of a byte stream yields: it ends at the first bad prefix. */
  function Items(bytes: seq<byte>): seq<Result<Payload, Corrupted>>
    decreases |bytes|
  {
    if bytes == [] then []
    else
      match SplitRecord(bytes)
      case Ok((payload, rest)) => [Ok(payload)] + Items(rest)
      case Err(e) => [Err(e)]
  }

  function AllOk(ps: seq<Payload>): (r: seq<Result<Payload, Corrupted>>)
    ensures |r| == |ps| && forall i :: 0 <= i < |ps| ==> r[i] == Ok(ps[i])
  {
    seq(|ps|, i requires 0 <= i < |ps| => Ok(ps[i]))
  }

  /** A frame is four bytes of length, the least significant one first, and the payload. */
  lemma FrameLayout(p: Payload)
    ensures |Frame(p)| == 4 + |p| && Frame(p)[4..] == p
    ensures Frame(p)[0] == |p| % 256 && Frame(p)[1] == |p| / 256 % 256
    ensures Frame(p)[2] == |p| / 65536 % 256 && Frame(p)[3] == |p| / 16777216 % 256
  {
    LEByte(|p|, 4, 0);
    LEByte(|p|, 4, 1);
    LEByte(|p|, 4, 2);
    LEByte(|p|, 4, 3);
    assert Pow256(1) == 256 && Pow256(2) == 65536 && Pow256(3) == 16777216;
    hide ToLE;
  }

  /** A frame in front of anything splits off as its payload... */
  lemma SplitOfFrame(p: Payload, rest: seq<byte>)
    ensures SplitRecord(Frame(p) + rest) == Ok((p, rest))
  {
    Pow256Values();
    FromLEOfToLE(|p|, LEN_PREFIX_BYTES);
    hide ToLE, FromLE, Pow256;
    Assoc(ToLE(|p|, LEN_PREFIX_BYTES), p, rest);
    Cut(ToLE(|p|, LEN_PREFIX_BYTES), p + rest);
    Cut(p, rest);
  }

  /** ...and whatever splits off was a frame. */
  lemma SplitIsFrame(bytes: seq<byte>)
    requires SplitRecord(bytes).Ok?
    ensures bytes == Frame(SplitRecord(bytes).value.0) + SplitRecord(bytes).value.1
  {
    hide ToLE, FromLE;
    ToLEOfFromLE(bytes[..LEN_PREFIX_BYTES]);
    assert bytes == bytes[..LEN_PREFIX_BYTES] + bytes[LEN_PREFIX_BYTES..];
  }

  lemma {:induction false} FramesConcat(a: seq<Payload>, b: seq<Payload>)
    ensures Frames(a + b) == Frames(a) + Frames(b)
  {
    if a == [] {
      assert a + b == b;
    } else {
      FramesConcat(a[1..], b);
      assert (a + b)[0] == a[0] && (a + b)[1..] == a[1..] + b;
    }
  }

  lemma FramesSnoc(ps: seq<Payload>, p: Payload)
    ensures Frames(ps + [p]) == Frames(ps) + Frame(p)
  {
    FramesConcat(ps, [p]);
    assert Frames([p]) == Frame(p) + Frames([]);
  }

  lemma {:induction false} ItemsOfFrames(ps: seq<Payload>)
    ensures Items(Frames(ps)) == AllOk(ps)
  {
    if ps != [] {
      SplitOfFrame(ps[0], Frames(ps[1..]));
      ItemsOfFrames(ps[1..]);
      assert AllOk(ps) == [Ok(ps[0])] + AllOk(ps[1..]);
    }
  }

  /** A record stream determines its payloads. */
  lemma FramesInjective(a: seq<Payload>, b: seq<Payload>)
    requires Frames(a) == Frames(b)
    ensures a == b
  {
    ItemsOfFrames(a);
    ItemsOfFrames(b);
    assert |a| == |b|;
    forall i | 0 <= i < |a| ensures a[i] == b[i] {
      assert AllOk(a)[i] == Ok(a[i]) && AllOk(b)[i] == Ok(b[i]);
    }
  }

  // ---------------------------------------------------------------------
  // How much a bounded drain takes
  // ---------------------------------------------------------------------

  /** Walks the length prefixes of `c` from offset `taken`, `records` records in. */
  function Measure(c: seq<byte>, taken: nat, records: nat, maxBytes: nat): (m: Result<(nat, nat), Corrupted>)
    requires taken <= |c|
    ensures m.Ok? ==> taken <= m.value.0 <= |c| && records <= m.value.1
    ensures m.Ok? && taken < |c| && records == 0 ==> m.value.1 > 0
    decreases |c| - taken
  {
    if taken == |c| then Ok((taken, records))
    else
      match SplitRecord(c[taken..])
      case Err(e) => Err(e)
      case Ok((payload, _)) =>
        var size := LEN_PREFIX_BYTES + |payload|;
        if records > 0 && taken + size > maxBytes then Ok((taken, records))
        else Measure(c, taken + size, records + 1, maxBytes)
  }

  /** `k` records are an acceptable drain: within budget, or at most a single record. */
  predicate Acceptable(ps: seq<Payload>, maxBytes: nat, k: nat) {
    k <= |ps| && (k <= 1 || |Frames(ps[..k])| <= maxBytes)
  }

  /** `k` is the longest acceptable drain of the queued payloads `ps`. */
  ghost predicate LongestDrain(ps: seq<Payload>, maxBytes: nat, k: nat) {
    && Acceptable(ps, maxBytes, k)
    && forall j: nat :: Acceptable(ps, maxBytes, j) ==> j <= k
  }

  lemma FramesMonotone(ps: seq<Payload>, i: nat, j: nat)
    requires i <= j <= |ps|
    ensures |Frames(ps[..i])| <= |Frames(ps[..j])|
    ensures i < j ==> |Frames(ps[..i])| < |Frames(ps[..j])|
  {
    assert ps[..j] == ps[..i] + ps[i..j];
    FramesConcat(ps[..i], ps[i..j]);
  }

  /** The number of records a drain takes: the first `k` at which one more would not be acceptable. */
  function Take(ps: seq<Payload>, k: nat, maxBytes: nat): (r: nat)
    requires k <= |ps|
    ensures k <= r <= |ps|
    decreases |ps| - k
  {
    if k < |ps| && Acceptable(ps, maxBytes, k + 1) then Take(ps, k + 1, maxBytes) else k
  }

  lemma {:induction false} TakeIsLongest(ps: seq<Payload>, k: nat, maxBytes: nat)
    requires Acceptable(ps, maxBytes, k)
    ensures LongestDrain(ps, maxBytes, Take(ps, k, maxBytes))
    decreases |ps| - k
  {
    if k < |ps| && Acceptable(ps, maxBytes, k + 1) {
      TakeIsLongest(ps, k + 1, maxBytes);
    } else {
      forall j: nat | Acceptable(ps, maxBytes, j) ensures j <= k {
        if k < j {
          FramesMonotone(ps, k + 1, j);
        }
      }
    }
  }

  /** Measuring a stream of whole records takes exactly the longest acceptable prefix of them. */
  lemma {:induction false} MeasureOfFrames(ps: seq<Payload>, k: nat, maxBytes: nat)
    requires k <= |ps|
    ensures |Frames(ps[..k])| <= |Frames(ps)|
    ensures var r := Take(ps, k, maxBytes);
            Measure(Frames(ps), |Frames(ps[..k])|, k, maxBytes) == Ok((|Frames(ps[..r])|, r))
    decreases |ps| - k
  {
    hide Frame, SplitRecord;
    assert ps == ps[..k] + ps[k..];
    FramesConcat(ps[..k], ps[k..]);
    var c, taken := Frames(ps), |Frames(ps[..k])|;
    if k < |ps| {
      assert c[taken..] == Frames(ps[k..]) == Frame(ps[k]) + Frames(ps[k + 1..]);
      SplitOfFrame(ps[k], Frames(ps[k + 1..]));
      assert ps[..k + 1] == ps[..k] + [ps[k]];
      FramesSnoc(ps[..k], ps[k]);
      MeasureOfFrames(ps, k + 1, maxBytes);
    }
  }

  /** On arbitrary bytes: a measured prefix is a stream of exactly the reported number of records. */
  lemma {:induction false} MeasuredPrefixIsFrames(c: seq<byte>, done: seq<Payload>, maxBytes: nat) returns (ps: seq<Payload>)
    requires |Frames(done)| <= |c| && c[..|Frames(done)|] == Frames(done)
    requires Measure(c, |Frames(done)|, |done|, maxBytes).Ok?
    ensures var (taken, records) := Measure(c, |Frames(done)|, |done|, maxBytes).value;
            taken <= |c| && records == |ps| && c[..taken] == Frames(ps)
    decreases |c| - |Frames(done)|
  {
    hide Frame, FromLE;
    ps := done;
    var taken := |Frames(done)|;
    if taken < |c| {
      SplitIsFrame(c[taken..]);
      var payload := SplitRecord(c[taken..]).value.0;
      var size := LEN_PREFIX_BYTES + |payload|;
      if !(|done| > 0 && taken + size > maxBytes) {
        FramesSnoc(done, payload);
        assert c[..taken + size] == c[..taken] + c[taken..][..size];
        ps := MeasuredPrefixIsFrames(c, done + [payload], maxBytes);
      }
    }
  }
}
