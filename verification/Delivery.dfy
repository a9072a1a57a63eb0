/**
 Batches of spans on their way through the queue: encoding a statement's spans into a batch,
 decoding a drained byte stream, and the end-to-end law that connects the two.
 */
module Delivery {
  import opened Bytes
  import opened Codec
  import opened Framing
  import opened Queue
  import opened Span
  import opened SpanIo
  import opened Wire
  import opened Wrappers

  /** The span is small enough for a queue record. */
  predicate Fits(span: SpanRecord) {
    |SpanBytes(span)| <= MAX_RECORD_BYTES
  }

  function PayloadOf(span: SpanRecord): Option<Payload> {
    if Fits(span) then Some(SpanBytes(span)) else None
  }

  function KeptOf(span: SpanRecord): Option<SpanRecord> {
    if Fits(span) then Some(Clamped(span)) else None
  }

  /** The payloads a statement's spans turn into: too large spans are skipped. */
  function Payloads(spans: seq<SpanRecord>): seq<Payload> { FilterMap(PayloadOf, spans) }

  /** The spans a consumer is to get: those that fit, with clamped times. */
  function Kept(spans: seq<SpanRecord>): seq<SpanRecord> { FilterMap(KeptOf, spans) }

  method EncodeBatch(spans: seq<SpanRecord>) returns (batch: Batch, skipped: nat)
    ensures fresh(batch) && batch.Valid() && batch.payloads == Payloads(spans)
    ensures skipped + |Payloads(spans)| == |spans|
  {
    assert Payloads(spans[..0]) == [];
    hide SpanBytes, FilterMap;
    batch := new Batch();
    skipped := 0;
    for i := 0 to |spans|
      invariant batch.Valid() && batch.payloads == Payloads(spans[..i]) && fresh(batch)
      invariant skipped + |batch.payloads| == i
    {
      var out := new Writer();
      EncodeSpan(spans[i], out);
      var written := out.bytes;
      assert written == SpanBytes(spans[i]);
      assert PayloadOf(spans[i]) == if |written| <= MAX_RECORD_BYTES then Some(written) else None;
      var pushed := batch.PushRecord(out.bytes);
      if pushed.Err? {
        skipped := skipped + 1;
      }
      FilterMapNext(PayloadOf, spans, i);
    }
    assert spans[..|spans|] == spans;
  }

  // ---------------------------------------------------------------------
  // Decoding a record stream
  // ---------------------------------------------------------------------

  function Decoded(item: Result<Payload, Corrupted>): Option<SpanRecord> {
    if item.Ok? && ParseSpan(item.value).Ok? then Some(ParseSpan(item.value).value) else None
  }

  function DecodedSpans(items: seq<Result<Payload, Corrupted>>): seq<SpanRecord> { FilterMap(Decoded, items) }

  function Undecodable(items: seq<Result<Payload, Corrupted>>): nat {
    FilterMapLength(Decoded, items);
    |items| - |DecodedSpans(items)|
  }

  method DecodeRecords(bytes: seq<byte>) returns (spans: seq<SpanRecord>, undecodable: nat)
    ensures spans == DecodedSpans(Items(bytes))
    ensures undecodable == Undecodable(Items(bytes))
  {
    assert DecodedSpans([]) == [] && Undecodable([]) == 0;
    hide Items, ParseSpan, FilterMap;
    spans, undecodable := [], 0;
    var records := new Records(bytes);
    ghost var done: seq<Result<Payload, Corrupted>> := [];
    ghost var left := Items(bytes);
    var item := records.Next();
    while item.Some?
      invariant fresh(records)
      invariant item.None? ==> left == []
      invariant item.Some? ==> left == [item.value] + Items(records.rest)
      invariant Items(bytes) == done + left
      invariant spans == DecodedSpans(done) && undecodable == Undecodable(done)
      decreases item.Some?, |records.rest|
    {
      var payload := item.value;
      var span: Result<SpanRecord, DecodeError> := Err(Truncated);
      if payload.Ok? {
        span := DecodeSpan(payload.value);
      }
      match span {
        case Ok(s) => spans := spans + [s];
        case Err(_) => undecodable := undecodable + 1;
      }
      FilterMapSnoc(Decoded, done, payload);
      MoveFirst(done, left);
      done, left := done + [payload], left[1..];
      item := records.Next();
    }
    assert done + [] == done;
  }

  // ---------------------------------------------------------------------
  // The end-to-end law
  // ---------------------------------------------------------------------

  lemma {:induction false} EncAllAtLeast(vs: seq<Value>, i: nat)
    requires i < |vs|
    ensures |Enc(vs[i])| <= |EncAll(vs)|
  {
    if i > 0 {
      EncAllAtLeast(vs[1..], i - 1);
    }
  }

  lemma TextFitsIfShort(v: Value, vs: seq<Value>, i: nat)
    requires i < |vs| && vs[i] == v && |EncAll(vs)| <= MAX_RECORD_BYTES
    ensures v.TextV? ==> |v.text| <= U32_MAX
    ensures v.OptTextV? ==> OptFits(v.optText)
  {
    EncAllAtLeast(vs, i);
  }

  lemma ShortNames(n: PlanNodeAttributes)
    requires |EncAll(PlanNodeValues(n))| <= MAX_RECORD_BYTES
    ensures NodeTextsFit(n)
  {
    EncAllConcat(NameValues(n) + CountValues(n), EstimateValues(n) + MeasurementValues(n));
    EncAllConcat(NameValues(n), CountValues(n));
    var vs := NameValues(n);
    TextFitsIfShort(TextV(n.nodeType), vs, 0);
    TextFitsIfShort(OptTextV(n.relation), vs, 1);
    TextFitsIfShort(OptTextV(n.parentRelationship), vs, 2);
    TextFitsIfShort(OptTextV(n.subplanName), vs, 3);
  }

  lemma ShortQueryTexts(q: QueryAttributes)
    requires |EncAll(QueryValues(q))| <= MAX_RECORD_BYTES
    ensures |q.operation| <= U32_MAX && OptFits(q.queryText)
  {
    TextFitsIfShort(TextV(q.operation), QueryValues(q), 1);
    TextFitsIfShort(OptTextV(q.queryText), QueryValues(q), 2);
  }

  /** A span that fits a record has no string that the length prefix would cut off. */
  lemma FittingSpansHaveShortTexts(span: SpanRecord)
    requires Fits(span)
    ensures TextsFit(span)
  {
    TextFitsIfShort(TextV(span.name), HeaderValues(span), 6);
    match span.attributes
    case Query(q) => ShortQueryTexts(q);
    case PlanNode(n) => ShortNames(n);
  }

  lemma PayloadDecodes(span: SpanRecord)
    ensures PayloadOf(span).Some? <==> KeptOf(span).Some?
    ensures PayloadOf(span).Some? ==> Decoded(Ok(PayloadOf(span).value)) == KeptOf(span)
  {
    if Fits(span) {
      FittingSpansHaveShortTexts(span);
      EncodeThenDecode(span);
    }
  }

  /** Decoding the payloads of a batch gives its spans back, in order, with nothing undecodable. */
  lemma {:induction false} PayloadsDecode(spans: seq<SpanRecord>)
    ensures DecodedSpans(AllOk(Payloads(spans))) == Kept(spans)
    ensures Undecodable(AllOk(Payloads(spans))) == 0
  {
    if spans != [] {
      PayloadsDecode(spans[1..]);
      PayloadDecodes(spans[0]);
      var first := PayloadOf(spans[0]);
      var ps := if first.Some? then [first.value] else [];
      assert AllOk(Payloads(spans)) == AllOk(ps) + AllOk(Payloads(spans[1..]));
      FilterMapConcat(Decoded, AllOk(ps), AllOk(Payloads(spans[1..])));
      if first.Some? {
        assert AllOk(ps) == [] + [Ok(first.value)];
        FilterMapSnoc(Decoded, [], Ok(first.value));
      }
    }
  }

  /** What the consumer makes of the chunks drained from the queue. */
  function Received(chunks: seq<seq<byte>>): seq<SpanRecord> {
    if chunks == [] then [] else DecodedSpans(Items(chunks[0])) + Received(chunks[1..])
  }

  function Lost(chunks: seq<seq<byte>>): nat {
    if chunks == [] then 0 else Undecodable(Items(chunks[0])) + Lost(chunks[1..])
  }

  /** Each chunk is a stream of whole records, the `i`-th one holding the payloads `groups[i]`. */
  ghost predicate WholeRecords(groups: seq<seq<Payload>>, chunks: seq<seq<byte>>) {
    |groups| == |chunks| && forall i :: 0 <= i < |chunks| ==> chunks[i] == Frames(groups[i])
  }

  /** However a stream of records is cut, decoding the chunks one by one is decoding the payloads. */
  lemma {:induction false} CutsDoNotMatter(groups: seq<seq<Payload>>, chunks: seq<seq<byte>>)
    requires WholeRecords(groups, chunks)
    ensures Received(chunks) == DecodedSpans(AllOk(Flatten(groups)))
    ensures Lost(chunks) == Undecodable(AllOk(Flatten(groups)))
  {
    if chunks != [] {
      assert chunks[0] == Frames(groups[0]);
      CutsDoNotMatter(groups[1..], chunks[1..]);
      ItemsOfFrames(groups[0]);
      var tail := Flatten(groups[1..]);
      assert AllOk(Flatten(groups)) == AllOk(groups[0]) + AllOk(tail);
      FilterMapConcat(Decoded, AllOk(groups[0]), AllOk(tail));
    }
  }
}
