/** The bytes of an encoded span written out field by field, without the schemas. */
module Layout {
  import opened Bytes
  import opened Codec
  import opened Span
  import opened Wire
  import opened Wrappers

  /** `bytes` are the `width` low-order bytes of `n`, the least significant one first. */
  ghost predicate IsLE(bytes: seq<byte>, n: int, width: nat) {
    |bytes| == width && 0 <= n && forall k :: 0 <= k < width ==> bytes[k] == n / Pow256(k) % 256
  }

  ghost predicate IsText(bytes: seq<byte>, text: seq<byte>) {
    |text| <= 0xFFFF_FFFF && |bytes| == 4 + |text| && IsLE(bytes[..4], |text|, 4) && bytes[4..] == text
  }

  ghost predicate IsOptText(bytes: seq<byte>, text: Option<seq<byte>>) {
    if text.None? then bytes == [0] else |bytes| > 0 && bytes[0] == 1 && IsText(bytes[1..], text.value)
  }

  /** Two's complement. */
  ghost predicate IsSigned(bytes: seq<byte>, v: int, width: nat) {
    IsLE(bytes, if v < 0 then v + Pow256(width) else v, width)
  }

  ghost predicate IsBool(bytes: seq<byte>, b: bool) { bytes == [if b then 1 else 0] }

  /** Nanoseconds since the epoch; earlier times are the epoch, later ones than 64 bits hold the last one. */
  ghost predicate IsTime(bytes: seq<byte>, t: Time) {
    IsLE(bytes, if t < 0 then 0 else if t > 0xFFFF_FFFF_FFFF_FFFF then 0xFFFF_FFFF_FFFF_FFFF else t, 8)
  }

  ghost predicate IsHeader(fs: seq<seq<byte>>, span: SpanRecord) {
    && |fs| == 8
    && fs[0] == [2] && fs[1] == [if span.attributes.Query? then 1 else 2]
    && fs[2] == span.traceId && fs[3] == span.spanId && fs[4] == span.parentId
    && IsTime(fs[5], span.startTime) && IsTime(fs[6], span.endTime) && IsText(fs[7], span.name)
  }

  ghost predicate IsQuery(fs: seq<seq<byte>>, q: QueryAttributes) {
    && |fs| == 6
    && IsBool(fs[0], q.parentIsRemote) && IsText(fs[1], q.operation) && IsOptText(fs[2], q.queryText)
    && IsSigned(fs[3], q.queryId, 8) && IsSigned(fs[4], q.execTotalTimeNs, 8) && IsLE(fs[5], q.planSpansOmitted, 8)
  }

  ghost predicate IsNames(fs: seq<seq<byte>>, n: PlanNodeAttributes) {
    && |fs| == 4
    && IsText(fs[0], n.nodeType) && IsOptText(fs[1], n.relation)
    && IsOptText(fs[2], n.parentRelationship) && IsOptText(fs[3], n.subplanName)
  }

  ghost predicate IsCounts(fs: seq<seq<byte>>, n: PlanNodeAttributes) {
    && |fs| == 4
    && IsLE(fs[0], n.subplansRemoved, 8)
    && (if n.workersLaunched.None? then fs[1] == [0]
        else |fs[1]| > 0 && fs[1][0] == 1 && IsSigned(fs[1][1..], n.workersLaunched.value, 8))
    && IsBool(fs[2], n.neverExecuted) && IsBool(fs[3], n.instrumentationIncomplete)
  }

  ghost predicate IsEstimates(fs: seq<seq<byte>>, n: PlanNodeAttributes) {
    && |fs| == 7
    && fs[0] == n.startupCost && fs[1] == n.totalCost && fs[2] == n.rows && IsSigned(fs[3], n.widthBytes, 4)
    && IsBool(fs[4], n.parallelAware) && IsBool(fs[5], n.parallelSafe) && IsBool(fs[6], n.asyncCapable)
  }

  ghost predicate IsMeasurements(fs: seq<seq<byte>>, n: PlanNodeAttributes) {
    && |fs| == 7
    && IsSigned(fs[0], n.instrStartupTimeNs, 8) && IsSigned(fs[1], n.instrTotalTimeNs, 8)
    && fs[2] == n.instrRows && fs[3] == n.instrSecondaryRows && fs[4] == n.instrLoops
    && fs[5] == n.instrRowsRemovedByScanOrJoinFilter && fs[6] == n.instrRowsRemovedByOtherFilter
  }

  ghost predicate IsPlanNode(fs: seq<seq<byte>>, n: PlanNodeAttributes) {
    && |fs| == 22
    && IsNames(fs[..4], n) && IsCounts(fs[4..8], n) && IsEstimates(fs[8..15], n) && IsMeasurements(fs[15..], n)
  }

  ghost predicate IsBody(fs: seq<seq<byte>>, a: SpanAttributes) {
    match a
    case Query(q) => IsQuery(fs, q)
    case PlanNode(n) => IsPlanNode(fs, n)
  }

  // ---------------------------------------------------------------------
  // The encoded fields
  // ---------------------------------------------------------------------

  lemma LEIs(n: nat, width: nat)
    ensures IsLE(ToLE(n, width), n, width)
  {
    forall k | 0 <= k < width ensures ToLE(n, width)[k] == n / Pow256(k) % 256 {
      LEByte(n, width, k);
    }
  }

  lemma TextIs(text: Utf8)
    requires |text| <= U32_MAX
    ensures IsText(EncText(text), text)
  {
    LEIs(|text|, 4);
    hide ToLE, IsLE;
    assert EncText(text) == ToLE(|text|, 4) + text;
  }

  lemma OptTextIs(text: Option<Utf8>)
    requires OptFits(text)
    ensures IsOptText(Enc(OptTextV(text)), text)
  {
    if text.Some? {
      TextIs(text.value);
      hide IsText, EncText;
      assert ([1] + EncText(text.value))[1..] == EncText(text.value);
    }
  }

  lemma SignedIs(v: i64)
    ensures IsSigned(PutI64(v), v, 8) && (v >= 0 ==> IsLE(PutU64(v), v, 8))
  {
    Pow256Values();
    LEIs(Unsigned64(v), 8);
    hide ToLE, IsLE, Pow256;
  }

  lemma UnsignedIs(v: u64)
    ensures IsLE(PutU64(v), v, 8)
  {
    LEIs(v, 8);
  }

  lemma Signed32Is(v: i32)
    ensures IsSigned(PutI32(v), v, 4)
  {
    Pow256Values();
    LEIs(if v < 0 then v + 0x1_0000_0000 else v, 4);
    hide ToLE, IsLE, Pow256;
  }

  lemma TimeIs(t: Time)
    ensures IsTime(PutTime(t), t)
  {
    UnsignedIs(ClampTime(t));
    hide PutU64, IsLE;
  }

  function Fields(vs: seq<Value>): (fs: seq<seq<byte>>)
    ensures |fs| == |vs|
  {
    seq(|vs|, i requires 0 <= i < |vs| => Enc(vs[i]))
  }

  lemma {:induction false} EncAllIsFlatten(vs: seq<Value>)
    ensures EncAll(vs) == Flatten(Fields(vs))
  {
    if vs != [] {
      EncAllIsFlatten(vs[1..]);
      assert Fields(vs)[1..] == Fields(vs[1..]);
    }
  }

  lemma {:induction false} FlattenConcat(a: seq<seq<byte>>, b: seq<seq<byte>>)
    ensures Flatten(a + b) == Flatten(a) + Flatten(b)
  {
    if a == [] {
      assert a + b == b;
    } else {
      FlattenConcat(a[1..], b);
      assert (a + b)[0] == a[0] && (a + b)[1..] == a[1..] + b;
      Wrappers.Assoc(a[0], Flatten(a[1..]), Flatten(b));
    }
  }

  lemma HeaderIs(span: SpanRecord)
    requires |span.name| <= U32_MAX
    ensures IsHeader([[FORMAT_VERSION]] + Fields(HeaderValues(span)), span)
  {
    TimeIs(span.startTime);
    TimeIs(span.endTime);
    TextIs(span.name);
    hide IsTime, IsText, PutTime, EncText;
  }

  lemma QueryIs(q: QueryAttributes)
    requires |q.operation| <= U32_MAX && OptFits(q.queryText)
    ensures IsQuery(Fields(QueryValues(q)), q)
  {
    TextIs(q.operation);
    OptTextIs(q.queryText);
    SignedIs(q.queryId);
    SignedIs(q.execTotalTimeNs);
    UnsignedIs(q.planSpansOmitted);
    hide IsText, IsOptText, IsSigned, IsLE, PutI64, PutU64, EncText;
  }

  lemma NamesAre(n: PlanNodeAttributes)
    requires NodeTextsFit(n)
    ensures IsNames(Fields(NameValues(n)), n)
  {
    TextIs(n.nodeType);
    OptTextIs(n.relation);
    OptTextIs(n.parentRelationship);
    OptTextIs(n.subplanName);
    hide IsText, IsOptText, EncText;
  }

  lemma CountsAre(n: PlanNodeAttributes)
    ensures IsCounts(Fields(CountValues(n)), n)
  {
    UnsignedIs(n.subplansRemoved);
    if n.workersLaunched.Some? {
      SignedIs(n.workersLaunched.value);
      assert ([1] + PutI64(n.workersLaunched.value))[1..] == PutI64(n.workersLaunched.value);
    }
    hide IsSigned, IsLE, PutI64, PutU64;
  }

  lemma EstimatesAre(n: PlanNodeAttributes)
    ensures IsEstimates(Fields(EstimateValues(n)), n)
  {
    Signed32Is(n.widthBytes);
    hide IsSigned, PutI32;
  }

  lemma MeasurementsAre(n: PlanNodeAttributes)
    ensures IsMeasurements(Fields(MeasurementValues(n)), n)
  {
    SignedIs(n.instrStartupTimeNs);
    SignedIs(n.instrTotalTimeNs);
    hide IsSigned, IsLE, PutI64;
  }

  lemma PlanNodeIs(n: PlanNodeAttributes)
    requires NodeTextsFit(n)
    ensures IsPlanNode(Fields(PlanNodeValues(n)), n)
  {
    NamesAre(n);
    CountsAre(n);
    EstimatesAre(n);
    MeasurementsAre(n);
    var a, b, c, d := NameValues(n), CountValues(n), EstimateValues(n), MeasurementValues(n);
    assert |a| == 4 && |b| == 4 && |c| == 7 && |d| == 7;
    hide NameValues, CountValues, EstimateValues, MeasurementValues, IsNames, IsCounts, IsEstimates, IsMeasurements, Enc;
    var fs := Fields((a + b) + (c + d));
    assert fs[..4] == Fields(a) && fs[4..8] == Fields(b) && fs[8..15] == Fields(c) && fs[15..] == Fields(d);
  }

  /** An encoded span is these fields, one after the other. */
  lemma SpanLayout(span: SpanRecord) returns (header: seq<seq<byte>>, body: seq<seq<byte>>)
    requires TextsFit(span)
    ensures SpanBytes(span) == Flatten(header) + Flatten(body)
    ensures IsHeader(header, span) && IsBody(body, span.attributes)
  {
    var hv, bv := HeaderValues(span), BodyValues(span.attributes);
    header, body := [[FORMAT_VERSION]] + Fields(hv), Fields(bv);
    HeaderIs(span);
    match span.attributes {
      case Query(q) => QueryIs(q);
      case PlanNode(n) => PlanNodeIs(n);
    }
    hide IsHeader, IsQuery, IsPlanNode, HeaderValues, QueryValues, PlanNodeValues, EncAll;
    EncAllIsFlatten(hv);
    EncAllIsFlatten(bv);
    assert header[0] == [FORMAT_VERSION] && header[1..] == Fields(hv);
    Wrappers.Assoc([FORMAT_VERSION], EncAll(hv), EncAll(bv));
  }
}
