/**
 The span format, over the schemas of module `Wire`: `SpanBytes` encodes and `ParseSpan` decodes. The
 methods that do so field by field, on a byte vector and a reader, are in module `SpanIo`.
 */
module Codec {
  import opened Bytes
  import opened Span
  import opened Wire
  import opened Wrappers

  const FORMAT_VERSION: byte := 2
  const KIND_QUERY: byte := 1
  const KIND_PLAN_NODE: byte := 2

  // ---------------------------------------------------------------------
  // Numbers and times
  // ---------------------------------------------------------------------

  type Bytes4 = b: seq<byte> | |b| == 4 witness [0, 0, 0, 0]

  function PutU64(v: u64): Bytes8 { ToLE(v, 8) }

  function GetU64(b: Bytes8): u64 {
    Pow256Values();
    FromLEBound(b);
    FromLE(b)
  }

  function Unsigned64(v: i64): u64 { if v < 0 then v + 0x1_0000_0000_0000_0000 else v }

  function Signed64(n: u64): i64 { if n < 0x8000_0000_0000_0000 then n else n - 0x1_0000_0000_0000_0000 }

  function PutI64(v: i64): Bytes8 { PutU64(Unsigned64(v)) }

  function GetI64(b: Bytes8): i64 { Signed64(GetU64(b)) }

  function PutI32(v: i32): Bytes4 { ToLE(if v < 0 then v + 0x1_0000_0000 else v, 4) }

  function GetI32(b: Bytes4): i32 {
    Pow256Values();
    FromLEBound(b);
    var n := FromLE(b);
    if n < 0x8000_0000 then n else n - 0x1_0000_0000
  }

  lemma U64Put(v: u64)
    ensures GetU64(PutU64(v)) == v
  {
    Pow256Values();
    FromLEOfToLE(v, 8);
  }

  lemma U64Got(b: Bytes8)
    ensures PutU64(GetU64(b)) == b && PutI64(GetI64(b)) == b
  {
    ToLEOfFromLE(b);
  }

  lemma I64Put(v: i64)
    ensures GetI64(PutI64(v)) == v
  {
    U64Put(Unsigned64(v));
  }

  lemma I32Put(v: i32)
    ensures GetI32(PutI32(v)) == v
  {
    Pow256Values();
    FromLEOfToLE(if v < 0 then v + 0x1_0000_0000 else v, 4);
  }

  lemma I32Got(b: Bytes4)
    ensures PutI32(GetI32(b)) == b
  {
    Pow256Values();
    FromLEBound(b);
    ToLEOfFromLE(b);
  }

  /** Times before the epoch are clamped to it, times beyond 2^64 - 1 ns to that. */
  function ClampTime(t: Time): (r: u64) {
    if t < 0 then 0 else if t > U64_MAX then U64_MAX else t
  }

  // ---------------------------------------------------------------------
  // Specification: a span as a list of wire values
  // ---------------------------------------------------------------------

  const HEADER: seq<Type> := [Raw(1), Raw(16), Raw(8), Raw(8), Raw(8), Raw(8), Text]

  const QUERY: seq<Type> := [Flag, Text, OptText, Raw(8), Raw(8), Raw(8)]

  const NODE_NAMES: seq<Type> := [Text, OptText, OptText, OptText]
  const NODE_COUNTS: seq<Type> := [Raw(8), OptRaw(8), Flag, Flag]
  const NODE_ESTIMATES: seq<Type> := [Raw(8), Raw(8), Raw(8), Raw(4), Flag, Flag, Flag]
  const NODE_MEASUREMENTS: seq<Type> := [Raw(8), Raw(8), Raw(8), Raw(8), Raw(8), Raw(8), Raw(8)]

  const PLAN_NODE: seq<Type> := (NODE_NAMES + NODE_COUNTS) + (NODE_ESTIMATES + NODE_MEASUREMENTS)

  function Kind(a: SpanAttributes): byte { if a.Query? then KIND_QUERY else KIND_PLAN_NODE }

  function Body(kind: byte): seq<Type> { if kind == KIND_QUERY then QUERY else PLAN_NODE }

  function PutTime(t: Time): Bytes8 { PutU64(ClampTime(t)) }

  function HeaderValues(span: SpanRecord): seq<Value> {
    [RawV([Kind(span.attributes)]), RawV(span.traceId), RawV(span.spanId), RawV(span.parentId),
     RawV(PutTime(span.startTime)), RawV(PutTime(span.endTime)), TextV(span.name)]
  }

  function QueryValues(q: QueryAttributes): seq<Value> {
    [FlagV(q.parentIsRemote), TextV(q.operation), OptTextV(q.queryText), RawV(PutI64(q.queryId)),
     RawV(PutI64(q.execTotalTimeNs)), RawV(PutU64(q.planSpansOmitted))]
  }

  function NameValues(n: PlanNodeAttributes): seq<Value> {
    [TextV(n.nodeType), OptTextV(n.relation), OptTextV(n.parentRelationship), OptTextV(n.subplanName)]
  }

  function CountValues(n: PlanNodeAttributes): seq<Value> {
    [RawV(PutU64(n.subplansRemoved)),
     OptRawV(if n.workersLaunched.Some? then Some(PutI64(n.workersLaunched.value)) else None),
     FlagV(n.neverExecuted), FlagV(n.instrumentationIncomplete)]
  }

  function EstimateValues(n: PlanNodeAttributes): seq<Value> {
    [RawV(n.startupCost), RawV(n.totalCost), RawV(n.rows), RawV(PutI32(n.widthBytes)),
     FlagV(n.parallelAware), FlagV(n.parallelSafe), FlagV(n.asyncCapable)]
  }

  function MeasurementValues(n: PlanNodeAttributes): seq<Value> {
    [RawV(PutI64(n.instrStartupTimeNs)), RawV(PutI64(n.instrTotalTimeNs)),
     RawV(n.instrRows), RawV(n.instrSecondaryRows), RawV(n.instrLoops),
     RawV(n.instrRowsRemovedByScanOrJoinFilter), RawV(n.instrRowsRemovedByOtherFilter)]
  }

  function PlanNodeValues(n: PlanNodeAttributes): seq<Value> {
    (NameValues(n) + CountValues(n)) + (EstimateValues(n) + MeasurementValues(n))
  }

  function BodyValues(a: SpanAttributes): seq<Value> {
    match a
    case Query(q) => QueryValues(q)
    case PlanNode(n) => PlanNodeValues(n)
  }

  function QueryOf(vs: seq<Value>): QueryAttributes
    requires HasTypes(vs, QUERY)
  {
    QueryAttributes(vs[0].flag, vs[1].text, vs[2].optText, GetI64(vs[3].bytes), GetI64(vs[4].bytes), GetU64(vs[5].bytes))
  }

  function PlanNodeOf(vs: seq<Value>): PlanNodeAttributes
    requires HasTypes(vs, PLAN_NODE)
  {
    PlanNodeAttributes(
      vs[0].text, vs[1].optText, vs[2].optText, vs[3].optText, GetU64(vs[4].bytes),
      if vs[5].optBytes.Some? then Some(GetI64(vs[5].optBytes.value)) else None,
      vs[6].flag, vs[7].flag, vs[8].bytes, vs[9].bytes, vs[10].bytes, GetI32(vs[11].bytes),
      vs[12].flag, vs[13].flag, vs[14].flag, GetI64(vs[15].bytes), GetI64(vs[16].bytes),
      vs[17].bytes, vs[18].bytes, vs[19].bytes, vs[20].bytes, vs[21].bytes)
  }

  function AttributesOf(kind: byte, vs: seq<Value>): SpanAttributes
    requires HasTypes(vs, Body(kind))
  {
    if kind == KIND_QUERY then Query(QueryOf(vs)) else PlanNode(PlanNodeOf(vs))
  }

  function SpanOf(h: seq<Value>, a: SpanAttributes): SpanRecord
    requires HasTypes(h, HEADER)
  {
    SpanRecord(h[1].bytes, h[2].bytes, h[3].bytes, h[6].text, GetU64(h[4].bytes), GetU64(h[5].bytes), a)
  }

  /** The encoding of a span. */
  function SpanBytes(span: SpanRecord): seq<byte> {
    [FORMAT_VERSION] + (EncAll(HeaderValues(span)) + EncAll(BodyValues(span.attributes)))
  }

  /** What decoding a record yields. */
  function ParseSpan(bytes: seq<byte>): Result<SpanRecord, DecodeError> {
    var (h, b) :- ParseRecord(HEADER, bytes);
    Ok(SpanOf(h, AttributesOf(h[0].bytes[0], b)))
  }

  predicate IsKind(kind: byte) { kind == KIND_QUERY || kind == KIND_PLAN_NODE }

  /** The shape of a record: version, header, and the body the header's kind calls for. */
  predicate WellTyped(header: seq<Type>, h: seq<Value>, b: seq<Value>)
    requires HasKind(header)
  {
    HasTypes(h, header) && IsKind(h[0].bytes[0]) && HasTypes(b, Body(h[0].bytes[0]))
  }

  /** A header starts with the one-byte kind. */
  predicate HasKind(header: seq<Type>) { |header| > 0 && header[0] == Raw(1) }

  function ParseRecord(header: seq<Type>, bytes: seq<byte>): (r: Result<(seq<Value>, seq<Value>), DecodeError>)
    requires HasKind(header)
    ensures r.Ok? ==> WellTyped(header, r.value.0, r.value.1)
  {
    var (version, afterVersion) :- Take(1, bytes);
    if version[0] != FORMAT_VERSION then Err(UnknownTag(version[0]))
    else
      var (h, afterHeader) :- Parse(header, afterVersion);
      var kind := h[0].bytes[0];
      if !IsKind(kind) then Err(UnknownTag(kind))
      else
        var (b, rest) :- Parse(Body(kind), afterHeader);
        if rest != [] then Err(TrailingBytes) else Ok((h, b))
  }

  function Parse(tys: seq<Type>, bytes: seq<byte>): (r: Result<(seq<Value>, seq<byte>), DecodeError>)
    ensures r.Ok? ==> HasTypes(r.value.0, tys)
  {
    if DecAll(tys, bytes).Ok? then IsCanonical(tys, bytes); DecAll(tys, bytes) else DecAll(tys, bytes)
  }

  // ---------------------------------------------------------------------
  // The codec is a bijection
  // ---------------------------------------------------------------------

  /** What the format can represent: times in [0, 2^64) ns and strings shorter than 2^32 bytes. */
  predicate Representable(span: SpanRecord) {
    && 0 <= span.startTime <= U64_MAX && 0 <= span.endTime <= U64_MAX
    && TextsFit(span)
  }

  predicate OptFits(t: Option<Utf8>) { t.Some? ==> |t.value| <= U32_MAX }

  predicate TextsFit(span: SpanRecord) {
    && |span.name| <= U32_MAX
    && match span.attributes
       case Query(q) => |q.operation| <= U32_MAX && OptFits(q.queryText)
       case PlanNode(n) => NodeTextsFit(n)
  }

  predicate NodeTextsFit(n: PlanNodeAttributes) {
    |n.nodeType| <= U32_MAX && OptFits(n.relation) && OptFits(n.parentRelationship) && OptFits(n.subplanName)
  }

  /** The span a consumer gets: times clamped to what 64-bit nanoseconds can hold. */
  function Clamped(span: SpanRecord): SpanRecord {
    span.(startTime := ClampTime(span.startTime), endTime := ClampTime(span.endTime))
  }

  lemma HasTypesConcat(a: seq<Value>, b: seq<Value>, ta: seq<Type>, tb: seq<Type>)
    requires HasTypes(a, ta) && HasTypes(b, tb)
    ensures HasTypes(a + b, ta + tb)
  {
  }

  lemma HeaderTyped(span: SpanRecord)
    requires |span.name| <= U32_MAX
    ensures HasTypes(HeaderValues(span), HEADER)
  {
  }

  lemma QueryTyped(q: QueryAttributes)
    requires |q.operation| <= U32_MAX && OptFits(q.queryText)
    ensures HasTypes(QueryValues(q), QUERY)
    ensures QueryOf(QueryValues(q)) == q
  {
    I64Put(q.queryId);
    I64Put(q.execTotalTimeNs);
    U64Put(q.planSpansOmitted);
  }

  lemma NamesTyped(n: PlanNodeAttributes)
    requires NodeTextsFit(n)
    ensures HasTypes(NameValues(n), NODE_NAMES)
  {
  }

  lemma CountsTyped(n: PlanNodeAttributes)
    ensures HasTypes(CountValues(n), NODE_COUNTS)
  {
  }

  lemma EstimatesTyped(n: PlanNodeAttributes)
    ensures HasTypes(EstimateValues(n), NODE_ESTIMATES)
  {
  }

  lemma MeasurementsTyped(n: PlanNodeAttributes)
    ensures HasTypes(MeasurementValues(n), NODE_MEASUREMENTS)
  {
  }

  lemma PlanNodeTyped(n: PlanNodeAttributes)
    requires NodeTextsFit(n)
    ensures HasTypes(PlanNodeValues(n), PLAN_NODE)
  {
    NamesTyped(n);
    CountsTyped(n);
    EstimatesTyped(n);
    MeasurementsTyped(n);
    HasTypesConcat(NameValues(n), CountValues(n), NODE_NAMES, NODE_COUNTS);
    HasTypesConcat(EstimateValues(n), MeasurementValues(n), NODE_ESTIMATES, NODE_MEASUREMENTS);
    HasTypesConcat(NameValues(n) + CountValues(n), EstimateValues(n) + MeasurementValues(n),
                   NODE_NAMES + NODE_COUNTS, NODE_ESTIMATES + NODE_MEASUREMENTS);
  }

  lemma PlanNodeRecovered(n: PlanNodeAttributes)
    requires HasTypes(PlanNodeValues(n), PLAN_NODE)
    ensures PlanNodeOf(PlanNodeValues(n)) == n
  {
    U64Put(n.subplansRemoved);
    if n.workersLaunched.Some? {
      I64Put(n.workersLaunched.value);
    }
    I32Put(n.widthBytes);
    I64Put(n.instrStartupTimeNs);
    I64Put(n.instrTotalTimeNs);
    var vs := PlanNodeValues(n);
    assert vs[..4] == NameValues(n);
    assert vs[4..8] == CountValues(n);
    assert vs[8..15] == EstimateValues(n);
    assert vs[15..] == MeasurementValues(n);
  }

  lemma NamesRecovered(vs: seq<Value>)
    requires HasTypes(vs, PLAN_NODE)
    ensures NameValues(PlanNodeOf(vs)) == vs[..4] && NodeTextsFit(PlanNodeOf(vs))
  {
  }

  lemma CountsRecovered(vs: seq<Value>)
    requires HasTypes(vs, PLAN_NODE)
    ensures CountValues(PlanNodeOf(vs)) == vs[4..8]
  {
    U64Got(vs[4].bytes);
    if vs[5].optBytes.Some? {
      U64Got(vs[5].optBytes.value);
    }
  }

  lemma EstimatesRecovered(vs: seq<Value>)
    requires HasTypes(vs, PLAN_NODE)
    ensures EstimateValues(PlanNodeOf(vs)) == vs[8..15]
  {
    I32Got(vs[11].bytes);
  }

  lemma MeasurementsRecovered(vs: seq<Value>)
    requires HasTypes(vs, PLAN_NODE)
    ensures MeasurementValues(PlanNodeOf(vs)) == vs[15..]
  {
    U64Got(vs[15].bytes);
    U64Got(vs[16].bytes);
  }

  lemma PlanNodeValuesRecovered(vs: seq<Value>)
    requires HasTypes(vs, PLAN_NODE)
    ensures PlanNodeValues(PlanNodeOf(vs)) == vs && NodeTextsFit(PlanNodeOf(vs))
  {
    NamesRecovered(vs);
    CountsRecovered(vs);
    EstimatesRecovered(vs);
    MeasurementsRecovered(vs);
    assert vs == (vs[..4] + vs[4..8]) + (vs[8..15] + vs[15..]);
  }

  lemma ValuesTyped(span: SpanRecord)
    requires TextsFit(span)
    ensures HasTypes(HeaderValues(span), HEADER)
    ensures HasTypes(BodyValues(span.attributes), Body(Kind(span.attributes)))
  {
    HeaderTyped(span);
    match span.attributes
    case Query(q) => QueryTyped(q);
    case PlanNode(n) => PlanNodeTyped(n);
  }

  lemma ValuesDetermineSpan(span: SpanRecord)
    requires TextsFit(span)
    ensures HasTypes(HeaderValues(span), HEADER) && HasTypes(BodyValues(span.attributes), Body(Kind(span.attributes)))
    ensures SpanOf(HeaderValues(span), AttributesOf(Kind(span.attributes), BodyValues(span.attributes))) == Clamped(span)
  {
    ValuesTyped(span);
    U64Put(ClampTime(span.startTime));
    U64Put(ClampTime(span.endTime));
    match span.attributes
    case Query(q) => QueryTyped(q);
    case PlanNode(n) => PlanNodeRecovered(n);
  }

  lemma QueryValuesRecovered(b: seq<Value>)
    requires HasTypes(b, QUERY)
    ensures var q := QueryOf(b); QueryValues(q) == b && |q.operation| <= U32_MAX && OptFits(q.queryText)
  {
    U64Got(b[3].bytes);
    U64Got(b[4].bytes);
    U64Got(b[5].bytes);
  }

  lemma SpanDeterminesValues(h: seq<Value>, b: seq<Value>)
    requires WellTyped(HEADER, h, b)
    ensures var span := SpanOf(h, AttributesOf(h[0].bytes[0], b));
            HeaderValues(span) == h && BodyValues(span.attributes) == b && Representable(span)
  {
    var kind := h[0].bytes[0];
    assert [kind] == h[0].bytes;
    U64Got(h[4].bytes);
    U64Got(h[5].bytes);
    if kind == KIND_QUERY {
      QueryValuesRecovered(b);
      hide QueryOf, QueryValues;
    } else {
      PlanNodeValuesRecovered(b);
      hide PlanNodeOf, PlanNodeValues;
    }
  }

  function RecordBytes(h: seq<Value>, b: seq<Value>): seq<byte> {
    [FORMAT_VERSION] + (EncAll(h) + EncAll(b))
  }

  lemma ParseOfRecord(header: seq<Type>, h: seq<Value>, b: seq<Value>, extra: seq<byte>)
    requires HasKind(header) && WellTyped(header, h, b)
    ensures ParseRecord(header, RecordBytes(h, b) + extra) == if extra != [] then Err(TrailingBytes) else Ok((h, b))
  {
    hide EncAll, HasTypes;
    assert (RecordBytes(h, b) + extra)[1..] == EncAll(h) + (EncAll(b) + extra);
    RoundTrips(h, header, EncAll(b) + extra);
    RoundTrips(b, Body(h[0].bytes[0]), extra);
  }

  lemma PrefixTail(first: byte, tail: seq<byte>, p: seq<byte>)
    requires p < [first] + tail && p != []
    ensures p[0] == first && p[1..] < tail
  {
    assert p[0] == ([first] + tail)[0];
    assert p[1..] <= ([first] + tail)[1..];
  }

  lemma ParseOfRecordPrefix(header: seq<Type>, h: seq<Value>, b: seq<Value>, p: seq<byte>)
    requires HasKind(header) && WellTyped(header, h, b) && p < RecordBytes(h, b)
    ensures ParseRecord(header, p) == Err(Truncated)
  {
    if p != [] {
      PrefixTail(FORMAT_VERSION, EncAll(h) + EncAll(b), p);
      PrefixOfTwo(h, header, b, Body(h[0].bytes[0]), p[1..]);
    }
  }

  lemma ParsedIsRecord(header: seq<Type>, bytes: seq<byte>)
    requires HasKind(header) && ParseRecord(header, bytes).Ok?
    ensures var (h, b) := ParseRecord(header, bytes).value;
            bytes == RecordBytes(h, b)
  {
    var (h, rest) := Parse(header, bytes[1..]).value;
    var b := ParseRecord(header, bytes).value.1;
    IsCanonical(header, bytes[1..]);
    assert rest == EncAll(b) by {
      IsCanonical(Body(h[0].bytes[0]), rest);
      assert EncAll(b) + [] == EncAll(b);
    }
    assert bytes == [FORMAT_VERSION] + bytes[1..];
  }

  lemma SpanIsRecord(span: SpanRecord)
    requires TextsFit(span)
    ensures var (h, b) := (HeaderValues(span), BodyValues(span.attributes));
            && WellTyped(HEADER, h, b) && SpanBytes(span) == RecordBytes(h, b)
            && SpanOf(h, AttributesOf(h[0].bytes[0], b)) == Clamped(span)
  {
    ValuesDetermineSpan(span);
  }

  /** Decoding an encoded span returns it, with its times clamped; nothing else is lost. */
  lemma EncodeThenDecode(span: SpanRecord)
    requires TextsFit(span)
    ensures ParseSpan(SpanBytes(span)) == Ok(Clamped(span))
    ensures var r := ParseSpan(SpanBytes(span)).value;
            && r.(startTime := span.startTime, endTime := span.endTime) == span
            && r.startTime == (if span.startTime < 0 then 0 else if span.startTime < 0x1_0000_0000_0000_0000 then span.startTime
                               else 0xFFFF_FFFF_FFFF_FFFF)
            && r.endTime == (if span.endTime < 0 then 0 else if span.endTime < 0x1_0000_0000_0000_0000 then span.endTime
                             else 0xFFFF_FFFF_FFFF_FFFF)
  {
    SpanIsRecord(span);
    ParseOfRecord(HEADER, HeaderValues(span), BodyValues(span.attributes), []);
    assert SpanBytes(span) + [] == SpanBytes(span);
  }

  /** Whatever the decoder accepts is the encoding of what it decoded to. */
  lemma DecodeThenEncode(bytes: seq<byte>)
    requires ParseSpan(bytes).Ok?
    ensures Representable(ParseSpan(bytes).value) && SpanBytes(ParseSpan(bytes).value) == bytes
  {
    ParsedIsRecord(HEADER, bytes);
    var (h, b) := ParseRecord(HEADER, bytes).value;
    SpanDeterminesValues(h, b);
  }

  /** A span survives the round trip exactly when the format can represent it. */
  lemma RoundTripsIffRepresentable(span: SpanRecord)
    ensures ParseSpan(SpanBytes(span)) == Ok(span) <==> Representable(span)
  {
    if Representable(span) {
      EncodeThenDecode(span);
    }
    if ParseSpan(SpanBytes(span)) == Ok(span) {
      DecodeThenEncode(SpanBytes(span));
    }
  }

  /** Every strict prefix of an encoded span is reported as truncated... */
  lemma StrictPrefixIsTruncated(span: SpanRecord, p: seq<byte>)
    requires TextsFit(span) && p < SpanBytes(span)
    ensures ParseSpan(p) == Err(Truncated)
  {
    SpanIsRecord(span);
    ParseOfRecordPrefix(HEADER, HeaderValues(span), BodyValues(span.attributes), p);
  }

  /** ...and every proper extension as having trailing bytes. */
  lemma ExtensionHasTrailingBytes(span: SpanRecord, extra: seq<byte>)
    requires TextsFit(span) && extra != []
    ensures ParseSpan(SpanBytes(span) + extra) == Err(TrailingBytes)
  {
    SpanIsRecord(span);
    ParseOfRecord(HEADER, HeaderValues(span), BodyValues(span.attributes), extra);
  }
}
