/** Finished spans, as backends hand them to the exporter. */
module Span {
  import opened Bytes
  import opened Wrappers

  type u64 = x: int | 0 <= x < 0x1_0000_0000_0000_0000
  type i64 = x: int | -0x8000_0000_0000_0000 <= x < 0x8000_0000_0000_0000
  type i32 = x: int | -0x8000_0000 <= x < 0x8000_0000

  type Bytes8 = b: seq<byte> | |b| == 8 witness [0, 0, 0, 0, 0, 0, 0, 0]
  type Bytes16 = b: seq<byte> | |b| == 16 witness [0, 0, 0, 0, 0, 0, 0, 0, 0, 0, 0, 0, 0, 0, 0, 0]

  type TraceId = Bytes16
  type SpanId = Bytes8

  /** A double, held as its bit pattern: the codec never looks inside. */
  type f64 = Bytes8

  /** A point in time: nanoseconds since the Unix epoch, negative before it. */
  type Time = int

  datatype QueryAttributes = QueryAttributes(
    parentIsRemote: bool,
    operation: Utf8,
    queryText: Option<Utf8>,
    queryId: i64,
    execTotalTimeNs: i64,
    planSpansOmitted: u64)

  datatype PlanNodeAttributes = PlanNodeAttributes(
    nodeType: Utf8,
    relation: Option<Utf8>,
    parentRelationship: Option<Utf8>,
    subplanName: Option<Utf8>,
    subplansRemoved: u64,
    workersLaunched: Option<i64>,
    neverExecuted: bool,
    instrumentationIncomplete: bool,
    startupCost: f64,
    totalCost: f64,
    rows: f64,
    widthBytes: i32,
    parallelAware: bool,
    parallelSafe: bool,
    asyncCapable: bool,
    instrStartupTimeNs: i64,
    instrTotalTimeNs: i64,
    instrRows: f64,
    instrSecondaryRows: f64,
    instrLoops: f64,
    instrRowsRemovedByScanOrJoinFilter: f64,
    instrRowsRemovedByOtherFilter: f64)

  datatype SpanAttributes = Query(query: QueryAttributes) | PlanNode(node: PlanNodeAttributes)

  datatype SpanRecord = SpanRecord(
    traceId: TraceId,
    spanId: SpanId,
    parentId: SpanId,
    name: Utf8,
    startTime: Time,
    endTime: Time,
    attributes: SpanAttributes)
}
