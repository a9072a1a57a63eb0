/**
 The codec as it runs: put-methods that append to a byte vector and a reader that consumes one,
 proved against `Codec.SpanBytes` and `Codec.ParseSpan`; and whole batches of spans.
 */
module SpanIo {
  import opened Bytes
  import opened Codec
  import opened Span
  import opened Wire
  import opened Wrappers

  /**
   The vector an encoder appends to. Ghost state: the values it is to hold from `base` on, and how
   many of them have been put.
   */
  class Writer {
    var bytes: seq<byte>
    ghost var base: seq<byte>
    ghost var goal: seq<Value>
    ghost var n: nat

    ghost predicate Valid()
      reads this
    {
      n <= |goal| && bytes == base + EncAll(goal[..n])
    }

    /** `v` is the next value to put. */
    ghost predicate Next(v: Value)
      reads this
    {
      Valid() && n < |goal| && goal[n] == v
    }

    constructor ()
      ensures bytes == []
    {
      bytes := [];
    }

    ghost method Begin(values: seq<Value>)
      modifies this`base, this`goal, this`n
      ensures Valid() && base == bytes && goal == values && n == 0
    {
      base, goal, n := bytes, values, 0;
    }

    /** Everything is put. */
    lemma Finished()
      requires Valid() && n == |goal|
      ensures bytes == base + EncAll(goal)
    {
      assert goal[..n] == goal;
    }

    method Put(src: seq<byte>)
      requires Valid() && n < |goal| && src == Enc(goal[n])
      modifies this`bytes, this`n
      ensures Valid() && n == old(n) + 1
    {
      EncAllNext(goal, n);
      assert base + (EncAll(goal[..n]) + src) == (base + EncAll(goal[..n])) + src;
      bytes := bytes + src;
      n := n + 1;
    }

    method PutBool(value: bool)
      requires Next(FlagV(value))
      modifies this`bytes, this`n
      ensures Valid() && n == old(n) + 1
    {
      Put([if value then 1 else 0]);
    }

    method PutArray(value: seq<byte>)
      requires Next(RawV(value))
      modifies this`bytes, this`n
      ensures Valid() && n == old(n) + 1
    {
      Put(value);
    }

    method PutSigned(value: i64)
      requires Next(RawV(PutI64(value)))
      modifies this`bytes, this`n
      ensures Valid() && n == old(n) + 1
    {
      Put(ToLE(if value < 0 then value + 0x1_0000_0000_0000_0000 else value, 8));
    }

    method PutUnsigned(value: u64)
      requires Next(RawV(PutU64(value)))
      modifies this`bytes, this`n
      ensures Valid() && n == old(n) + 1
    {
      Put(ToLE(value, 8));
    }

    method PutOptSigned(value: Option<i64>)
      requires Next(OptRawV(if value.Some? then Some(PutI64(value.value)) else None))
      modifies this`bytes, this`n
      ensures Valid() && n == old(n) + 1
    {
      match value {
        case Some(v) => Put([1] + PutI64(v));
        case None => Put([0]);
      }
    }

    method PutTime(time: Time)
      requires Next(RawV(Codec.PutTime(time)))
      modifies this`bytes, this`n
      ensures Valid() && n == old(n) + 1
    {
      var nanos := if time < 0 then 0 else time;
      var saturated := if nanos <= U64_MAX then nanos else U64_MAX;
      Put(ToLE(saturated, 8));
    }

    method PutStr(value: Utf8)
      requires Next(TextV(value))
      modifies this`bytes, this`n
      ensures Valid() && n == old(n) + 1
    {
      var len := if |value| <= U32_MAX then |value| else U32_MAX;
      Put(ToLE(len, 4) + value[..len]);
    }

    method PutOptStr(value: Option<Utf8>)
      requires Next(OptTextV(value))
      modifies this`bytes, this`n
      ensures Valid() && n == old(n) + 1
    {
      match value {
        case Some(text) =>
          var len := if |text| <= U32_MAX then |text| else U32_MAX;
          Put([1] + (ToLE(len, 4) + text[..len]));
        case None => Put([0]);
      }
    }
  }

  method EncodeQuery(query: QueryAttributes, out: Writer)
    modifies out
    ensures out.bytes == old(out.bytes) + EncAll(QueryValues(query))
  {
    out.Begin(QueryValues(query));
    out.PutBool(query.parentIsRemote);
    out.PutStr(query.operation);
    out.PutOptStr(query.queryText);
    out.PutSigned(query.queryId);
    out.PutSigned(query.execTotalTimeNs);
    out.PutUnsigned(query.planSpansOmitted);
    out.Finished();
  }

  // The 22 fields of a plan node are put and read in the program's order, in four runs of fields.

  method EncodeNodeNames(node: PlanNodeAttributes, out: Writer)
    modifies out
    ensures out.bytes == old(out.bytes) + EncAll(NameValues(node))
  {
    out.Begin(NameValues(node));
    out.PutStr(node.nodeType);
    out.PutOptStr(node.relation);
    out.PutOptStr(node.parentRelationship);
    out.PutOptStr(node.subplanName);
    out.Finished();
  }

  method EncodeNodeCounts(node: PlanNodeAttributes, out: Writer)
    modifies out
    ensures out.bytes == old(out.bytes) + EncAll(CountValues(node))
  {
    out.Begin(CountValues(node));
    out.PutUnsigned(node.subplansRemoved);
    out.PutOptSigned(node.workersLaunched);
    out.PutBool(node.neverExecuted);
    out.PutBool(node.instrumentationIncomplete);
    out.Finished();
  }

  method EncodeNodeEstimates(node: PlanNodeAttributes, out: Writer)
    modifies out
    ensures out.bytes == old(out.bytes) + EncAll(EstimateValues(node))
  {
    out.Begin(EstimateValues(node));
    out.PutArray(node.startupCost);
    out.PutArray(node.totalCost);
    out.PutArray(node.rows);
    out.PutArray(PutI32(node.widthBytes));
    out.PutBool(node.parallelAware);
    out.PutBool(node.parallelSafe);
    out.PutBool(node.asyncCapable);
    out.Finished();
  }

  method EncodeNodeMeasurements(node: PlanNodeAttributes, out: Writer)
    modifies out
    ensures out.bytes == old(out.bytes) + EncAll(MeasurementValues(node))
  {
    out.Begin(MeasurementValues(node));
    out.PutSigned(node.instrStartupTimeNs);
    out.PutSigned(node.instrTotalTimeNs);
    out.PutArray(node.instrRows);
    out.PutArray(node.instrSecondaryRows);
    out.PutArray(node.instrLoops);
    out.PutArray(node.instrRowsRemovedByScanOrJoinFilter);
    out.PutArray(node.instrRowsRemovedByOtherFilter);
    out.Finished();
  }

  method EncodePlanNode(node: PlanNodeAttributes, out: Writer)
    modifies out
    ensures out.bytes == old(out.bytes) + EncAll(PlanNodeValues(node))
  {
    EncodeNodeNames(node, out);
    EncodeNodeCounts(node, out);
    EncodeNodeEstimates(node, out);
    EncodeNodeMeasurements(node, out);
    EncodedInRuns(old(out.bytes), NameValues(node), CountValues(node), EstimateValues(node), MeasurementValues(node));
  }

  lemma Reassociate(base: seq<byte>, a: seq<byte>, b: seq<byte>, c: seq<byte>, d: seq<byte>)
    ensures (((base + a) + b) + c) + d == base + ((a + b) + (c + d))
  {
  }

  lemma EncodedInRuns(base: seq<byte>, a: seq<Value>, b: seq<Value>, c: seq<Value>, d: seq<Value>)
    ensures (((base + EncAll(a)) + EncAll(b)) + EncAll(c)) + EncAll(d) == base + EncAll((a + b) + (c + d))
  {
    EncAllConcat(a, b);
    EncAllConcat(c, d);
    EncAllConcat(a + b, c + d);
    Reassociate(base, EncAll(a), EncAll(b), EncAll(c), EncAll(d));
  }

  method EncodeHeader(span: SpanRecord, out: Writer)
    modifies out
    ensures out.bytes == old(out.bytes) + EncAll(HeaderValues(span))
  {
    out.Begin(HeaderValues(span));
    out.PutArray([if span.attributes.Query? then KIND_QUERY else KIND_PLAN_NODE]);
    out.PutArray(span.traceId);
    out.PutArray(span.spanId);
    out.PutArray(span.parentId);
    out.PutTime(span.startTime);
    out.PutTime(span.endTime);
    out.PutStr(span.name);
    out.Finished();
  }

  lemma Appended(base: seq<byte>, a: seq<byte>, b: seq<byte>, c: seq<byte>)
    ensures ((base + a) + b) + c == base + (a + (b + c))
  {
  }

  /** Appends the encoding of `span` to `out`. */
  method EncodeSpan(span: SpanRecord, out: Writer)
    modifies out
    ensures out.bytes == old(out.bytes) + SpanBytes(span)
  {
    out.bytes := out.bytes + [FORMAT_VERSION];
    EncodeHeader(span, out);
    match span.attributes {
      case Query(query) => EncodeQuery(query, out);
      case PlanNode(node) => EncodePlanNode(node, out);
    }
    Appended(old(out.bytes), [FORMAT_VERSION], EncAll(HeaderValues(span)), EncAll(BodyValues(span.attributes)));
  }

  /**
   The reader. Ghost state: the schema being read, the bytes it started from, and the values read so
   far; `Valid` says that finishing from here amounts to decoding the whole schema from the start.
   */
  class Reader {
    var rest: seq<byte>
    ghost var schema: seq<Type>
    ghost var start: seq<byte>
    ghost var values: seq<Value>

    ghost predicate Valid()
      reads this
    {
      |values| <= |schema| && DecAll(schema, start) == Resume(schema, |values|, values, rest)
    }

    ghost predicate Expects(ty: Type)
      reads this
    {
      Valid() && |values| < |schema| && schema[|values|] == ty
    }

    /** If the whole schema decodes, its `k`-th value is `v`. */
    ghost predicate Decodes(k: nat, v: Value)
      reads this`schema, this`start
    {
      DecAll(schema, start).Ok? ==> k < |schema| && DecAll(schema, start).value.0[k] == v
    }

    constructor (bytes: seq<byte>)
      ensures rest == bytes
    {
      rest := bytes;
    }

    ghost method Begin(tys: seq<Type>)
      modifies this`schema, this`start, this`values
      ensures Valid() && schema == tys && start == rest && values == []
    {
      schema, start, values := tys, rest, [];
      assert tys[0..] == tys;
      if DecAll(tys, rest).Ok? {
        assert [] + DecAll(tys, rest).value.0 == DecAll(tys, rest).value.0;
      }
    }

    /** All values of the schema are read. */
    lemma Finished()
      requires Valid() && |values| == |schema|
      ensures DecAll(schema, start) == Ok((values, rest)) && HasTypes(values, schema)
    {
      assert schema[|values|..] == [] && values + [] == values;
      IsCanonical(schema, start);
    }

    method Take(len: nat) returns (r: Result<seq<byte>, DecodeError>)
      modifies this`rest
      ensures Wire.Take(len, old(rest)) == if r.Ok? then Ok((r.value, rest)) else Err(r.error)
    {
      if len > |rest| {
        return Err(Truncated);
      }
      var taken := rest[..len];
      rest := rest[len..];
      return Ok(taken);
    }

    /** Records that the next value of the schema was read (or that reading it failed). */
    ghost method Read(before: seq<byte>, r: Result<Value, DecodeError>)
      requires |values| < |schema| && DecAll(schema, start) == Resume(schema, |values|, values, before)
      requires Dec(schema[|values|], before) == if r.Ok? then Ok((r.value, rest)) else Err(r.error)
      modifies this`values
      ensures r.Ok? ==> Valid() && |values| == |old(values)| + 1 && Decodes(|old(values)|, r.value)
      ensures r.Err? ==> DecAll(schema, start) == Err(r.error)
    {
      ResumeStep(schema, |values|, values, before);
      if r.Ok? {
        values := values + [r.value];
      }
    }

    method Array(len: nat) returns (r: Result<seq<byte>, DecodeError>)
      requires Expects(Raw(len))
      modifies this`rest, this`values
      ensures r.Ok? ==> Valid() && |values| == |old(values)| + 1 && Decodes(|old(values)|, RawV(r.value)) && |r.value| == len
      ensures r.Err? ==> DecAll(schema, start) == Err(r.error)
    {
      ghost var before := rest;
      r := Take(len);
      Read(before, if r.Ok? then Ok(RawV(r.value)) else Err(r.error));
    }

    method Bool() returns (r: Result<bool, DecodeError>)
      requires Expects(Flag)
      modifies this`rest, this`values
      ensures r.Ok? ==> Valid() && |values| == |old(values)| + 1 && Decodes(|old(values)|, FlagV(r.value))
      ensures r.Err? ==> DecAll(schema, start) == Err(r.error)
    {
      ghost var before := rest;
      var tag := Take(1);
      r := match tag
        case Err(e) => Err(e)
        case Ok(t) => if t[0] == 0 then Ok(false) else if t[0] == 1 then Ok(true) else Err(UnknownTag(t[0]));
      Read(before, if r.Ok? then Ok(FlagV(r.value)) else Err(r.error));
    }

    method OptArray(len: nat) returns (r: Result<Option<seq<byte>>, DecodeError>)
      requires Expects(OptRaw(len))
      modifies this`rest, this`values
      ensures r.Ok? ==> Valid() && |values| == |old(values)| + 1 && Decodes(|old(values)|, OptRawV(r.value)) && (r.value.Some? ==> |r.value.value| == len)
      ensures r.Err? ==> DecAll(schema, start) == Err(r.error)
    {
      ghost var before := rest;
      var tag := Take(1);
      if tag.Err? {
        r := Err(tag.error);
      } else if tag.value[0] == 0 {
        r := Ok(None);
      } else if tag.value[0] == 1 {
        var body := Take(len);
        r := if body.Ok? then Ok(Some(body.value)) else Err(body.error);
      } else {
        r := Err(UnknownTag(tag.value[0]));
      }
      Read(before, if r.Ok? then Ok(OptRawV(r.value)) else Err(r.error));
    }

    /** The bytes of a string: its length, then that many bytes, which must be UTF-8. */
    method TakeText() returns (r: Result<Utf8, DecodeError>)
      modifies this`rest
      ensures DecText(old(rest)) == if r.Ok? then Ok((r.value, rest)) else Err(r.error)
    {
      var prefix :- Take(4);
      var text :- Take(FromLE(prefix));
      if !ValidUtf8(text) {
        return Err(InvalidUtf8);
      }
      return Ok(text);
    }

    method Str() returns (r: Result<Utf8, DecodeError>)
      requires Expects(Text)
      modifies this`rest, this`values
      ensures r.Ok? ==> Valid() && |values| == |old(values)| + 1 && Decodes(|old(values)|, TextV(r.value))
      ensures r.Err? ==> DecAll(schema, start) == Err(r.error)
    {
      ghost var before := rest;
      r := TakeText();
      Read(before, if r.Ok? then Ok(TextV(r.value)) else Err(r.error));
    }

    method OptStr() returns (r: Result<Option<Utf8>, DecodeError>)
      requires Expects(OptText)
      modifies this`rest, this`values
      ensures r.Ok? ==> Valid() && |values| == |old(values)| + 1 && Decodes(|old(values)|, OptTextV(r.value))
      ensures r.Err? ==> DecAll(schema, start) == Err(r.error)
    {
      ghost var before := rest;
      var tag := Take(1);
      if tag.Err? {
        r := Err(tag.error);
      } else if tag.value[0] == 0 {
        r := Ok(None);
      } else if tag.value[0] == 1 {
        var text := TakeText();
        r := if text.Ok? then Ok(Some(text.value)) else Err(text.error);
      } else {
        r := Err(UnknownTag(tag.value[0]));
      }
      Read(before, if r.Ok? then Ok(OptTextV(r.value)) else Err(r.error));
    }
  }
  /** The result of reading a schema: its values and the bytes left, or the error. */
  ghost predicate ReadAs<T>(tys: seq<Type>, before: seq<byte>, r: Result<T, DecodeError>, after: seq<byte>) {
    var d := DecAll(tys, before);
    if r.Ok? then d.Ok? && HasTypes(d.value.0, tys) && d.value.1 == after else d == Err(r.error)
  }

  method DecodeQuery(reader: Reader) returns (r: Result<QueryAttributes, DecodeError>)
    modifies reader
    ensures ReadAs(QUERY, old(reader.rest), r, reader.rest)
    ensures r.Ok? ==> r.value == QueryOf(DecAll(QUERY, old(reader.rest)).value.0)
  {
    reader.Begin(QUERY);
    var parentIsRemote :- reader.Bool();
    var operation :- reader.Str();
    var queryText :- reader.OptStr();
    var queryId :- reader.Array(8);
    var execTotalTimeNs :- reader.Array(8);
    var planSpansOmitted :- reader.Array(8);
    reader.Finished();
    return Ok(QueryAttributes(parentIsRemote, operation, queryText, GetI64(queryId), GetI64(execTotalTimeNs),
                              GetU64(planSpansOmitted)));
  }

  datatype NodeNames = NodeNames(
    nodeType: Utf8, relation: Option<Utf8>, parentRelationship: Option<Utf8>, subplanName: Option<Utf8>)

  datatype NodeCounts = NodeCounts(
    subplansRemoved: Bytes8, workersLaunched: Option<Bytes8>, neverExecuted: bool, instrumentationIncomplete: bool)

  datatype NodeEstimates = NodeEstimates(
    startupCost: f64, totalCost: f64, rows: f64, widthBytes: Bytes4,
    parallelAware: bool, parallelSafe: bool, asyncCapable: bool)

  datatype NodeMeasurements = NodeMeasurements(
    startupTimeNs: Bytes8, totalTimeNs: Bytes8, rows: f64, secondaryRows: f64, loops: f64,
    removedByScanOrJoinFilter: f64, removedByOtherFilter: f64)

  ghost function NamesOf(vs: seq<Value>): NodeNames
    requires HasTypes(vs, NODE_NAMES)
  {
    NodeNames(vs[0].text, vs[1].optText, vs[2].optText, vs[3].optText)
  }

  ghost function CountsOf(vs: seq<Value>): NodeCounts
    requires HasTypes(vs, NODE_COUNTS)
  {
    NodeCounts(vs[0].bytes, if vs[1].optBytes.Some? then Some(vs[1].optBytes.value) else None, vs[2].flag, vs[3].flag)
  }

  ghost function EstimatesOf(vs: seq<Value>): NodeEstimates
    requires HasTypes(vs, NODE_ESTIMATES)
  {
    NodeEstimates(vs[0].bytes, vs[1].bytes, vs[2].bytes, vs[3].bytes, vs[4].flag, vs[5].flag, vs[6].flag)
  }

  ghost function MeasurementsOf(vs: seq<Value>): NodeMeasurements
    requires HasTypes(vs, NODE_MEASUREMENTS)
  {
    NodeMeasurements(vs[0].bytes, vs[1].bytes, vs[2].bytes, vs[3].bytes, vs[4].bytes, vs[5].bytes, vs[6].bytes)
  }

  method DecodeNodeNames(reader: Reader) returns (r: Result<NodeNames, DecodeError>)
    modifies reader
    ensures ReadAs(NODE_NAMES, old(reader.rest), r, reader.rest)
    ensures r.Ok? ==> r.value == NamesOf(DecAll(NODE_NAMES, old(reader.rest)).value.0)
  {
    reader.Begin(NODE_NAMES);
    var nodeType :- reader.Str();
    var relation :- reader.OptStr();
    var parentRelationship :- reader.OptStr();
    var subplanName :- reader.OptStr();
    reader.Finished();
    return Ok(NodeNames(nodeType, relation, parentRelationship, subplanName));
  }

  method DecodeNodeCounts(reader: Reader) returns (r: Result<NodeCounts, DecodeError>)
    modifies reader
    ensures ReadAs(NODE_COUNTS, old(reader.rest), r, reader.rest)
    ensures r.Ok? ==> r.value == CountsOf(DecAll(NODE_COUNTS, old(reader.rest)).value.0)
  {
    reader.Begin(NODE_COUNTS);
    var subplansRemoved :- reader.Array(8);
    var workersLaunched :- reader.OptArray(8);
    var neverExecuted :- reader.Bool();
    var instrumentationIncomplete :- reader.Bool();
    reader.Finished();
    return Ok(NodeCounts(subplansRemoved, workersLaunched, neverExecuted, instrumentationIncomplete));
  }

  method DecodeNodeEstimates(reader: Reader) returns (r: Result<NodeEstimates, DecodeError>)
    modifies reader
    ensures ReadAs(NODE_ESTIMATES, old(reader.rest), r, reader.rest)
    ensures r.Ok? ==> r.value == EstimatesOf(DecAll(NODE_ESTIMATES, old(reader.rest)).value.0)
  {
    reader.Begin(NODE_ESTIMATES);
    var startupCost :- reader.Array(8);
    var totalCost :- reader.Array(8);
    var rows :- reader.Array(8);
    var widthBytes :- reader.Array(4);
    var parallelAware :- reader.Bool();
    var parallelSafe :- reader.Bool();
    var asyncCapable :- reader.Bool();
    reader.Finished();
    return Ok(NodeEstimates(startupCost, totalCost, rows, widthBytes, parallelAware, parallelSafe, asyncCapable));
  }

  method DecodeNodeMeasurements(reader: Reader) returns (r: Result<NodeMeasurements, DecodeError>)
    modifies reader
    ensures ReadAs(NODE_MEASUREMENTS, old(reader.rest), r, reader.rest)
    ensures r.Ok? ==> r.value == MeasurementsOf(DecAll(NODE_MEASUREMENTS, old(reader.rest)).value.0)
  {
    reader.Begin(NODE_MEASUREMENTS);
    var startupTimeNs :- reader.Array(8);
    var totalTimeNs :- reader.Array(8);
    var rows :- reader.Array(8);
    var secondaryRows :- reader.Array(8);
    var loops :- reader.Array(8);
    var removedByScanOrJoinFilter :- reader.Array(8);
    var removedByOtherFilter :- reader.Array(8);
    reader.Finished();
    return Ok(NodeMeasurements(startupTimeNs, totalTimeNs, rows, secondaryRows, loops, removedByScanOrJoinFilter,
                               removedByOtherFilter));
  }

  function NodeFrom(a: NodeNames, c: NodeCounts, e: NodeEstimates, m: NodeMeasurements): PlanNodeAttributes {
    PlanNodeAttributes(
      a.nodeType, a.relation, a.parentRelationship, a.subplanName, GetU64(c.subplansRemoved),
      if c.workersLaunched.Some? then Some(GetI64(c.workersLaunched.value)) else None,
      c.neverExecuted, c.instrumentationIncomplete,
      e.startupCost, e.totalCost, e.rows, GetI32(e.widthBytes), e.parallelAware, e.parallelSafe, e.asyncCapable,
      GetI64(m.startupTimeNs), GetI64(m.totalTimeNs), m.rows, m.secondaryRows, m.loops,
      m.removedByScanOrJoinFilter, m.removedByOtherFilter)
  }

  lemma NodeOfRuns(a: seq<Value>, c: seq<Value>, e: seq<Value>, m: seq<Value>)
    requires HasTypes(a, NODE_NAMES) && HasTypes(c, NODE_COUNTS)
    requires HasTypes(e, NODE_ESTIMATES) && HasTypes(m, NODE_MEASUREMENTS)
    ensures HasTypes((a + c) + (e + m), PLAN_NODE)
    ensures PlanNodeOf((a + c) + (e + m)) == NodeFrom(NamesOf(a), CountsOf(c), EstimatesOf(e), MeasurementsOf(m))
  {
    HasTypesConcat(a, c, NODE_NAMES, NODE_COUNTS);
    HasTypesConcat(e, m, NODE_ESTIMATES, NODE_MEASUREMENTS);
    HasTypesConcat(a + c, e + m, NODE_NAMES + NODE_COUNTS, NODE_ESTIMATES + NODE_MEASUREMENTS);
  }

  lemma DecAllInRuns(ta: seq<Type>, tb: seq<Type>, tc: seq<Type>, td: seq<Type>, bytes: seq<byte>)
    ensures var a := DecAll(ta, bytes);
            var d := DecAll((ta + tb) + (tc + td), bytes);
            if a.Err? then d == Err(a.error)
            else
              var b := DecAll(tb, a.value.1);
              if b.Err? then d == Err(b.error)
              else
                var c := DecAll(tc, b.value.1);
                if c.Err? then d == Err(c.error)
                else
                  var e := DecAll(td, c.value.1);
                  if e.Err? then d == Err(e.error)
                  else d == Ok(((a.value.0 + b.value.0) + (c.value.0 + e.value.0), e.value.1))
  {
    DecAllConcat(ta + tb, tc + td, bytes);
    DecAllConcat(ta, tb, bytes);
    if DecAll(ta + tb, bytes).Ok? {
      DecAllConcat(tc, td, DecAll(ta + tb, bytes).value.1);
    }
  }

  method DecodePlanNode(reader: Reader) returns (r: Result<PlanNodeAttributes, DecodeError>)
    modifies reader
    ensures ReadAs(PLAN_NODE, old(reader.rest), r, reader.rest)
    ensures r.Ok? ==> r.value == PlanNodeOf(DecAll(PLAN_NODE, old(reader.rest)).value.0)
  {
    DecAllInRuns(NODE_NAMES, NODE_COUNTS, NODE_ESTIMATES, NODE_MEASUREMENTS, reader.rest);
    ghost var b0 := reader.rest;
    var names :- DecodeNodeNames(reader);
    ghost var b1 := reader.rest;
    var counts :- DecodeNodeCounts(reader);
    ghost var b2 := reader.rest;
    var estimates :- DecodeNodeEstimates(reader);
    ghost var b3 := reader.rest;
    var measurements :- DecodeNodeMeasurements(reader);
    NodeOfRuns(DecAll(NODE_NAMES, b0).value.0, DecAll(NODE_COUNTS, b1).value.0, DecAll(NODE_ESTIMATES, b2).value.0,
               DecAll(NODE_MEASUREMENTS, b3).value.0);
    return Ok(NodeFrom(names, counts, estimates, measurements));
  }

  datatype Header = Header(kind: byte, traceId: TraceId, spanId: SpanId, parentId: SpanId, startTime: Time, endTime: Time, name: Utf8)

  ghost function HeaderOf(h: seq<Value>): Header
    requires HasTypes(h, HEADER)
  {
    Header(h[0].bytes[0], h[1].bytes, h[2].bytes, h[3].bytes, GetU64(h[4].bytes), GetU64(h[5].bytes), h[6].text)
  }

  method DecodeHeader(reader: Reader) returns (r: Result<Header, DecodeError>)
    modifies reader
    ensures ReadAs(HEADER, old(reader.rest), r, reader.rest)
    ensures r.Ok? ==> r.value == HeaderOf(DecAll(HEADER, old(reader.rest)).value.0)
  {
    reader.Begin(HEADER);
    var kind :- reader.Array(1);
    var traceId :- reader.Array(16);
    var spanId :- reader.Array(8);
    var parentId :- reader.Array(8);
    var startTime :- reader.Array(8);
    var endTime :- reader.Array(8);
    var name :- reader.Str();
    reader.Finished();
    return Ok(Header(kind[0], traceId, spanId, parentId, GetU64(startTime), GetU64(endTime), name));
  }

  method DecodeAttributes(kind: byte, reader: Reader) returns (r: Result<SpanAttributes, DecodeError>)
    modifies reader
    ensures !IsKind(kind) ==> r == Err(UnknownTag(kind))
    ensures IsKind(kind) ==> ReadAs(Body(kind), old(reader.rest), r, reader.rest)
    ensures IsKind(kind) && r.Ok? ==> r.value == AttributesOf(kind, DecAll(Body(kind), old(reader.rest)).value.0)
  {
    if kind == KIND_QUERY {
      var query :- DecodeQuery(reader);
      return Ok(Query(query));
    } else if kind == KIND_PLAN_NODE {
      var node :- DecodePlanNode(reader);
      return Ok(PlanNode(node));
    } else {
      return Err(UnknownTag(kind));
    }
  }

  /** Decodes one record. */
  method DecodeSpan(bytes: seq<byte>) returns (r: Result<SpanRecord, DecodeError>)
    ensures r == ParseSpan(bytes)
  {
    var reader := new Reader(bytes);
    var version :- reader.Take(1);
    if version[0] != FORMAT_VERSION {
      return Err(UnknownTag(version[0]));
    }
    var h :- DecodeHeader(reader);
    var attributes :- DecodeAttributes(h.kind, reader);
    if reader.rest != [] {
      return Err(TrailingBytes);
    }
    return Ok(SpanRecord(h.traceId, h.spanId, h.parentId, h.name, h.startTime, h.endTime, attributes));
  }
}
