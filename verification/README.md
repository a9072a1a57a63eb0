# pg_otel in Dafny

pg_otel turns every traced Postgres statement into spans and ships them from many backends to one
exporter worker through a byte ring in shared memory. This project models the parts of it that carry
the guarantees, and proves them for all inputs, all runs and all interleavings:

- **The queue** (`Framing`, `Queue`, `Fifo`): a wrap-around ring of length-prefixed records. `Queue.Ring`
  copies in place on an array; it is proved against a specification on the queued bytes, which in turn
  refines a FIFO of payloads on every run and repairs itself from arbitrary corruption.
- **The span codec** (`Span`, `Wire`, `Codec`, `Layout`, `SpanIo`): a schema language for tagged, length-prefixed
  values, proved self-delimiting and canonical; the span format is an instance of it, and the writer and
  reader methods are proved against it.
- **Delivery and the protocol** (`Delivery`, `Store`, `Worker`, `Shared`, `Protocol`, `Wakes`, `Shutdown`): many producers, one
  sleeping consumer. Each step of `publish`, of the worker loop and of the signal handlers is a step of a
  transition system; the critical sections use the same functions that the ring is proved against.
- **Statement rendering** (`SelectLists`, `Sanitize`, `Renderer`, `Masking`, `Numbering`, `RenderLaws`): SELECT-list compaction and
  literal masking over an arbitrary token sequence.
- **The plan walk** (`PlanTree`, `ChildPlans`, `SubplanSharing`, `VisitingOrder`, `PlanWalk`, `WalkFacts`, `PlanSpans`, `Traces`): the
  capped depth-first walk of a plan whose sub-plans may be shared or cyclic, and the tree of spans it yields.
- **Trace context in comments** (`Comments`, `KeyValues`, `Lossy`, `Characters`) and **tick conversion** (`Ticks`).

`Bytes` (little-endian numbers, UTF-8 after section 4 of RFC 3629) and `Wrappers` (options, results and small
sequence lemmas) serve all of them. Text is held as its UTF-8 bytes. A method that works step by step is
proved equal to a specification function; the lemmas then say what that function guarantees, on the
bytes, positions, ids and times themselves.

Assumptions: the 64-bit byte counters never wrap (src/queue.rs:11-12 assumes so, too); a critical section is
one atomic step; drawn span ids are fresh; run times are not negative (src/compat/pg19.rs:113 sees to that).

## Model

| member | source | states |
|---|---|---|
| Framing.SplitOfFrame | src/queue.rs:289-301 | splitting a record off a stream gives back its payload and the rest of the stream |
| Framing.SplitIsFrame | src/queue.rs:289-301 | whatever splits off arbitrary bytes was a well-formed record, followed by the rest |
| Framing.ItemsOfFrames | src/queue.rs:265-287 | iterating over a stream of records yields exactly their payloads, in order, and no error |
| Framing.FramesInjective | src/queue.rs:1-22 | a record stream determines its payloads |
| Framing.FrameLayout | src/queue.rs:86-89 | a record is four bytes of length, the least significant first, and the payload |
| Framing.TakeIsLongest | src/queue.rs:173-178 | the number of records taken is the largest one within the budget, or one if the first alone exceeds it |
| Framing.MeasureOfFrames | src/queue.rs:200-224 | measuring whole records ends at exactly the longest acceptable prefix and never reports corruption |
| Framing.MeasuredPrefixIsFrames | src/queue.rs:200-224 | on arbitrary bytes, a measured prefix is a stream of exactly the reported number of records |
| Queue.SlotWraps | src/queue.rs:232-260 | within one capacity a byte's place follows its predecessor or wraps once to the start |
| Queue.WindowAfterWrite | src/queue.rs:232-241 | writing behind the queued bytes appends to them and changes none of them, wherever the end of the slice falls |
| Queue.MeasureStep | src/queue.rs:203-221 | one step of the measurement depends only on the length prefix at the current counter, prefixes across the end included |
| Queue.Batch.PushRecord | src/queue.rs:79-92 | a record of at most 65536 bytes is appended with its prefix; a larger one leaves the batch as it was |
| Queue.Ring.PushBatch | src/queue.rs:159-171 | in any state, the queued bytes become old plus batch exactly if that fits the free space; otherwise they stay; inconsistent positions count as empty |
| Queue.Ring.DrainInto | src/queue.rs:179-198 | in any state, moves the measured prefix to the caller's vector; on corruption the vector is untouched and the ring is empty |
| Queue.Ring.MeasureDrain | src/queue.rs:200-224 | the loop over the counters computes the measurement of the queued bytes and terminates on any contents |
| Queue.Ring.CopyIn | src/queue.rs:232-241 | every source byte lands in its slot, and no other slot changes |
| Queue.Ring.CopyOut | src/queue.rs:243-247 | the vector grows by the ring's bytes from that counter on |
| Queue.Ring.CopyOutSlice | src/queue.rs:249-260 | the destination holds the ring's bytes from that counter on, across the end of the slice |
| Queue.Ring.ReadLen | src/queue.rs:226-230 | the length prefix at a counter, also where it straddles the end |
| Queue.Records.Next | src/queue.rs:273-287 | yields the items of the stream one by one and ends after the first corrupt one |
| Fifo.DrainRefines | src/queue.rs:173-198 | a drain hands over the longest acceptable prefix of the queued payloads and leaves the others |
| Fifo.DrainBudget | src/queue.rs:173-178 | at least one record is drained if any is queued; more than one only within the budget; one more would exceed it |
| Fifo.StepRefines | src/queue.rs:159-224 | one operation on the ring's bytes answers as the operation on a FIFO of payloads |
| Fifo.RunRefines | src/queue.rs:159-260 | for any capacity and any sequence of pushes and drains the ring answers as the FIFO; corruption is never reported |
| Fifo.RunConserves | src/queue.rs:1-22 | everything drained, then everything queued, is everything accepted, in order |
| Fifo.DrainOfAnything | src/queue.rs:146-224 | self-stabilisation: from arbitrary positions and bytes a drain hands over exactly the reported number of well-formed records, or nothing and leaves an empty ring |
| Fifo.RunConverges | src/queue.rs:146-224 | on any run from arbitrary positions and bytes corruption is reported at most once, and from then on the ring answers as the FIFO that starts empty |
| Wire.RoundTrips | src/codec.rs:205-326 | decoding the encoding of well-typed values gives the values and what followed them |
| Wire.IsCanonical | src/codec.rs:257-326 | accepted bytes are the encoding of what was decoded from them, followed by what is left |
| Wire.PrefixTruncated | src/codec.rs:261-269 | every strict prefix of an encoding decodes to `Truncated` |
| Codec.EncodeThenDecode | src/codec.rs:51-134 | decoding an encoded span gives the span, with times before the epoch or beyond 64 bits moved to the nearest representable one, if its strings have 32-bit lengths |
| Codec.DecodeThenEncode | src/codec.rs:104-172 | any accepted byte string is the encoding of the span decoded from it |
| Codec.RoundTripsIffRepresentable | src/codec.rs:51-134 | a span with 32-bit string lengths comes back unchanged exactly if its times are within the 64-bit nanosecond range |
| Codec.StrictPrefixIsTruncated | src/codec.rs:104-134 | every strict prefix of an encoded span decodes to `Truncated` |
| Codec.ExtensionHasTrailingBytes | src/codec.rs:128-133 | every proper extension of an encoded span decodes to `TrailingBytes` |
| Layout.SpanLayout | src/codec.rs:51-102 | the encoded bytes, field by field in source order: version 2, kind, ids, times, texts with their lengths, flags, little-endian two's complement numbers |
| SpanIo.EncodeSpan | src/codec.rs:51-102 | appends exactly the encoding of the span, field by field |
| SpanIo.DecodeSpan | src/codec.rs:104-172 | the reader accepts what the format says, with its results and its errors |
| SpanIo.EncodeQuery | src/codec.rs:69-76 | appends the encoding of the query attributes |
| SpanIo.EncodePlanNode | src/codec.rs:78-102 | appends the encoding of the plan-node attributes |
| SpanIo.DecodeQuery | src/codec.rs:136-145 | reads what the format of query attributes says, with its errors |
| SpanIo.DecodePlanNode | src/codec.rs:147-172 | reads what the format of plan-node attributes says, with its errors |
| SpanIo.Reader.TakeText | src/codec.rs:313-317 | a string is read only if complete and valid UTF-8; otherwise the first error in reading order |
| Delivery.EncodeBatch | src/codec.rs:176-186 | the batch holds the encodings of the spans that fit a record, in order; all others are counted as skipped |
| Delivery.DecodeRecords | src/codec.rs:190-203 | the spans of the decodable records in order, and the number of all other items |
| Delivery.PayloadsDecode | src/codec.rs:176-203 | decoding an encoded batch gives its spans that fit, clamped, and counts nothing as undecodable |
| Delivery.CutsDoNotMatter | src/codec.rs:190-203 | however a stream of records is cut into chunks, decoding them one by one is decoding the stream |
| Store.PushKeepsConsistent | src/shared.rs:214-237 | a push keeps: drained then queued payloads are the encoded accepted batches, in lock order |
| Store.TakeKeepsConsistent | src/worker.rs:343-360 | so does taking a chunk, for every budget |
| Store.NoSpansIffEmpty | src/worker.rs:296-301 | of an uncorrupted queue, a chunk has no spans exactly if nothing was queued, so stopping there is right |
| Wakes.PushDecides | src/shared.rs:219-224 | a push is accepted exactly if it fits; an accepted one decides to wake exactly if the queue was empty or it takes the fill from below half the capacity to half or more |
| Wakes.WakesOfRun | src/queue.rs:304-312 | over a run of accepted pushes from an empty queue without a drain, exactly the first one and the one that crosses half the capacity decide to wake |
| Wakes.CrossesOnce | src/queue.rs:304-312 | at most one push of such a run crosses half the capacity |
| Wakes.PushOwes | src/shared.rs:219-236 | after its push a producer owes a wake exactly in those cases, and a drop count exactly if it was rejected |
| Worker.ActPreserves | src/worker.rs:77-98 | each action of the worker loop, of `wait_latch` and of the signal handlers keeps the wake-up invariant |
| Worker.TookPreserves | src/worker.rs:288-303 | an empty chunk establishes the wake-up invariant |
| Protocol.StepPreserves | src/shared.rs:214-237 | every step of a producer or of the worker keeps the invariants of the whole system |
| Protocol.NoLostWakeUp | src/worker.rs:70-94 | in every interleaving: after a completed drain, a worker asleep with a clear latch has an empty queue or a producer that still owes a wake |
| Protocol.SafeIff | src/worker.rs:77-94 | for every state with a registered worker: no continuation ever strands a sleeping worker on a queue with data if and only if, should it be asleep or about to sleep, nothing is queued, its latch is set, or a wake is owed |
| Protocol.SafeFromRegistrationIff | src/shared.rs:261-270 | after every run up to the worker's registration, whatever its latch was at start: no wake-up is lost from then on if and only if at that moment nothing is queued, the latch is set, or a producer is between its push and its wake |
| Protocol.WakeLostBeforeRegistration | src/shared.rs:214-237 | a run on the failing side of `Protocol.SafeFromRegistrationIff`: a batch pushed before registration leaves a worker whose latch was clear asleep on a queue with data |
| Shutdown.SignalIsKept | src/worker.rs:77-86 | in every run, once a termination signal has arrived it stays noted until the worker is on its way out |
| Shutdown.DecisionIs | src/worker.rs:84-98 | a noted termination leads to the final flush, and nothing else does |
| Shutdown.SignalInterruptsDrain | src/worker.rs:311-320 | a drain stops before the next chunk if any signal has arrived |
| Shutdown.StopsDrained | src/worker.rs:97-98 | in every run the worker stops only after a final flush that its deadline ended, or that took a chunk and left the queue empty |
| Protocol.SpansAreConserved | src/shared.rs:214-246 | in every reachable state, spans offered are spans received, queued, counted as dropped, or in flight |
| Protocol.SpansAreDeliveredInOrder | src/codec.rs:176-203 | in every interleaving and for every drain budget, received then queued spans are the encodable spans of the accepted batches, each batch whole, in lock order; no drain reports corruption |
| Shared.Header.Publish | src/shared.rs:214-237 | all or nothing: what happens to the ring, the drop counter and the latch, for an empty, an accepted and a rejected batch; the latch is set exactly if the queue was empty or half the capacity was crossed, and a worker is registered |
| Shared.Header.RegisterWorker | src/shared.rs:261-270 | names the worker's process and changes nothing else |
| Shared.Header.WakeWorker | src/shared.rs:284-299 | sets the latch exactly if the header names a slot of an existing process table |
| Shared.Header.CountDropped | src/shared.rs:239-245 | adds to the drop counter and to nothing else |
| Shared.Exporter.TakeChunk | src/worker.rs:343-360 | the decodable spans of the drained chunk, none on corruption |
| Shared.Exporter.DrainQueue | src/worker.rs:288-322 | for any contents and positions: exports the spans of the first chunks, each of which held some, up to the first check that interrupts or the first chunk without a span, and terminates |
| Shared.DrainsOfRecords | src/worker.rs:288-303 | of a queue of whole records the chunks hold exactly a prefix; if all decode, the first chunk without a span means that none is left |
| SelectLists.Laminar | src/sanitize.rs:426-463 | for every token sequence two candidates are disjoint or nested, and equal starts mean equal candidates |
| SelectLists.AnySortedOrderWorks | src/sanitize.rs:465-474 | whatever order the unstable sort picks among equal keys, the compactions are the same |
| SelectLists.KeepsTheMaximal | src/sanitize.rs:465-474 | the greedy filter keeps exactly the maximal candidates, and every candidate lies in one of them |
| RenderLaws.LexemeIs | src/sanitize.rs:417-420 | which tokens are parentheses, commas, the keyword, and which words end a list |
| RenderLaws.DepthIs | src/sanitize.rs:412-422 | the depth before a token is the number of opening parentheses before it less the closing ones |
| RenderLaws.RangeIs | src/sanitize.rs:436-462 | a candidate runs from the first comma at its SELECT's depth to the first token that ends the list at that depth, or to the end |
| RenderLaws.ColumnsAre | src/sanitize.rs:453-457 | and counts the commas at that depth |
| Sanitize.OutputIsMasked | src/sanitize.rs:338-405 | the output pieces tile the tokens in order: single blanks, placeholders for constants, markers for compacted ranges, other tokens verbatim |
| RenderLaws.MarkerSays | src/sanitize.rs:372-373 | the marker of a compacted range reads `, ...(n more columns)` with that count in decimal |
| RenderLaws.BlanksWhereDue | src/sanitize.rs:389-399 | a single blank stands before a token exactly where white space was left out of the statement or words would meet, and nowhere else |
| Renderer.ScanSelectList | src/sanitize.rs:436-462 | one scan finds the first comma, the end and the number of commas of the list at the SELECT's own depth |
| Renderer.TokenDepths | src/sanitize.rs:412-422 | the depth before each token, or nothing exactly if some token is not a slice |
| Renderer.CollectCandidates | src/sanitize.rs:424-463 | the candidates of all SELECTs, in token order |
| Renderer.KeepNonOverlapping | src/sanitize.rs:468-474 | the greedy filter over the sorted candidates |
| Renderer.SelectListCompactions | src/sanitize.rs:411-475 | the compactions of the text, or nothing exactly if some token is not a slice of it |
| Renderer.SkipCompacted | src/sanitize.rs:355-371 | compacted tokens are validated and their constants counted as if they were rendered |
| Renderer.AppendToken | src/sanitize.rs:380-403 | appends the token, masked if it is a constant, after a blank exactly where one is due; fails exactly if it starts before its predecessor ends |
| Renderer.RenderTokens | src/sanitize.rs:350-404 | the loop yields the text of the pieces, or nothing exactly if two tokens overlap or are out of order |
| Renderer.Render | src/sanitize.rs:338-405 | succeeds exactly if every token is a slice on character boundaries and none starts before its predecessor ends, compacted or not; the result is the text of the pieces |
| Masking.LiteralsDoNotShow | src/sanitize.rs:382-388 | two statements that differ in their literals only render to the same text |
| Masking.WordsNeverFuse | src/sanitize.rs:394-399 | at no seam of the output do two word characters of different pieces meet |
| Masking.PlaceholdersApartIff | src/sanitize.rs:338-347 | the numbers assigned to all constants, compacted ones included, strictly increase and avoid all existing parameters exactly if the last one stays within 32 bits |
| Masking.ShownPlaceholdersApartIff | src/sanitize.rs:350-404 | the placeholders in the output do so exactly if only the last of them may be the largest 32-bit number and no parameter is that number |
| Numbering.PlaceholderCarries | src/sanitize.rs:338-388 | a placeholder in the output reads `$` and a decimal number: n for the n-th constant, compacted ones counted, n more than the highest parameter if there are any, and 2^31 - 1 if that is less |
| Masking.PlaceholderTextDetermines | src/sanitize.rs:383-388 | different placeholder numbers are different texts |
| PlanTree.RunIsPreorder | src/span.rs:256-273 | the traversal with a list of pending nodes is the recursive preorder, for shared and cyclic sub-plan references; both terminate |
| PlanTree.EnterMeasure | src/postgres.rs:239-257 | visiting a node decreases (ids not yet printed, total size of pending trees) lexicographically |
| ChildPlans.PushSubplans | src/postgres.rs:372-399 | appends the sub-plans that exist and were not reported before, marking each as soon as it is referenced |
| ChildPlans.PlanStateChildren | src/postgres.rs:273-331 | the enumeration computes `PlanTree.Children`, whose order `VisitingOrder.ChildrenInOrder` gives |
| VisitingOrder.ChildrenInOrder | src/postgres.rs:259-270 | by position: first the new init-plans in order of first occurrence, then the direct children with their relationships, then the new sub-plans; nothing else |
| VisitingOrder.VisitedInOrder | src/span.rs:232-239 | over the whole visit: the root first; the nodes that hang off a node are its children in that order; each subtree is visited as a whole before the next sibling |
| SubplanSharing.SubplansAttachedOnce | src/postgres.rs:237-244 | a sub-plan is attached exactly once if a visited node refers to it, else never, and to the first visited node that does; every node hangs off an earlier one |
| PlanWalk.PushReversed | src/span.rs:268-271 | the children come off the stack first to last, all with the given link |
| PlanWalk.StackStep | src/span.rs:256-273 | the stack holds the pending nodes in order, each with the link of its nearest ancestor that has a span |
| PlanWalk.WalkPlan | src/span.rs:249-275 | the walk's counts and the caller's state are those of visiting the preorder while fewer than `max_spans` spans exist, each node with the link of its nearest ancestor that has one |
| WalkFacts.VisitedAreFirst | src/span.rs:245-262 | the nodes visited are a prefix of the preorder, and only they have spans |
| WalkFacts.EmittedIsSpanCount | src/span.rs:260-266 | the emitted count is the number of nodes with a span and never exceeds the cap |
| WalkFacts.FirstWantedHaveSpans | src/span.rs:241-248 | if the caller decides by the node, exactly the first `max_spans` accepted nodes have spans |
| WalkFacts.OmittedAreBeyond | src/span.rs:245-248 | and the omitted nodes are exactly those after them |
| WalkFacts.TopPartIsKept | src/span.rs:245-248 | if the caller declines none of the nodes of this walk, exactly the first `max_spans` nodes have spans, each attached to its direct parent's span |
| WalkFacts.WalkOfPlan | src/span.rs:226-231 | for any caller: emitted is at most the cap, nodes are omitted only at the cap, and emitted and omitted add up to at most the nodes of the plan, to exactly all of them if and only if no visited node was declined |
| PlanSpans.WalkedIsTree | src/span.rs:357-389 | each plan span hangs off the statement or an earlier plan span of the same trace and lies within it; it ends after its node's run time, or with its parent if that is earlier |
| PlanSpans.CollectPlanSpans | src/postgres.rs:222-257 | the spans, the tables and the omitted count are those of the walk with the span-building caller; nothing for a statement without a plan |
| PlanSpans.SpanForEveryNode | src/postgres.rs:218-221 | every node with a plan gets a span, up to `max_spans`; exactly the nodes after those are omitted |
| PlanSpans.TablesOfSpans | src/postgres.rs:212-213 | the tables are exactly the relations scanned by the nodes that got a span |
| Traces.SpanHangsOff | src/span.rs:258-268 | the span of a node has the id drawn for it and hangs off the span of the nearest ancestor that has a plan, or off the statement |
| Traces.RunTimesArePlanned | src/span.rs:371-372 | the times by which spans end are the run times of the first `max_spans` nodes with a plan |
| Traces.ChainOf | src/span.rs:347-352 | a span ends after the least of the run times on its chain of parents, the statement's included |
| Traces.TraceStatement | src/postgres.rs:147-184 | the published trace is one tree: one trace id, one start time, distinct ids, every plan span within its only parent, the nearest ancestor's; the statement's span has its id and ends `total_ns` after the start, every other one after the least run time on its chain; the number of plan spans is that of the visited nodes with a plan, or `max_spans`, and if every node has one, spans and omitted nodes are all nodes |
| Comments.CommentsNest | src/postgres.rs:523-531 | two comments are apart or one lies inside the other |
| Comments.PairsAreTheMatches | src/postgres.rs:532-555 | the reported pairs are exactly the opener-closer pairs with balanced markers between them, each once, by closing position; stray markers contribute nothing |
| Comments.MarksAreMarkers | src/postgres.rs:537-552 | each marker is one of the two byte pairs, and such a pair is a marker unless the marker taken one byte before overlaps it |
| Comments.TextsArePairs | src/postgres.rs:544-548 | each reported text is the slice between the two markers of its pair |
| Comments.BlockComments | src/postgres.rs:532-555 | the stack scan reports those texts, and every cut is between two characters |
| KeyValues.DecodedFromStart | src/postgres.rs:620-640 | an escape, a percent sign and the two hexadecimal digits of a byte, becomes that byte; any other byte is kept, a percent sign without two digits after it included |
| KeyValues.DecodeUndoesEncode | src/postgres.rs:615-642 | percent-decoding undoes every percent-encoding (section 2.1 of RFC 3986) of every byte string, in either hex case |
| Lossy.LossyKeepsUtf8 | src/postgres.rs:641 | the conversion to text leaves valid UTF-8 unchanged |
| Lossy.LossyReplaces | src/postgres.rs:641 | every piece that is no whole character is replaced by U+FFFD |
| Characters.CutShort | src/postgres.rs:641 | such a piece of more than one byte is the beginning of a character |
| Characters.NotLonger | src/postgres.rs:641 | and with the byte after it, it no longer is |
| KeyValues.PercentDecode | src/postgres.rs:617-642 | escapes are replaced, malformed ones kept, and invalid UTF-8 in the result replaced |
| KeyValues.TraceparentValues | src/postgres.rs:565-593 | the scan terminates on every text with the decoded values of the matching keys |
| KeyValues.ScanPair | src/postgres.rs:580-590 | one key with its value, if an equals sign follows it, is consumed; every step consumes something |
| KeyValues.SplitValueIs | src/postgres.rs:599-613 | a quoted value is the text between the first two quotes, nothing if there is no second one; any other is all that stands before the first separator |
| Characters.WhiteFromCode | src/postgres.rs:569-573 | white space is exactly the code points with the Unicode property, in their UTF-8 encodings |
| Characters.Utf8IsEncodings | src/codec.rs:313-317 | a string of the model is exactly a concatenation of encoded code points (section 3 of RFC 3629) |
| KeyValues.RoundTrip | src/postgres.rs:557-593 | of a printed list of percent-encoded pairs, with spaces around the equals sign, values in quotes of either kind or in none, and any spaces and commas between pairs, exactly the non-empty values of the matching keys are read back, in order |
| Ticks.ExactIff | src/compat/pg19.rs:23-36 | without a scale ticks are nanoseconds; for every other scale and all ticks and thresholds the split conversion is the exact saturated quotient exactly if no intermediate product saturates visibly |
| Ticks.ExactWhenConsistent | src/compat/pg19.rs:14-22 | with the settings Postgres computes the result is ticks * scale / 2^14, rounded down, or the largest 64-bit number if that is less, in both branches |
| Ticks.Monotone | src/compat/pg19.rs:23-36 | with those settings more ticks never convert to fewer nanoseconds, across the switch of branches |

## Left out

- Postgres itself: hooks, shared memory set-up, the LWLock (a critical section is one step), memory contexts,
  panic containment, the scanner (its result is an arbitrary token sequence) and the plan-state structs. Which
  direct children a node type has (src/postgres.rs:292-321) is given with the plan, in EXPLAIN's order.
- Overflow of the byte counters and of the drop counter, and of the parenthesis depth: numbers are unbounded.
- Runs without shared memory, and a second worker that registers after the first one has exited. In `Protocol` the
  registered process always has a slot in the process table.
- The main loop of the worker runs as actions of `Worker` and `Protocol`, because other processes act between
  any two of them; as a method there is only `drain_queue`. Reloading the exporter is not an action.
- OTLP export, the mapping to `SpanData`, configuration, logging and its rate limit, random ids and the clock.
- Span names and the attributes that are copied from Postgres' instrumentation.
- `parse_traceparent`, which ends in a library, and `decide_parent` around it.
- Floating-point values are eight opaque bytes in the codec.
- `Vec<u8>`, `String` and the walk's stack are fields or variables of type `seq`; only the ring's data area and the
  copy destinations are arrays.
- The decode and encode methods of a plan node are split into four runs of fields each, so that every method has few
  fields; the order of the fields is that of the source.
