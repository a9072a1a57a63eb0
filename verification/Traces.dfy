/**
 The trace of a statement: its plan spans, then its own span. What is proved is read off the ids and times
 of the spans in it and off the plan.
 */
module Traces {
  import opened PlanSpans
  import opened PlanTree
  import opened PlanWalk
  import opened SubplanSharing
  import opened WalkFacts
  import opened Wrappers

  /** The span of the statement itself. */
  function FromQuery(context: ParentContext, spanId: int, wallStart: int, totalNs: nat): TimedSpan {
    TimedSpan(context.traceId, spanId, context.spanId, wallStart, wallStart + totalNs)
  }

  /** No id is drawn twice, and the id of the statement is none of the others. */
  ghost predicate Fresh(ids: Ids, querySpanId: int) {
    && (forall i: nat, j: nat :: ids(i) == ids(j) ==> i == j)
    && (forall i: nat :: ids(i) != querySpanId)
  }

  /**
   Span `j` is the parent of plan span `k`, whose node ran for `ns`: the span of the statement (the last
   one) or an earlier plan span. Both start together; `k` ends after `ns`, or with `j` if that is earlier.
   */
  ghost predicate IsParent(trace: seq<TimedSpan>, ns: nat, k: nat, j: nat) {
    && k < |trace| - 1 && j < |trace| && (j < k || j == |trace| - 1)
    && trace[k].parentId == trace[j].spanId
    && trace[k].startTime == trace[j].startTime <= trace[k].endTime <= trace[j].endTime
    && trace[k].endTime == Min(trace[k].startTime + ns, trace[j].endTime)
  }

  ghost predicate HasParent(trace: seq<TimedSpan>, ns: nat, k: nat) { exists j :: IsParent(trace, ns, k, j) }

  /** One trace id, one start time, and every plan span within exactly one parent. */
  ghost predicate IsNestedTrace(trace: seq<TimedSpan>, times: seq<nat>, context: ParentContext) {
    && |trace| == |times| + 1
    && (forall k :: 0 <= k < |trace| ==>
          trace[k].traceId == context.traceId && trace[k].startTime == trace[|trace| - 1].startTime)
    && trace[|trace| - 1].parentId == context.spanId
    && (forall k :: 0 <= k < |times| ==> HasParent(trace, times[k], k))
    && (forall i, j :: 0 <= i < j < |trace| ==> trace[i].spanId != trace[j].spanId)
  }

  lemma TreeIsNested(spans: seq<TimedSpan>, times: seq<nat>, context: ParentContext, querySpanId: int, wallStart: int,
                     totalNs: nat, ids: Ids)
    requires Fresh(ids, querySpanId)
    requires var q := FromQuery(context, querySpanId, wallStart, totalNs); IsTree(spans, times, LinkOf(q), wallStart, ids)
    ensures IsNestedTrace(spans + [FromQuery(context, querySpanId, wallStart, totalNs)], times, context)
  {
    var q := FromQuery(context, querySpanId, wallStart, totalNs);
    var trace, n := spans + [q], |spans|;
    forall k | 0 <= k < n ensures HasParent(trace, times[k], k) && trace[k].traceId == q.traceId {
      assert WithinParent(spans, k, times[k], LinkOf(q));
      var link :| LinkedTo(spans, LinkOf(q), link, k) && Inside(spans[k], times[k], link, LinkOf(q));
      assert trace[k] == spans[k];
      if link == LinkOf(q) {
        assert IsParent(trace, times[k], k, n);
      } else {
        var j :| 0 <= j < k && j < n && LinkOf(spans[j]) == link;
        assert IsParent(trace, times[k], k, j);
      }
    }
    forall i, j | 0 <= i < j < |trace| ensures trace[i].spanId != trace[j].spanId {
      assert trace[i] == spans[i];
    }
  }

  // ---------------------------------------------------------------------
  // When spans end
  // ---------------------------------------------------------------------

  /** The run times of those of the first `n` nodes that have a plan. */
  function PlannedTimes(es: seq<Todo>, n: nat): (r: seq<nat>)
    requires n <= |es|
    ensures |r| == WantedCount(es, n, HasPlan)
  {
    if n == 0 then []
    else PlannedTimes(es, n - 1) + if es[n - 1].plan.hasPlan then [es[n - 1].plan.totalNs] else []
  }

  function FirstOnes(times: seq<nat>, cap: nat): seq<nat> { times[..AtMost(|times|, cap)] }

  /** The run times of the nodes that get a span: the first `cap` ones with a plan. */
  ghost function SpanTimes(env: Env, root: Option<Plan>, cap: nat): seq<nat> {
    if root.None? then []
    else FirstOnes(PlannedTimes(Visited(env, root.value), |Visited(env, root.value)|), cap)
  }

  lemma FirstOnesNext(times: seq<nat>, x: nat, cap: nat)
    ensures FirstOnes(times + [x], cap) == if |times| < cap then FirstOnes(times, cap) + [x] else FirstOnes(times, cap)
  {
  }

  /** The run times of the nodes, among the first `n`, that the walk gives a span. */
  ghost function EmittedTimes(es: seq<Todo>, n: nat, cap: nat, wallStart: int, query: SpanLink, ids: Ids): seq<nat>
    requires n <= |es|
  {
    RunTimes(es, Walked(es, n, cap, Collector(wallStart, query, ids), NOTHING).links)
  }

  lemma EmittedTimesNext(es: seq<Todo>, n: nat, cap: nat, wallStart: int, query: SpanLink, ids: Ids)
    requires 0 < n <= |es|
    ensures var before, x := EmittedTimes(es, n - 1, cap, wallStart, query, ids), es[n - 1].plan;
            EmittedTimes(es, n, cap, wallStart, query, ids)
            == if x.hasPlan && WantedCount(es, n - 1, HasPlan) < cap then before + [x.totalNs] else before
  {
    LinksNext(es, n, cap, wallStart, query, ids);
    hide Walked, Collector, WantedCount, RunTimes;
    var visit := Collector(wallStart, query, ids);
    TimesOfLinks(es, Walked(es, n, cap, visit, NOTHING).links, Walked(es, n - 1, cap, visit, NOTHING).links);
  }

  lemma LinksNext(es: seq<Todo>, n: nat, cap: nat, wallStart: int, query: SpanLink, ids: Ids)
    requires 0 < n <= |es|
    ensures var visit := Collector(wallStart, query, ids);
            var links := Walked(es, n, cap, visit, NOTHING).links;
            && links[..n - 1] == Walked(es, n - 1, cap, visit, NOTHING).links
            && (links[n - 1].Some? <==> es[n - 1].plan.hasPlan && WantedCount(es, n - 1, HasPlan) < cap)
  {
    var visit := Collector(wallStart, query, ids);
    CollectorDecides(es, wallStart, query, ids);
    hide Collector, Walked, Decides;
    WantedStep(es, n, cap, visit, NOTHING, HasPlan);
    EmittedIsWanted(es, n - 1, cap, visit, NOTHING, HasPlan);
    EarlierLinks(es, n - 1, n, cap, visit, NOTHING);
    hide WantedCount;
  }

  lemma TimesOfLinks(es: seq<Todo>, links: seq<Option<SpanLink>>, front: seq<Option<SpanLink>>)
    requires links != [] && |links| <= |es| && front == links[..|links| - 1]
    ensures var n := |links| - 1;
            RunTimes(es, links)
            == if links[n].Some? then RunTimes(es, front) + [es[n].plan.totalNs] else RunTimes(es, front)
  {
    RunTimesNext(es, links);
    hide RunTimes;
  }

  lemma {:induction false} EmittedTimesArePlanned(es: seq<Todo>, n: nat, cap: nat, wallStart: int, query: SpanLink, ids: Ids)
    requires n <= |es|
    ensures EmittedTimes(es, n, cap, wallStart, query, ids) == FirstOnes(PlannedTimes(es, n), cap)
  {
    hide *;
    if n == 0 {
      NoneEmitted(es, cap, wallStart, query, ids);
    } else {
      EmittedTimesArePlanned(es, n - 1, cap, wallStart, query, ids);
      EmittedTimesNext(es, n, cap, wallStart, query, ids);
      PlannedNext(es, n);
      var times, x := PlannedTimes(es, n - 1), es[n - 1].plan;
      if x.hasPlan {
        FirstOnesNext(times, x.totalNs, cap);
        assert PlannedTimes(es, n) == times + [x.totalNs];
      } else {
        assert PlannedTimes(es, n) == times;
      }
    }
  }

  lemma NoneEmitted(es: seq<Todo>, cap: nat, wallStart: int, query: SpanLink, ids: Ids)
    ensures EmittedTimes(es, 0, cap, wallStart, query, ids) == FirstOnes(PlannedTimes(es, 0), cap)
  {
    hide Collector;
  }

  /** The times by which spans end are those of the first `cap` nodes with a plan. */
  lemma RunTimesArePlanned(es: seq<Todo>, cap: nat, wallStart: int, query: SpanLink, ids: Ids)
    ensures RunTimes(es, Walked(es, |es|, cap, Collector(wallStart, query, ids), NOTHING).links)
            == FirstOnes(PlannedTimes(es, |es|), cap)
  {
    EmittedTimesArePlanned(es, |es|, cap, wallStart, query, ids);
    hide Walked, RunTimes, Collector, FirstOnes, PlannedTimes;
  }

  lemma PlannedNext(es: seq<Todo>, n: nat)
    requires 0 < n <= |es|
    ensures var times := PlannedTimes(es, n - 1);
            && |times| == WantedCount(es, n - 1, HasPlan)
            && PlannedTimes(es, n) == if es[n - 1].plan.hasPlan then times + [es[n - 1].plan.totalNs] else times
  {
  }

  /** From span `k` up to the span of the statement, each the parent of the one before. */
  ghost predicate IsChain(trace: seq<TimedSpan>, chain: seq<nat>, k: nat) {
    && chain != [] && chain[0] == k && chain[|chain| - 1] == |trace| - 1
    && (forall i :: 0 <= i < |chain| ==> chain[i] < |trace|)
    && (forall i :: 0 <= i < |chain| - 1 ==> trace[chain[i]].parentId == trace[chain[i + 1]].spanId)
  }

  /** The least of the run times along a chain. */
  function Least(times: seq<nat>, chain: seq<nat>): nat
    requires chain != [] && forall i :: 0 <= i < |chain| ==> chain[i] < |times|
  {
    if |chain| == 1 then times[chain[0]]
    else if times[chain[0]] <= Least(times, chain[1..]) then times[chain[0]]
    else Least(times, chain[1..])
  }

  /** Span `k` ends after the least of the run times from its own up to the statement's. */
  ghost predicate EndsByChain(trace: seq<TimedSpan>, times: seq<nat>, wallStart: int, k: nat)
    requires k < |trace| == |times|
  {
    exists chain :: IsChain(trace, chain, k) && trace[k].endTime == wallStart + Least(times, chain)
  }

  lemma {:induction false} ChainOf(trace: seq<TimedSpan>, times: seq<nat>, context: ParentContext, totalNs: nat, wallStart: int, k: nat)
    requires IsNestedTrace(trace, times, context) && k < |trace|
    requires trace[|trace| - 1].startTime == wallStart && trace[|trace| - 1].endTime == wallStart + totalNs
    ensures EndsByChain(trace, times + [totalNs], wallStart, k)
    decreases if k == |trace| - 1 then 0 else k + 1
  {
    var all, last := times + [totalNs], |trace| - 1;
    if k == last {
      assert IsChain(trace, [last], last) && Least(all, [last]) == totalNs;
    } else {
      assert HasParent(trace, times[k], k);
      var j: nat :| IsParent(trace, times[k], k, j);
      ChainOf(trace, times, context, totalNs, wallStart, j);
      var up :| IsChain(trace, up, j) && trace[j].endTime == wallStart + Least(all, up);
      var chain := [k] + up;
      assert chain[1..] == up;
      assert IsChain(trace, chain, k) by {
        forall i | 0 <= i < |chain| - 1 ensures trace[chain[i]].parentId == trace[chain[i + 1]].spanId {
          assert i > 0 ==> chain[i] == up[i - 1] && chain[i + 1] == up[i];
        }
      }
      assert trace[k].endTime == wallStart + Least(all, chain);
    }
  }

  // ---------------------------------------------------------------------
  // Which span is the parent
  // ---------------------------------------------------------------------

  /** The nearest ancestor with a plan, from position `p` on. */
  function NearestPlanned(es: seq<Todo>, p: Option<nat>): Option<nat>
    decreases if p.Some? then p.value + 1 else 0
  {
    if p.None? || p.value >= |es| then None
    else if es[p.value].plan.hasPlan then p
    else
      var up := es[p.value].parent;
      if up.Some? && up.value >= p.value then None else NearestPlanned(es, up)
  }

  /** The id of the span that the span of node `i` is to hang off. */
  function ParentIdOf(es: seq<Todo>, i: nat, query: int, ids: Ids): int
    requires i < |es|
  {
    var a := NearestPlanned(es, es[i].parent);
    if a.Some? && a.value < |es| then ids(WantedCount(es, a.value, HasPlan)) else query
  }

  /** Exactly the nodes with a plan have links, with the ids drawn for them. */
  ghost predicate PlannedLinked(es: seq<Todo>, links: seq<Option<SpanLink>>, ids: Ids) {
    && |links| <= |es|
    && forall i :: 0 <= i < |links| ==>
         && (links[i].Some? <==> es[i].plan.hasPlan)
         && (links[i].Some? ==> links[i].value.spanId == ids(WantedCount(es, i, HasPlan)))
  }

  /** While fewer than `cap` nodes have a plan, the nearest ancestor with a span is the nearest one with a plan. */
  lemma {:induction false} NearestIsPlanned(es: seq<Todo>, links: seq<Option<SpanLink>>, p: Option<nat>, ids: Ids)
    requires ParentsFirst(es) && PlannedLinked(es, links, ids) && (p.Some? ==> p.value < |links|)
    ensures var a, l := NearestPlanned(es, p), Nearest(es, links, p);
            && (a.Some? <==> l.Some?)
            && (a.Some? ==> a.value < |es| && l.value.spanId == ids(WantedCount(es, a.value, HasPlan)))
    decreases if p.Some? then p.value + 1 else 0
  {
    if p.Some? && links[p.value].None? {
      NearestIsPlanned(es, links, es[p.value].parent, ids);
    }
  }

  lemma {:induction false} WantedGrows(es: seq<Todo>, i: nat, j: nat)
    requires i <= j <= |es|
    ensures WantedCount(es, i, HasPlan) <= WantedCount(es, j, HasPlan)
  {
    if i < j {
      WantedGrows(es, i, j - 1);
    }
  }

  /** The step of the walk at a node that gets a span. */
  lemma NodeSpan(es: seq<Todo>, i: nat, cap: nat, wallStart: int, query: SpanLink, ids: Ids)
    requires i < |es| && es[i].plan.hasPlan && WantedCount(es, i, HasPlan) < cap && wallStart <= query.endTime
    ensures var visit := Collector(wallStart, query, ids);
            var w, w' := Walked(es, i, cap, visit, NOTHING), Walked(es, i + 1, cap, visit, NOTHING);
            var r, up := WantedCount(es, i, HasPlan), Nearest(es, w.links, es[i].parent);
            && |w.state.spans| == r && |w'.state.spans| == r + 1
            && w'.links[i].Some? && w'.links[i].value.spanId == ids(r) == w'.state.spans[r].spanId
            && w'.state.spans[r].parentId == if up.Some? then up.value.spanId else query.spanId
  {
    var visit := Collector(wallStart, query, ids);
    CollectorDecides(es, wallStart, query, ids);
    EmittedIsWanted(es, i, cap, visit, NOTHING, HasPlan);
    WalkedIsTree(es, i, cap, wallStart, query, ids);
    WalkedStep(es, i + 1, cap, visit, NOTHING);
    var w := Walked(es, i, cap, visit, NOTHING);
    assert w.emitted < cap && |w.state.spans| == w.emitted;
    hide TreeSoFar, Decides, Walked, WantedCount;
    StepOfCollector(es, w, i, cap, wallStart, query, ids);
    hide WalkNext, Collector, Nearest;
  }

  lemma StepOfCollector(es: seq<Todo>, w: Progress<Collected, SpanLink>, i: nat, cap: nat, wallStart: int, query: SpanLink, ids: Ids)
    requires i < |es| && |w.links| == i && es[i].plan.hasPlan && w.emitted < cap
    ensures var w' := WalkNext(es, w, es[i], cap, Collector(wallStart, query, ids));
            var r, up := |w.state.spans|, Nearest(es, w.links, es[i].parent);
            && |w'.state.spans| == r + 1 && w'.state.spans[..r] == w.state.spans
            && w'.links[i].Some? && w'.links[i].value.spanId == ids(r) == w'.state.spans[r].spanId
            && w'.state.spans[r].parentId == if up.Some? then up.value.spanId else query.spanId
  {
    var up := Nearest(es, w.links, es[i].parent);
    var link := if up.Some? then up.value else query;
    var s := FromPlan(es[i].plan, wallStart, link, ids(|w.state.spans|)).value;
    hide Nearest;
    assert Collector(wallStart, query, ids)(w.state, es[i].plan, es[i].edge, up)
           == (Collected(w.state.spans + [s], w.state.tables + Scanned(es[i].plan.relation)), Some(LinkOf(s)));
  }

  /** Before a node that gets a span, exactly the nodes with a plan have links, with the ids drawn for them. */
  lemma EarlierIds(es: seq<Todo>, i: nat, j: nat, cap: nat, wallStart: int, query: SpanLink, ids: Ids)
    requires j < i < |es| && WantedCount(es, i, HasPlan) < cap && wallStart <= query.endTime
    ensures var links := Walked(es, i, cap, Collector(wallStart, query, ids), NOTHING).links;
            && (links[j].Some? <==> es[j].plan.hasPlan)
            && (links[j].Some? ==> links[j].value.spanId == ids(WantedCount(es, j, HasPlan)))
  {
    var visit := Collector(wallStart, query, ids);
    WantedGrows(es, j, i);
    EarlierLinks(es, j + 1, i, cap, visit, NOTHING);
    if es[j].plan.hasPlan {
      NodeSpan(es, j, cap, wallStart, query, ids);
    } else {
      CollectorDecides(es, wallStart, query, ids);
      WantedStep(es, j + 1, cap, visit, NOTHING, HasPlan);
    }
    hide Walked, Collector, Decides, WantedCount, Nearest;
  }

  lemma PlannedLinkedBefore(es: seq<Todo>, i: nat, cap: nat, wallStart: int, query: SpanLink, ids: Ids)
    requires i < |es| && WantedCount(es, i, HasPlan) < cap && wallStart <= query.endTime
    ensures PlannedLinked(es, Walked(es, i, cap, Collector(wallStart, query, ids), NOTHING).links, ids)
  {
    var links := Walked(es, i, cap, Collector(wallStart, query, ids), NOTHING).links;
    hide Walked, Collector, WantedCount;
    forall j | 0 <= j < i
      ensures links[j].Some? <==> es[j].plan.hasPlan
      ensures links[j].Some? ==> links[j].value.spanId == ids(WantedCount(es, j, HasPlan))
    {
      EarlierIds(es, i, j, cap, wallStart, query, ids);
    }
  }

  lemma {:induction false} SpansGrow(es: seq<Todo>, m: nat, n: nat, cap: nat, wallStart: int, query: SpanLink, ids: Ids)
    requires m <= n <= |es|
    ensures var visit := Collector(wallStart, query, ids);
            Walked(es, m, cap, visit, NOTHING).state.spans <= Walked(es, n, cap, visit, NOTHING).state.spans
  {
    if m < n {
      var visit := Collector(wallStart, query, ids);
      SpansGrow(es, m, n - 1, cap, wallStart, query, ids);
      SpansStep(es, Walked(es, n - 1, cap, visit, NOTHING), es[n - 1], cap, wallStart, query, ids);
      hide WalkNext, Collector;
    }
  }

  lemma SpansStep(es: seq<Todo>, w: Progress<Collected, SpanLink>, x: Todo, cap: nat, wallStart: int, query: SpanLink, ids: Ids)
    ensures w.state.spans <= WalkNext(es, w, x, cap, Collector(wallStart, query, ids)).state.spans
  {
    hide Nearest;
  }

  /**
   The span of a node: the `r`-th span, if `r` nodes before it have a plan, has the `r`-th id drawn and hangs
   off the span of the nearest ancestor that has a plan, or off the statement.
   */
  lemma SpanHangsOff(es: seq<Todo>, i: nat, cap: nat, wallStart: int, query: SpanLink, ids: Ids)
    requires ParentsFirst(es) && i < |es| && es[i].plan.hasPlan && WantedCount(es, i, HasPlan) < cap
    requires wallStart <= query.endTime
    ensures var spans := Walked(es, |es|, cap, Collector(wallStart, query, ids), NOTHING).state.spans;
            var r := WantedCount(es, i, HasPlan);
            r < |spans| && spans[r].spanId == ids(r) && spans[r].parentId == ParentIdOf(es, i, query.spanId, ids)
  {
    NodeSpan(es, i, cap, wallStart, query, ids);
    hide Walked, Collector, WantedCount;
    SpansGrow(es, i + 1, |es|, cap, wallStart, query, ids);
    PlannedLinkedBefore(es, i, cap, wallStart, query, ids);
    hide PlannedLinked;
    NearestIsPlanned(es, Walked(es, i, cap, Collector(wallStart, query, ids), NOTHING).links, es[i].parent, ids);
    hide Nearest, NearestPlanned;
  }

  // ---------------------------------------------------------------------
  // The trace
  // ---------------------------------------------------------------------

  /** Every plan span of the trace hangs off the span of the nearest ancestor of its node that has a plan. */
  ghost predicate HangsOffPlanned(es: seq<Todo>, trace: seq<TimedSpan>, cap: nat, ids: Ids) {
    forall i :: 0 <= i < |es| && es[i].plan.hasPlan && WantedCount(es, i, HasPlan) < cap ==>
      var r := WantedCount(es, i, HasPlan);
      r < |trace| - 1 && trace[r].spanId == ids(r) && trace[r].parentId == ParentIdOf(es, i, trace[|trace| - 1].spanId, ids)
  }

  /**
   The trace of a statement that ran `totalNs`: its plan spans, then its own span. For every plan, however
   its sub-plans are shared, this is a tree in which every span lies within its only parent, and ends after
   the least of the run times from its own node's up to the statement's.
   */
  method TraceStatement(env: Env, root: Option<Plan>, context: ParentContext, querySpanId: int, wallStart: int,
                        totalNs: nat, cap: nat, ids: Ids)
    returns (trace: seq<TimedSpan>, omitted: nat)
    requires Fresh(ids, querySpanId)
    ensures IsNestedTrace(trace, SpanTimes(env, root, cap), context)
    ensures var last := trace[|trace| - 1];
            && last.traceId == context.traceId && last.spanId == querySpanId && last.parentId == context.spanId
            && last.startTime == wallStart && last.endTime == wallStart + totalNs
    ensures forall k :: 0 <= k < |trace| ==> EndsByChain(trace, SpanTimes(env, root, cap) + [totalNs], wallStart, k)
    ensures root.None? ==> |trace| == 1 && omitted == 0
    ensures root.Some? ==>
              var es := Visited(env, root.value);
              && HangsOffPlanned(es, trace, cap, ids)
              && |trace| - 1 == AtMost(WantedCount(es, |es|, HasPlan), cap)
              && omitted == BeyondCount(es, |es|, HasPlan, cap)
              && ((forall i :: 0 <= i < |es| ==> es[i].plan.hasPlan) ==>
                    |trace| - 1 == AtMost(|es|, cap) && omitted == |es| - (|trace| - 1))
  {
    var q := FromQuery(context, querySpanId, wallStart, totalNs);
    var query := SpanLink(context.traceId, querySpanId, wallStart + totalNs);
    var collected;
    collected, omitted := CollectPlanSpans(env, root, wallStart, query, cap, ids);
    trace := collected.spans + [q];
    if root.Some? {
      SpansOfPlan(env, root.value, cap, wallStart, query, ids, q);
      SpanForEveryNode(Visited(env, root.value), cap, wallStart, query, ids);
    }
    assert LinkOf(q) == query && IsTree(collected.spans, SpanTimes(env, root, cap), query, wallStart, ids);
    hide Walked, Skipped, Collector, Visited, IsTree, Fresh, HangsOffPlanned, SpanTimes;
    TreeIsNested(collected.spans, SpanTimes(env, root, cap), context, querySpanId, wallStart, totalNs, ids);
    hide IsNestedTrace, EndsByChain;
    forall k | 0 <= k < |trace| ensures EndsByChain(trace, SpanTimes(env, root, cap) + [totalNs], wallStart, k) {
      ChainOf(trace, SpanTimes(env, root, cap), context, totalNs, wallStart, k);
    }
  }

  lemma SpansOfPlan(env: Env, root: Plan, cap: nat, wallStart: int, query: SpanLink, ids: Ids, q: TimedSpan)
    requires wallStart <= query.endTime && q.spanId == query.spanId
    ensures var es := Visited(env, root);
            var spans := Walked(es, |es|, cap, Collector(wallStart, query, ids), NOTHING).state.spans;
            && IsTree(spans, SpanTimes(env, Some(root), cap), query, wallStart, ids)
            && HangsOffPlanned(es, spans + [q], cap, ids)
  {
    var es := Visited(env, root);
    VisitedNodes(env, root);
    WalkedIsTree(es, |es|, cap, wallStart, query, ids);
    RunTimesArePlanned(es, cap, wallStart, query, ids);
    hide Walked, Collector, Visited, IsTree, WantedCount, PlannedTimes, ParentIdOf;
    forall i | 0 <= i < |es| && es[i].plan.hasPlan && WantedCount(es, i, HasPlan) < cap
      ensures var spans := Walked(es, |es|, cap, Collector(wallStart, query, ids), NOTHING).state.spans;
              var r := WantedCount(es, i, HasPlan);
              r < |spans| && spans[r].spanId == ids(r) && spans[r].parentId == ParentIdOf(es, i, query.spanId, ids)
    {
      SpanHangsOff(es, i, cap, wallStart, query, ids);
    }
  }
}
