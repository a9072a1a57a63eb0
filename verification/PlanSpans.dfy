/**
 The spans collected for one statement: one for each plan node the walk visits, then the span of the
 statement itself. Ids come from a supply of fresh ids; times are nanoseconds.
 */
module PlanSpans {
  import opened PlanTree
  import opened PlanWalk
  import opened SubplanSharing
  import opened WalkFacts
  import opened Wrappers

  datatype SpanLink = SpanLink(traceId: int, spanId: int, endTime: int)

  /** Ids and times of a span; `Span.SpanRecord` has its other fields. */
  datatype TimedSpan = TimedSpan(traceId: int, spanId: int, parentId: int, startTime: int, endTime: int)

  /** The trace context a statement was called in; a root has parent id 0. */
  datatype ParentContext = ParentContext(traceId: int, spanId: int)

  /** The k-th fresh span id that is drawn. */
  type Ids = nat -> int

  function LinkOf(s: TimedSpan): SpanLink { SpanLink(s.traceId, s.spanId, s.endTime) }

  function Min(a: int, b: int): int { if a <= b then a else b }

  /** The span of a plan node below `parent`: it starts with the statement and ends with its parent at the latest. */
  function FromPlan(plan: Plan, wallStart: int, parent: SpanLink, spanId: int): Option<TimedSpan> {
    if !plan.hasPlan then None
    else Some(TimedSpan(parent.traceId, spanId, parent.spanId, wallStart, Min(wallStart + plan.totalNs, parent.endTime)))
  }

  /** The plan spans so far, and the relations scanned by their nodes. */
  datatype Collected = Collected(spans: seq<TimedSpan>, tables: set<string>)

  const NOTHING: Collected := Collected([], {})

  function Scanned(relation: Option<string>): set<string> { if relation.Some? then {relation.value} else {} }

  /** What the walk does at each node; without a linked ancestor a node hangs off the statement. */
  function Collector(wallStart: int, query: SpanLink, ids: Ids): Visitor<Collected, SpanLink> {
    (c: Collected, plan: Plan, edge: Option<Edge>, parent: Option<SpanLink>) =>
      match FromPlan(plan, wallStart, if parent.Some? then parent.value else query, ids(|c.spans|))
      case None => (c, None)
      case Some(span) => (Collected(c.spans + [span], c.tables + Scanned(plan.relation)), Some(LinkOf(span)))
  }

  /** The plan spans of a statement without a plan are none; otherwise the walk collects them. */
  method CollectPlanSpans(env: Env, root: Option<Plan>, wallStart: int, query: SpanLink, cap: nat, ids: Ids)
    returns (r: Collected, omitted: nat)
    ensures root.None? ==> r == NOTHING && omitted == 0
    ensures root.Some? ==>
              var es, visit := Visited(env, root.value), Collector(wallStart, query, ids);
              && r == Walked(es, |es|, cap, visit, NOTHING).state
              && omitted == Skipped(es, cap, visit, NOTHING)
  {
    if root.None? {
      return NOTHING, 0;
    }
    var summary, state := WalkPlan(env, root.value, cap, Collector(wallStart, query, ids), NOTHING);
    return state, summary.omitted;
  }

  // ---------------------------------------------------------------------
  // How many spans, and which tables
  // ---------------------------------------------------------------------

  predicate HasPlan(p: Plan) { p.hasPlan }

  lemma CollectorDecides(es: seq<Todo>, wallStart: int, query: SpanLink, ids: Ids)
    ensures Decides(Collector(wallStart, query, ids), es, HasPlan)
  {
    var visit := Collector(wallStart, query, ids);
    forall i, c: Collected, l | 0 <= i < |es| ensures visit(c, es[i].plan, es[i].edge, l).1.Some? <==> HasPlan(es[i].plan) {
      CollectorGives(c, es[i].plan, es[i].edge, l, wallStart, query, ids);
    }
  }

  lemma CollectorGives(c: Collected, plan: Plan, edge: Option<Edge>, parent: Option<SpanLink>,
                       wallStart: int, query: SpanLink, ids: Ids)
    ensures Collector(wallStart, query, ids)(c, plan, edge, parent).1.Some? <==> plan.hasPlan
  {
    var span := FromPlan(plan, wallStart, if parent.Some? then parent.value else query, ids(|c.spans|));
    assert span.Some? <==> plan.hasPlan;
    if span.None? {
      assert Collector(wallStart, query, ids)(c, plan, edge, parent) == (c, None);
    } else {
      assert Collector(wallStart, query, ids)(c, plan, edge, parent).1 == Some(LinkOf(span.value));
    }
  }

  /**
   Every node with a plan gets a span, up to `cap`; what comes after `cap` such nodes is omitted. So if
   every node has a plan, spans and omitted nodes are all the nodes.
   */
  lemma SpanForEveryNode(es: seq<Todo>, cap: nat, wallStart: int, query: SpanLink, ids: Ids)
    ensures var visit := Collector(wallStart, query, ids);
            var emitted, omitted := Walked(es, |es|, cap, visit, NOTHING).emitted, Skipped(es, cap, visit, NOTHING);
            && emitted == AtMost(WantedCount(es, |es|, HasPlan), cap)
            && omitted == BeyondCount(es, |es|, HasPlan, cap)
            && ((forall i :: 0 <= i < |es| ==> es[i].plan.hasPlan) ==>
                  emitted == AtMost(|es|, cap) && omitted == |es| - emitted)
  {
    var visit := Collector(wallStart, query, ids);
    CollectorDecides(es, wallStart, query, ids);
    EmittedIsWanted(es, |es|, cap, visit, NOTHING, HasPlan);
    OmittedAreBeyond(es, |es|, cap, visit, NOTHING, HasPlan);
    if forall i :: 0 <= i < |es| ==> es[i].plan.hasPlan {
      AllWanted(es, |es|, HasPlan, cap);
    }
  }

  /** `table` is scanned by a node that has a span. */
  ghost predicate ScannedBySpan(es: seq<Todo>, links: seq<Option<SpanLink>>, table: string)
    requires |links| <= |es|
  {
    exists i :: 0 <= i < |links| && links[i].Some? && es[i].plan.relation == Some(table)
  }

  /** The tables reported are exactly those scanned by the nodes that got a span. */
  lemma {:induction false} TablesOfSpans(es: seq<Todo>, n: nat, cap: nat, wallStart: int, query: SpanLink, ids: Ids, table: string)
    requires n <= |es|
    ensures var w := Walked(es, n, cap, Collector(wallStart, query, ids), NOTHING);
            table in w.state.tables <==> ScannedBySpan(es, w.links, table)
  {
    if n > 0 {
      var visit := Collector(wallStart, query, ids);
      var w, w' := Walked(es, n - 1, cap, visit, NOTHING), Walked(es, n, cap, visit, NOTHING);
      TablesOfSpans(es, n - 1, cap, wallStart, query, ids, table);
      TableStep(es, w, cap, wallStart, query, ids);
      WalkedStep(es, n, cap, visit, NOTHING);
      hide Walked, WalkNext, Collector;
      if ScannedBySpan(es, w.links, table) {
        var i :| 0 <= i < |w.links| && w.links[i].Some? && es[i].plan.relation == Some(table);
        assert w'.links[i] == w.links[i];
      }
    }
  }

  lemma TableStep(es: seq<Todo>, w: Progress<Collected, SpanLink>, cap: nat, wallStart: int, query: SpanLink, ids: Ids)
    requires |w.links| < |es|
    ensures var n := |w.links|;
            var w' := WalkNext(es, w, es[n], cap, Collector(wallStart, query, ids));
            w'.state.tables == w.state.tables + if w'.links[n].Some? then Scanned(es[n].plan.relation) else {}
  {
    hide Nearest;
  }

  // ---------------------------------------------------------------------
  // The spans form a tree
  // ---------------------------------------------------------------------

  ghost predicate LinkedTo(spans: seq<TimedSpan>, query: SpanLink, link: SpanLink, bound: nat) {
    link == query || exists j :: 0 <= j < bound && j < |spans| && LinkOf(spans[j]) == link
  }

  /** Below `parent`, from the statement's start on, for `ns` nanoseconds or until the parent ends. */
  predicate Inside(s: TimedSpan, ns: nat, parent: SpanLink, query: SpanLink) {
    && s.traceId == parent.traceId == query.traceId && s.parentId == parent.spanId
    && s.startTime <= s.endTime <= parent.endTime <= query.endTime
    && s.endTime == Min(s.startTime + ns, parent.endTime)
  }

  /** Span `k` hangs off the statement or an earlier span, and lies within it. */
  ghost predicate WithinParent(spans: seq<TimedSpan>, k: nat, ns: nat, query: SpanLink)
    requires k < |spans|
  {
    exists link :: LinkedTo(spans, query, link, k) && Inside(spans[k], ns, link, query)
  }

  /** The spans of nodes that ran for `times`. */
  ghost predicate IsTree(spans: seq<TimedSpan>, times: seq<nat>, query: SpanLink, wallStart: int, ids: Ids) {
    && |spans| == |times|
    && forall k :: 0 <= k < |spans| ==>
         spans[k].spanId == ids(k) && spans[k].startTime == wallStart && WithinParent(spans, k, times[k], query)
  }

  /** The run times of the nodes that have a span, in visiting order. */
  function RunTimes(es: seq<Todo>, links: seq<Option<SpanLink>>): seq<nat>
    requires |links| <= |es|
  {
    var n := |links| - 1;
    if links == [] then [] else RunTimes(es, links[..n]) + if links[n].Some? then [es[n].plan.totalNs] else []
  }

  ghost predicate LinksAreSpans(links: seq<Option<SpanLink>>, spans: seq<TimedSpan>, query: SpanLink) {
    forall i :: 0 <= i < |links| && links[i].Some? ==> LinkedTo(spans, query, links[i].value, |spans|)
  }

  lemma {:induction false} NearestIsSpan(es: seq<Todo>, links: seq<Option<SpanLink>>, p: Option<nat>, spans: seq<TimedSpan>, query: SpanLink)
    requires LinksAreSpans(links, spans, query)
    ensures var l := Nearest(es, links, p); l.Some? ==> LinkedTo(spans, query, l.value, |spans|)
    decreases if p.Some? then p.value + 1 else 0
  {
    if p.Some? && p.value < |links| && p.value < |es| && links[p.value].None? {
      var up := es[p.value].parent;
      if up.None? || up.value < p.value {
        NearestIsSpan(es, links, up, spans, query);
      }
    }
  }

  /** A new span below a link of the tree so far keeps the tree. */
  lemma AddSpan(spans: seq<TimedSpan>, times: seq<nat>, s: TimedSpan, ns: nat, link: SpanLink, query: SpanLink, wallStart: int, ids: Ids)
    requires IsTree(spans, times, query, wallStart, ids) && wallStart <= query.endTime
    requires LinkedTo(spans, query, link, |spans|)
    requires s.traceId == link.traceId && s.parentId == link.spanId && s.startTime == wallStart && s.spanId == ids(|spans|)
    requires s.endTime == Min(wallStart + ns, link.endTime)
    ensures IsTree(spans + [s], times + [ns], query, wallStart, ids)
  {
    var n := |spans|;
    if link != query {
      var j :| 0 <= j < n && LinkOf(spans[j]) == link;
      assert WithinParent(spans, j, times[j], query);
      var above :| LinkedTo(spans, query, above, j) && Inside(spans[j], times[j], above, query);
    }
    assert Inside(s, ns, link, query);
    var spans', times' := spans + [s], times + [ns];
    forall k | 0 <= k <= n ensures WithinParent(spans', k, times'[k], query) {
      var l := link;
      if k < n {
        assert WithinParent(spans, k, times[k], query);
        l :| LinkedTo(spans, query, l, k) && Inside(spans[k], times[k], l, query);
      }
      StillLinked(spans, s, query, l, k);
      assert Inside(spans'[k], times'[k], l, query);
    }
  }

  lemma StillLinked(spans: seq<TimedSpan>, s: TimedSpan, query: SpanLink, link: SpanLink, bound: nat)
    requires LinkedTo(spans, query, link, bound)
    ensures LinkedTo(spans + [s], query, link, bound)
  {
    if link != query {
      var j :| 0 <= j < bound && j < |spans| && LinkOf(spans[j]) == link;
      assert (spans + [s])[j] == spans[j];
    }
  }

  ghost predicate TreeSoFar(es: seq<Todo>, w: Progress<Collected, SpanLink>, wallStart: int, query: SpanLink, ids: Ids)
    requires |w.links| <= |es|
  {
    && IsTree(w.state.spans, RunTimes(es, w.links), query, wallStart, ids)
    && LinksAreSpans(w.links, w.state.spans, query) && |w.state.spans| == w.emitted
  }

  lemma {:induction false} WalkedIsTree(es: seq<Todo>, n: nat, cap: nat, wallStart: int, query: SpanLink, ids: Ids)
    requires n <= |es| && wallStart <= query.endTime
    ensures TreeSoFar(es, Walked(es, n, cap, Collector(wallStart, query, ids), NOTHING), wallStart, query, ids)
  {
    if n > 0 {
      WalkedIsTree(es, n - 1, cap, wallStart, query, ids);
      var visit := Collector(wallStart, query, ids);
      TreeStep(es, Walked(es, n - 1, cap, visit, NOTHING), cap, wallStart, query, ids);
      hide WalkNext, TreeSoFar;
    }
  }

  lemma RunTimesNext(es: seq<Todo>, links: seq<Option<SpanLink>>)
    requires |links| <= |es| && links != []
    ensures var n := |links| - 1;
            RunTimes(es, links) == RunTimes(es, links[..n]) + if links[n].Some? then [es[n].plan.totalNs] else []
  {
  }

  lemma TreeStep(es: seq<Todo>, w: Progress<Collected, SpanLink>, cap: nat, wallStart: int, query: SpanLink, ids: Ids)
    requires wallStart <= query.endTime && |w.links| < |es| && TreeSoFar(es, w, wallStart, query, ids)
    ensures TreeSoFar(es, WalkNext(es, w, es[|w.links|], cap, Collector(wallStart, query, ids)), wallStart, query, ids)
  {
    var x := es[|w.links|];
    var w' := WalkNext(es, w, x, cap, Collector(wallStart, query, ids));
    var up := Nearest(es, w.links, x.parent);
    NearestIsSpan(es, w.links, x.parent, w.state.spans, query);
    RunTimesNext(es, w'.links);
    assert w'.links[..|w.links|] == w.links;
    hide Nearest, RunTimes;
    if w'.state.spans != w.state.spans {
      var link := if up.Some? then up.value else query;
      var s := TimedSpan(link.traceId, ids(|w.state.spans|), link.spanId, wallStart, Min(wallStart + x.plan.totalNs, link.endTime));
      assert FromPlan(x.plan, wallStart, link, ids(|w.state.spans|)) == Some(s);
      assert w'.state.spans == w.state.spans + [s];
      hide Collector, WalkNext, FromPlan;
      AddSpan(w.state.spans, RunTimes(es, w.links), s, x.plan.totalNs, link, query, wallStart, ids);
      forall i | 0 <= i < |w'.links| && w'.links[i].Some?
        ensures LinkedTo(w'.state.spans, query, w'.links[i].value, |w'.state.spans|)
      {
        if i < |w.links| {
          assert w'.links[i] == w.links[i];
          StillLinked(w.state.spans, s, query, w.links[i].value, |w.state.spans|);
        } else {
          assert LinkOf(w'.state.spans[|w.state.spans|]) == w'.links[i].value;
        }
      }
    }
  }
}
