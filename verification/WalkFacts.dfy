/** What the capped walk gives its caller: a connected top part of the plan, never more than `cap` spans. */
module WalkFacts {
  import opened PlanTree
  import opened PlanWalk
  import opened SubplanSharing
  import opened VisitingOrder
  import opened Wrappers

  function SpanCount<L>(links: seq<Option<L>>): nat {
    if links == [] then 0 else SpanCount(links[..|links| - 1]) + if links[|links| - 1].Some? then 1 else 0
  }

  lemma {:induction false} EmittedIsSpanCount<S, L>(es: seq<Todo>, n: nat, cap: nat, visit: Visitor<S, L>, init: S)
    requires n <= |es|
    ensures var w := Walked(es, n, cap, visit, init); w.emitted == SpanCount(w.links) <= cap
  {
    if n > 0 {
      EmittedIsSpanCount(es, n - 1, cap, visit, init);
      hide WalkNext;
    }
  }

  lemma WalkedStep<S, L>(es: seq<Todo>, n: nat, cap: nat, visit: Visitor<S, L>, init: S)
    requires 0 < n <= |es|
    ensures var w, w' := Walked(es, n - 1, cap, visit, init), Walked(es, n, cap, visit, init);
            && w' == WalkNext(es, w, es[n - 1], cap, visit)
            && forall i :: 0 <= i < n - 1 ==> w'.links[i] == w.links[i]
  {
    hide WalkNext;
    var w, w' := Walked(es, n - 1, cap, visit, init), Walked(es, n, cap, visit, init);
    assert forall i :: 0 <= i < n - 1 ==> w'.links[i] == w'.links[..n - 1][i];
  }

  /** The nodes visited are the first ones in visiting order, and only they can have a span. */
  lemma {:induction false} VisitedAreFirst<S, L>(es: seq<Todo>, n: nat, cap: nat, visit: Visitor<S, L>, init: S)
    requires n <= |es|
    ensures var w, v := Walked(es, n, cap, visit, init), VisitedCount(es, n, cap, visit, init);
            && (forall i :: 0 <= i < n ==> (Walked(es, i, cap, visit, init).emitted < cap <==> i < v))
            && (forall i :: 0 <= i < n && w.links[i].Some? ==> i < v)
            && (v < n ==> w.emitted >= cap)
  {
    if n > 0 {
      hide Walked, WalkNext;
      VisitedAreFirst(es, n - 1, cap, visit, init);
      WalkedStep(es, n, cap, visit, init);
    }
  }

  /** The link a node is given is decided by the nodes before it. */
  lemma {:induction false} EarlierLinks<S, L>(es: seq<Todo>, m: nat, n: nat, cap: nat, visit: Visitor<S, L>, init: S)
    requires m <= n <= |es|
    ensures Walked(es, m, cap, visit, init).links == Walked(es, n, cap, visit, init).links[..m]
  {
    if m < n {
      EarlierLinks(es, m, n - 1, cap, visit, init);
    }
  }

  // ---------------------------------------------------------------------
  // Callers that decide by the node
  // ---------------------------------------------------------------------

  /** On the nodes of the walk, the caller gives a span to exactly those that are `wanted`. */
  ghost predicate Decides<S(!new), L(!new)>(visit: Visitor<S, L>, es: seq<Todo>, wanted: Plan -> bool) {
    forall i, s, l :: 0 <= i < |es| ==> (visit(s, es[i].plan, es[i].edge, l).1.Some? <==> wanted(es[i].plan))
  }

  /** How many of the first `n` nodes are wanted. */
  function WantedCount(es: seq<Todo>, n: nat, wanted: Plan -> bool): (k: nat)
    requires n <= |es|
    ensures k <= n
  {
    if n == 0 then 0 else WantedCount(es, n - 1, wanted) + if wanted(es[n - 1].plan) then 1 else 0
  }

  /** How many of the first `n` nodes come after `cap` wanted ones. */
  function BeyondCount(es: seq<Todo>, n: nat, wanted: Plan -> bool, cap: nat): (k: nat)
    requires n <= |es|
    ensures k <= n
  {
    if n == 0 then 0
    else BeyondCount(es, n - 1, wanted, cap) + if WantedCount(es, n - 1, wanted) >= cap then 1 else 0
  }

  function AtMost(n: nat, cap: nat): nat { if n <= cap then n else cap }

  lemma NextHasSpan<S(!new), L(!new)>(es: seq<Todo>, w: Progress<S, L>, i: nat, cap: nat, visit: Visitor<S, L>, wanted: Plan -> bool)
    requires i < |es| && Decides(visit, es, wanted)
    ensures WalkNext(es, w, es[i], cap, visit).links[|w.links|].Some? <==> w.emitted < cap && wanted(es[i].plan)
  {
    hide Nearest;
  }

  lemma WantedStep<S(!new), L(!new)>(es: seq<Todo>, n: nat, cap: nat, visit: Visitor<S, L>, init: S, wanted: Plan -> bool)
    requires 0 < n <= |es| && Decides(visit, es, wanted)
    ensures var w, w' := Walked(es, n - 1, cap, visit, init), Walked(es, n, cap, visit, init);
            && (w'.links[n - 1].Some? <==> w.emitted < cap && wanted(es[n - 1].plan))
            && w'.emitted == w.emitted + (if w'.links[n - 1].Some? then 1 else 0)
            && forall i :: 0 <= i < n - 1 ==> w'.links[i] == w.links[i]
  {
    NextHasSpan(es, Walked(es, n - 1, cap, visit, init), n - 1, cap, visit, wanted);
    WalkedStep(es, n, cap, visit, init);
    hide Walked, WalkNext, Decides;
  }

  lemma {:induction false} EmittedIsWanted<S(!new), L(!new)>(es: seq<Todo>, n: nat, cap: nat, visit: Visitor<S, L>,
                                                             init: S, wanted: Plan -> bool)
    requires n <= |es| && Decides(visit, es, wanted)
    ensures Walked(es, n, cap, visit, init).emitted == AtMost(WantedCount(es, n, wanted), cap)
  {
    if n > 0 {
      WantedStep(es, n, cap, visit, init, wanted);
      hide Walked, Decides;
      EmittedIsWanted(es, n - 1, cap, visit, init, wanted);
    }
  }

  /** Exactly the first `cap` wanted nodes have spans. */
  lemma FirstWantedHaveSpans<S(!new), L(!new)>(es: seq<Todo>, i: nat, cap: nat, visit: Visitor<S, L>, init: S,
                                               wanted: Plan -> bool)
    requires i < |es| && Decides(visit, es, wanted)
    ensures Walked(es, |es|, cap, visit, init).links[i].Some? <==> wanted(es[i].plan) && WantedCount(es, i, wanted) < cap
  {
    EarlierLinks(es, i + 1, |es|, cap, visit, init);
    WantedStep(es, i + 1, cap, visit, init, wanted);
    EmittedIsWanted(es, i, cap, visit, init, wanted);
    hide Walked, Decides, WantedCount;
  }

  /** And exactly the nodes beyond them are omitted. */
  lemma {:induction false} OmittedAreBeyond<S(!new), L(!new)>(es: seq<Todo>, n: nat, cap: nat, visit: Visitor<S, L>,
                                                              init: S, wanted: Plan -> bool)
    requires n <= |es| && Decides(visit, es, wanted)
    ensures VisitedCount(es, n, cap, visit, init) + BeyondCount(es, n, wanted, cap) == n
  {
    if n > 0 {
      hide Walked, Decides;
      OmittedAreBeyond(es, n - 1, cap, visit, init, wanted);
      EmittedIsWanted(es, n - 1, cap, visit, init, wanted);
    }
  }

  lemma {:induction false} AllWanted(es: seq<Todo>, n: nat, wanted: Plan -> bool, cap: nat)
    requires n <= |es| && forall i :: 0 <= i < n ==> wanted(es[i].plan)
    ensures WantedCount(es, n, wanted) == n && BeyondCount(es, n, wanted, cap) == n - AtMost(n, cap)
  {
    if n > 0 {
      AllWanted(es, n - 1, wanted, cap);
    }
  }

  /**
   If the caller declines none of the nodes, exactly the first `cap` nodes in visiting order have a span,
   each attached to its direct parent, which has one too: the spans form a connected top part of the plan.
   */
  lemma {:induction false} TopPartIsKept<S(!new), L(!new)>(es: seq<Todo>, cap: nat, visit: Visitor<S, L>, init: S, wanted: Plan -> bool)
    requires ParentsFirst(es) && Decides(visit, es, wanted) && forall i :: 0 <= i < |es| ==> wanted(es[i].plan)
    ensures var w := Walked(es, |es|, cap, visit, init);
            && w.emitted == AtMost(|es|, cap) == VisitedCount(es, |es|, cap, visit, init)
            && (forall i :: 0 <= i < |es| ==> (w.links[i].Some? <==> i < cap))
            && (forall i :: 0 <= i < |es| && i < cap && es[i].parent.Some? ==>
                  && w.links[es[i].parent.value].Some?
                  && Nearest(es, Walked(es, i, cap, visit, init).links, es[i].parent) == w.links[es[i].parent.value])
  {
    hide Walked, VisitedCount, Decides, WantedCount, BeyondCount;
    EmittedIsWanted(es, |es|, cap, visit, init, wanted);
    OmittedAreBeyond(es, |es|, cap, visit, init, wanted);
    AllWanted(es, |es|, wanted, cap);
    var w := Walked(es, |es|, cap, visit, init);
    forall i | 0 <= i < |es| ensures w.links[i].Some? <==> i < cap {
      AllWanted(es, i, wanted, cap);
      FirstWantedHaveSpans(es, i, cap, visit, init, wanted);
    }
    forall i | 0 <= i < |es| && i < cap && es[i].parent.Some?
      ensures Nearest(es, Walked(es, i, cap, visit, init).links, es[i].parent) == w.links[es[i].parent.value]
    {
      EarlierLinks(es, i, |es|, cap, visit, init);
    }
  }

  // ---------------------------------------------------------------------
  // Any caller
  // ---------------------------------------------------------------------

  lemma {:induction false} CountIsFull<L>(links: seq<Option<L>>, v: nat)
    requires v <= |links| && forall i :: v <= i < |links| ==> links[i].None?
    ensures SpanCount(links) <= v && (SpanCount(links) == v <==> forall i :: 0 <= i < v ==> links[i].Some?)
  {
    if links != [] {
      CountIsFull(links[..|links| - 1], if v == |links| then v - 1 else v);
    }
  }

  /**
   What a walk reports adds up, for any caller: nodes are omitted only once `cap` spans exist, and spans
   and omitted nodes are all the nodes of the plan if and only if none of the visited ones was declined.
   */
  lemma WalkOfPlan<S, L>(env: Env, root: Plan, cap: nat, visit: Visitor<S, L>, init: S)
    ensures var es := Visited(env, root);
            var w, omitted := Walked(es, |es|, cap, visit, init), Skipped(es, cap, visit, init);
            && ParentsFirst(es) && |es| > 0
            && w.emitted <= cap && w.emitted + omitted <= |es|
            && (omitted > 0 ==> w.emitted == cap)
            && (w.emitted + omitted == |es| <==> forall i :: 0 <= i < |es| - omitted ==> w.links[i].Some?)
  {
    VisitedNodes(env, root);
    hide *;
    WalkAddsUp(Visited(env, root), cap, visit, init);
  }

  lemma WalkAddsUp<S, L>(es: seq<Todo>, cap: nat, visit: Visitor<S, L>, init: S)
    ensures var w, omitted := Walked(es, |es|, cap, visit, init), Skipped(es, cap, visit, init);
            && w.emitted <= cap && w.emitted + omitted <= |es|
            && (omitted > 0 ==> w.emitted == cap)
            && (w.emitted + omitted == |es| <==> forall i :: 0 <= i < |es| - omitted ==> w.links[i].Some?)
  {
    EmittedIsSpanCount(es, |es|, cap, visit, init);
    VisitedAreFirst(es, |es|, cap, visit, init);
    var links, v := Walked(es, |es|, cap, visit, init).links, VisitedCount(es, |es|, cap, visit, init);
    hide Walked, VisitedCount, SpanCount;
    CountIsFull(links, v);
  }

  lemma VisitedNodes(env: Env, root: Plan)
    ensures ParentsFirst(Visited(env, root)) && |Visited(env, root)| > 0
  {
    SubplansAttachedOnce(env, root);
    EntriesGrow(env, Enter(env, START, RootTodo(root)).0, Enter(env, START, RootTodo(root)).1);
  }
}
