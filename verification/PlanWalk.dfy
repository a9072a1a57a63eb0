/**
 The capped walk: which nodes get a span, and which link each of them is given as its parent. The
 specification goes over the nodes in visiting order (`SubplanSharing.Visited`); the walk itself keeps
 a stack of pending nodes and never looks back.
 */
module PlanWalk {
  import opened ChildPlans
  import opened PlanTree
  import opened SubplanSharing
  import opened Wrappers

  /** The caller's closure: it may change its state `S`, and may decline to give the node a span. */
  type Visitor<!S, !L> = (S, Plan, Option<Edge>, Option<L>) -> (S, Option<L>)

  // ---------------------------------------------------------------------
  // Specification, over the visited nodes
  // ---------------------------------------------------------------------

  /** The link of the nearest ancestor that has a span; `p` is the position of the direct parent. */
  function Nearest<L>(es: seq<Todo>, links: seq<Option<L>>, p: Option<nat>): Option<L>
    decreases if p.Some? then p.value + 1 else 0
  {
    if p.None? || p.value >= |links| || p.value >= |es| then None
    else if links[p.value].Some? then links[p.value]
    else
      var up := es[p.value].parent;
      if up.Some? && up.value >= p.value then None else Nearest(es, links, up)
  }

  /** The caller's state, and the link given to each of the first `n` nodes. */
  datatype Progress<S, L> = Progress(state: S, links: seq<Option<L>>, emitted: nat)

  function Walked<S, L>(es: seq<Todo>, n: nat, cap: nat, visit: Visitor<S, L>, init: S): (r: Progress<S, L>)
    requires n <= |es|
    ensures |r.links| == n
  {
    if n == 0 then Progress(init, [], 0)
    else WalkNext(es, Walked(es, n - 1, cap, visit, init), es[n - 1], cap, visit)
  }

  /** One more node: it is visited while fewer than `cap` spans exist. */
  function WalkNext<S, L>(es: seq<Todo>, w: Progress<S, L>, x: Todo, cap: nat, visit: Visitor<S, L>): (r: Progress<S, L>)
    ensures |r.links| == |w.links| + 1 && r.links[..|w.links|] == w.links
    ensures r.emitted == w.emitted + if r.links[|w.links|].Some? then 1 else 0
    ensures r.links[|w.links|].Some? ==> w.emitted < cap
  {
    if w.emitted < cap then
      var (state, link) := visit(w.state, x.plan, x.edge, Nearest(es, w.links, x.parent));
      Progress(state, w.links + [link], w.emitted + if link.Some? then 1 else 0)
    else Progress(w.state, w.links + [None], w.emitted)
  }

  /** How many nodes are visited before the cap is reached: a prefix of the visiting order. */
  function VisitedCount<S, L>(es: seq<Todo>, n: nat, cap: nat, visit: Visitor<S, L>, init: S): (v: nat)
    requires n <= |es|
    ensures v <= n
  {
    if n == 0 then 0
    else VisitedCount(es, n - 1, cap, visit, init) + if Walked(es, n - 1, cap, visit, init).emitted < cap then 1 else 0
  }

  /** Every node hangs off an earlier one. */
  ghost predicate ParentsFirst(es: seq<Todo>) {
    forall i :: 0 <= i < |es| && es[i].parent.Some? ==> es[i].parent.value < i
  }

  lemma {:induction false} NearestStable<L>(es: seq<Todo>, y: Todo, links: seq<Option<L>>, more: Option<L>, p: Option<nat>)
    requires |links| <= |es| && ParentsFirst(es) && (p.Some? ==> p.value < |links|)
    ensures Nearest(es + [y], links, p) == Nearest(es, links, p)
    ensures Nearest(es, links + [more], p) == Nearest(es, links, p)
    decreases if p.Some? then p.value + 1 else 0
  {
    if p.Some? && links[p.value].None? {
      NearestStable(es, y, links, more, es[p.value].parent);
    }
  }

  lemma WalkNextStable<S, L>(es: seq<Todo>, y: Todo, w: Progress<S, L>, i: nat, cap: nat, visit: Visitor<S, L>)
    requires ParentsFirst(es) && i < |es| && |w.links| == i
    ensures WalkNext(es + [y], w, es[i], cap, visit) == WalkNext(es, w, es[i], cap, visit)
  {
    NearestStable(es, y, w.links, None, es[i].parent);
    hide Nearest;
  }

  lemma {:induction false} WalkedStable<S, L>(es: seq<Todo>, y: Todo, n: nat, cap: nat, visit: Visitor<S, L>, init: S)
    requires n <= |es| && ParentsFirst(es)
    ensures Walked(es + [y], n, cap, visit, init) == Walked(es, n, cap, visit, init)
  {
    if n > 0 {
      WalkedStable(es, y, n - 1, cap, visit, init);
      WalkNextStable(es, y, Walked(es, n - 1, cap, visit, init), n - 1, cap, visit);
      assert (es + [y])[n - 1] == es[n - 1];
      hide WalkNext, Nearest, ParentsFirst;
    }
  }

  lemma {:induction false} VisitedCountStable<S, L>(es: seq<Todo>, y: Todo, n: nat, cap: nat, visit: Visitor<S, L>, init: S)
    requires n <= |es| && ParentsFirst(es)
    ensures VisitedCount(es + [y], n, cap, visit, init) == VisitedCount(es, n, cap, visit, init)
  {
    if n > 0 {
      VisitedCountStable(es, y, n - 1, cap, visit, init);
      WalkedStable(es, y, n - 1, cap, visit, init);
      hide Walked, Nearest, ParentsFirst;
    }
  }

  // ---------------------------------------------------------------------
  // The walk
  // ---------------------------------------------------------------------

  datatype Summary = Summary(emitted: nat, omitted: nat)

  datatype Item<L> = Item(plan: Plan, edge: Option<Edge>, parent: Option<L>)

  /** The stack (top at the end) holds the pending nodes, each with the link of its nearest ancestor. */
  ghost predicate StackHolds<L(!new)>(stack: seq<Item<L>>, todos: seq<Todo>, es: seq<Todo>, links: seq<Option<L>>) {
    && |stack| == |todos|
    && forall i :: 0 <= i < |todos| ==>
         && stack[|stack| - 1 - i] == Item(todos[i].plan, todos[i].edge, Nearest(es, links, todos[i].parent))
         && (todos[i].parent.Some? ==> todos[i].parent.value < |links|)
  }

  /** Pushes the children in reverse, so that the first one is popped first. */
  method PushReversed<L(!new)>(stack: seq<Item<L>>, children: seq<PlanChild>, parent: Option<L>) returns (r: seq<Item<L>>)
    ensures |r| == |stack| + |children|
    ensures forall i :: 0 <= i < |stack| ==> r[i] == stack[i]
    ensures forall i :: 0 <= i < |children| ==> r[|r| - 1 - i] == Item(children[i].plan, Some(children[i].edge), parent)
  {
    r := stack;
    var k := |children|;
    while k > 0
      invariant 0 <= k <= |children| && |r| == |stack| + |children| - k
      invariant forall i :: 0 <= i < |stack| ==> r[i] == stack[i]
      invariant forall i :: k <= i < |children| ==>
        r[|stack| + |children| - 1 - i] == Item(children[i].plan, Some(children[i].edge), parent)
    {
      k := k - 1;
      r := r + [Item(children[k].plan, Some(children[k].edge), parent)];
    }
  }

  /** One node further, the stack still holds what is pending. */
  lemma StackStep<S(!new), L(!new)>(env: Env, stack: seq<Item<L>>, stack': seq<Item<L>>, t: Trail, todos: seq<Todo>,
                                    w: Progress<S, L>, link: Option<L>)
    requires todos != [] && StackHolds(stack, todos, t.entries, w.links) && |w.links| == |t.entries|
    requires AllAttached(env, t, todos) && AllAttached(env, Enter(env, t, todos[0]).0, [])
    requires var children := Enter(env, t, todos[0]).1;
             var parent := if link.Some? then link else stack[|stack| - 1].parent;
             && |stack'| == |stack| - 1 + |children|
             && (forall i :: 0 <= i < |stack| - 1 ==> stack'[i] == stack[i])
             && (forall i :: 0 <= i < |children| ==> stack'[|stack'| - 1 - i] == Item(children[i].plan, children[i].edge, parent))
    ensures var (t', children) := Enter(env, t, todos[0]);
            StackHolds(stack', children + todos[1..], t'.entries, w.links + [link])
  {
    var (t', children) := Enter(env, t, todos[0]);
    var todos', n := children + todos[1..], |t.entries|;
    var parent := if link.Some? then link else stack[|stack| - 1].parent;
    ChildrenFacts(env, todos[0].plan, t.printed, n);
    hide Children, Occurrences, Enter;
    assert t'.entries == t.entries + [todos[0]];
    assert stack[|stack| - 1 - 0].parent == Nearest(t.entries, w.links, todos[0].parent);
    forall i | 0 <= i < |todos'|
      ensures stack'[|stack'| - 1 - i]
              == Item(todos'[i].plan, todos'[i].edge, Nearest(t'.entries, w.links + [link], todos'[i].parent))
      ensures todos'[i].parent.Some? ==> todos'[i].parent.value < n + 1
    {
      if i < |children| {
        assert IsNewChild(env, children[i], t.printed, n);
        ChildLink(t.entries, todos[0], w.links, link);
      } else {
        var j := i - |children| + 1;
        assert todos'[i] == todos[j];
        assert stack'[|stack'| - 1 - i] == stack[|stack| - 1 - j];
        StableBoth(t.entries, todos[0], w.links, link, todos[j].parent);
      }
    }
  }

  lemma StableBoth<L>(es: seq<Todo>, y: Todo, links: seq<Option<L>>, link: Option<L>, p: Option<nat>)
    requires |links| == |es| && ParentsFirst(es) && ParentsFirst(es + [y]) && (p.Some? ==> p.value < |links|)
    ensures Nearest(es + [y], links + [link], p) == Nearest(es, links, p)
  {
    NearestStable(es, y, links, link, p);
    NearestStable(es + [y], y, links, link, p);
  }

  /** The children of the node just visited attach to it, or to where it would have attached. */
  lemma ChildLink<L>(es: seq<Todo>, x: Todo, links: seq<Option<L>>, link: Option<L>)
    requires |links| == |es| && ParentsFirst(es) && ParentsFirst(es + [x])
    ensures Nearest(es + [x], links + [link], Some(|es|))
            == if link.Some? then link else Nearest(es, links, x.parent)
  {
    assert (es + [x])[|es|] == x;
    if link.None? {
      StableBoth(es, x, links, link, x.parent);
    }
  }

  /** A traversal of the plan below `root` on its way, with the spans given so far. */
  ghost predicate Underway<S, L>(env: Env, root: Plan, cap: nat, visit: Visitor<S, L>, init: S,
                                 t: Trail, todos: seq<Todo>, w: Progress<S, L>) {
    && Run(env, t, todos) == VisitTree(env, START, RootTodo(root))
    && PrintedAreReferenced(env, t) && AllAttached(env, t, todos)
    && w == Walked(t.entries, |t.entries|, cap, visit, init)
  }

  /** The nodes left out because the cap was reached. */
  function Skipped<S, L>(es: seq<Todo>, cap: nat, visit: Visitor<S, L>, init: S): nat {
    |es| - VisitedCount(es, |es|, cap, visit, init)
  }

  lemma NodeStep<S, L>(env: Env, root: Plan, cap: nat, visit: Visitor<S, L>, init: S,
                       t: Trail, todos: seq<Todo>, w: Progress<S, L>)
    requires todos != [] && Underway(env, root, cap, visit, init, t, todos, w)
    ensures var (t', children) := Enter(env, t, todos[0]);
            && Underway(env, root, cap, visit, init, t', children + todos[1..], WalkNext(t.entries, w, todos[0], cap, visit))
            && AllAttached(env, t', [])
            && Skipped(t'.entries, cap, visit, init) == Skipped(t.entries, cap, visit, init) + if w.emitted < cap then 0 else 1
  {
    EnterMeasure(env, t, todos);
    PrintedStep(env, t, todos[0]);
    AttachStep(env, t, todos);
    var (t', children) := Enter(env, t, todos[0]);
    AttachedParts(env, t, todos);
    AttachedParts(env, t', children + todos[1..]);
    assert t'.entries == t.entries + [todos[0]];
    hide Children, Enter, PrintedAreReferenced, AllAttached, ParentsFirst, VisitTree, Nearest, Walked, VisitedCount;
    WalkedGrows(t.entries, todos[0], cap, visit, init);
    hide WalkNext;
  }

  lemma WalkedGrows<S, L>(es: seq<Todo>, x: Todo, cap: nat, visit: Visitor<S, L>, init: S)
    requires ParentsFirst(es) && (x.parent.Some? ==> x.parent.value < |es|)
    ensures var n, w := |es|, Walked(es, |es|, cap, visit, init);
            && Walked(es + [x], n + 1, cap, visit, init) == WalkNext(es, w, x, cap, visit)
            && VisitedCount(es + [x], n + 1, cap, visit, init)
               == VisitedCount(es, n, cap, visit, init) + if w.emitted < cap then 1 else 0
  {
    WalkedStable(es, x, |es|, cap, visit, init);
    VisitedCountStable(es, x, |es|, cap, visit, init);
    NearestStable(es, x, Walked(es, |es|, cap, visit, init).links, None, x.parent);
    assert (es + [x])[|es|] == x;
    hide Nearest, ParentsFirst;
  }

  lemma Begins<S, L>(env: Env, root: Plan, cap: nat, visit: Visitor<S, L>, init: S)
    ensures Underway(env, root, cap, visit, init, START, [RootTodo(root)], Progress(init, [], 0))
    ensures Skipped(START.entries, cap, visit, init) == 0
  {
    VisitedIsRun(env, root);
  }

  lemma Ends<S, L>(env: Env, root: Plan, cap: nat, visit: Visitor<S, L>, init: S, t: Trail, w: Progress<S, L>)
    requires Underway(env, root, cap, visit, init, t, [], w)
    ensures t.entries == Visited(env, root) && w == Walked(t.entries, |t.entries|, cap, visit, init)
  {
  }

  lemma AttachedParts(env: Env, t: Trail, todos: seq<Todo>)
    requires AllAttached(env, t, todos)
    ensures AllAttached(env, t, []) && ParentsFirst(t.entries)
    ensures todos != [] && todos[0].parent.Some? ==> todos[0].parent.value < |t.entries|
  {
  }

  /**
   Walks the plan below `root`: nodes are popped in recursive preorder; a node popped while fewer than
   `cap` spans exist is visited with the link of its nearest ancestor that has a span; all others are
   counted as omitted. Terminates for every way of sharing sub-plans.
   */
  method WalkPlan<S(!new), L(!new)>(env: Env, root: Plan, cap: nat, visit: Visitor<S, L>, init: S)
    returns (summary: Summary, state: S)
    ensures var es := Visited(env, root);
            var w := Walked(es, |es|, cap, visit, init);
            && state == w.state && summary.emitted == w.emitted
            && summary.omitted == Skipped(es, cap, visit, init)
  {
    summary, state := Summary(0, 0), init;
    var stack: seq<Item<L>> := [Item(root, None, None)];
    var printed: set<int> := {};
    ghost var todos, t := [RootTodo(root)], START;
    ghost var w: Progress<S, L> := Progress(init, [], 0);
    Begins(env, root, cap, visit, init);
    hide Run, VisitTree, VisitAll, Walked, VisitedCount, Children, AllAttached, PrintedAreReferenced, TotalSize;
    hide Underway, Visited, Nearest, ParentsFirst;
    while |stack| > 0
      invariant printed == t.printed
      invariant Underway(env, root, cap, visit, init, t, todos, w)
      invariant StackHolds(stack, todos, t.entries, w.links)
      invariant state == w.state && summary.emitted == w.emitted
      invariant summary.omitted == Skipped(t.entries, cap, visit, init)
      decreases env.Keys - t.printed, TotalSize(todos)
    {
      hide Skipped;
      var node := stack[|stack| - 1];
      assert node == stack[|stack| - 1 - 0];
      EnterMeasure(env, t, todos);
      NodeStep(env, root, cap, visit, init, t, todos, w);

      var link: Option<L> := None;
      if summary.emitted < cap {
        var (newState, newLink) := visit(state, node.plan, node.edge, node.parent);
        state, link := newState, newLink;
      }
      if link.Some? {
        summary := summary.(emitted := summary.emitted + 1);
      } else if summary.emitted >= cap {
        summary := summary.(omitted := summary.omitted + 1);
      }
      var childrenParent := if link.Some? then link else node.parent;
      var children, printed' := PlanStateChildren(env, node.plan, printed, |t.entries|);
      var stack' := PushReversed(stack[..|stack| - 1], children, childrenParent);
      StackStep(env, stack, stack', t, todos, w, link);
      ghost var entered := Enter(env, t, todos[0]);
      w := WalkNext(t.entries, w, todos[0], cap, visit);
      t, todos := entered.0, entered.1 + todos[1..];
      stack, printed := stack', printed';
    }
    Ends(env, root, cap, visit, init, t, w);
  }
}
