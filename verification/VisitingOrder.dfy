/**
 In which order nodes are visited, read off positions: the children of a node in EXPLAIN's order, each
 with its whole subtree before the next one.
 */
module VisitingOrder {
  import opened PlanTree
  import opened SubplanSharing
  import opened Wrappers

  // ---------------------------------------------------------------------
  // The children of one node
  // ---------------------------------------------------------------------

  /** The ids that exist, are not among `seen`, and did not occur earlier in `ids`: in order of first occurrence. */
  function NewIds(env: Env, ids: seq<int>, seen: set<int>): seq<int> {
    if ids == [] then []
    else
      var n := |ids| - 1;
      NewIds(env, ids[..n], seen) + if ids[n] in env && ids[n] !in seen && ids[n] !in ids[..n] then [ids[n]] else []
  }

  /** `xs[from..]` starts with the sub-plans `ids`. */
  ghost predicate SubplansAt(env: Env, xs: seq<Todo>, from: nat, ids: seq<int>, relationship: Relationship, parent: nat) {
    && from + |ids| <= |xs|
    && forall i :: 0 <= i < |ids| ==>
         ids[i] in env && xs[from + i] == Todo(env[ids[i]], Some(Edge(relationship, Some(ids[i]))), Some(parent))
  }

  /** `xs` ends with the direct children `cs`, from `from` on, and then `after` more. */
  ghost predicate DirectAt(xs: seq<Todo>, from: nat, cs: PlanChildren, parent: nat)
    decreases cs
  {
    cs.Then? ==>
      && from < |xs| && xs[from] == Todo(cs.plan, Some(Edge(cs.relationship, None)), Some(parent))
      && DirectAt(xs, from + 1, cs.rest, parent)
  }

  function DirectCount(cs: PlanChildren): nat { if cs.NoMore? then 0 else 1 + DirectCount(cs.rest) }

  /** First the new init-plans, then the direct children one by one, then the new sub-plans; nothing else. */
  ghost predicate InExplainOrder(env: Env, xs: seq<Todo>, plan: Plan, printed: set<int>, parent: nat) {
    var inits := NewIds(env, plan.initPlans, printed);
    var subs := NewIds(env, plan.subPlans, printed + IdsOf(plan.initPlans));
    var direct := DirectCount(plan.children);
    && |xs| == |inits| + direct + |subs|
    && SubplansAt(env, xs, 0, inits, InitPlan, parent)
    && DirectAt(xs, |inits|, plan.children, parent)
    && SubplansAt(env, xs, |inits| + direct, subs, SubPlan, parent)
  }

  function IdsOf(ids: seq<int>): set<int> { set i | 0 <= i < |ids| :: ids[i] }

  /** The new ids of a list are those of its front, then those of the rest that are still new. */
  lemma {:induction false} NewIdsFront(env: Env, id: int, ids: seq<int>, seen: set<int>)
    ensures NewIds(env, [id] + ids, seen)
            == (if id in env && id !in seen then [id] else []) + NewIds(env, ids, seen + {id})
  {
    var all, n := [id] + ids, |ids|;
    if ids == [] {
      assert all[..0] == [] && all[0] == id;
    } else {
      var front := ids[..n - 1];
      NewIdsFront(env, id, front, seen);
      assert all[..n] == [id] + front && all[n] == ids[n - 1];
      assert ids[n - 1] in all[..n] <==> ids[n - 1] == id || ids[n - 1] in front;
    }
  }

  /** Ids that do not exist make no difference to what is new. */
  lemma {:induction false} NewIdsSame(env: Env, ids: seq<int>, seen: set<int>, seen': set<int>)
    requires forall id :: id in env ==> (id in seen <==> id in seen')
    ensures NewIds(env, ids, seen) == NewIds(env, ids, seen')
  {
    if ids != [] {
      NewIdsSame(env, ids[..|ids| - 1], seen, seen');
    }
  }

  lemma {:induction false} SubplansInOrder(env: Env, ids: seq<int>, relationship: Relationship, printed: set<int>, parent: nat)
    ensures var xs := Subplans(env, ids, relationship, printed, parent).0;
            var found := NewIds(env, ids, printed);
            |xs| == |found| && SubplansAt(env, xs, 0, found, relationship, parent)
  {
    if ids != [] {
      var id, rest := ids[0], ids[1..];
      assert ids == [id] + rest;
      NewIdsFront(env, id, rest, printed);
      if id !in env || id in printed {
        SubplansInOrder(env, rest, relationship, printed, parent);
        NewIdsSame(env, rest, printed, printed + {id});
      } else {
        SubplansInOrder(env, rest, relationship, printed + {id}, parent);
      }
    }
  }

  lemma {:induction false} DirectInOrder(cs: PlanChildren, parent: nat, before: seq<Todo>, after: seq<Todo>)
    ensures var xs := DirectChildren(cs, parent);
            |xs| == DirectCount(cs) && DirectAt(before + xs + after, |before|, cs, parent)
  {
    if cs.Then? {
      var x := Todo(cs.plan, Some(Edge(cs.relationship, None)), Some(parent));
      DirectInOrder(cs.rest, parent, before + [x], after);
      var xs, rest := DirectChildren(cs, parent), DirectChildren(cs.rest, parent);
      assert xs == [x] + rest;
      assert before + xs + after == before + [x] + rest + after;
    }
  }

  lemma SubplansShift(env: Env, before: seq<Todo>, xs: seq<Todo>, after: seq<Todo>, ids: seq<int>,
                      relationship: Relationship, parent: nat)
    requires SubplansAt(env, xs, 0, ids, relationship, parent)
    ensures SubplansAt(env, before + xs + after, |before|, ids, relationship, parent)
  {
    var all := before + xs + after;
    assert forall i :: 0 <= i < |xs| ==> all[|before| + i] == xs[i];
  }

  /** The children of a node, whatever was printed before, are listed in EXPLAIN's order. */
  lemma ChildrenInOrder(env: Env, plan: Plan, printed: set<int>, parent: nat)
    ensures InExplainOrder(env, Children(env, plan, printed, parent).0, plan, printed, parent)
  {
    var (inits, printed1) := Subplans(env, plan.initPlans, InitPlan, printed, parent);
    var direct := DirectChildren(plan.children, parent);
    var subs := Subplans(env, plan.subPlans, SubPlan, printed1, parent).0;
    SubplansInOrder(env, plan.initPlans, InitPlan, printed, parent);
    SubplansInOrder(env, plan.subPlans, SubPlan, printed1, parent);
    PrintedByInits(env, plan, printed, parent);
    assert Children(env, plan, printed, parent).0 == inits + direct + subs;
    hide Subplans, DirectChildren, NewIds, SubplansAt, DirectAt, Children, IdsOf, DirectCount;
    DirectInOrder(plan.children, parent, inits, subs);
    SubplansShift(env, [], inits, direct + subs, NewIds(env, plan.initPlans, printed), InitPlan, parent);
    SubplansShift(env, inits + direct, subs, [], NewIds(env, plan.subPlans, printed1), SubPlan, parent);
    assert [] + inits == inits && inits + direct + subs + [] == inits + direct + subs;
    Assoc(inits, direct, subs);
  }

  lemma PrintedByInits(env: Env, plan: Plan, printed: set<int>, parent: nat)
    ensures var printed1 := Subplans(env, plan.initPlans, InitPlan, printed, parent).1;
            NewIds(env, plan.subPlans, printed1) == NewIds(env, plan.subPlans, printed + IdsOf(plan.initPlans))
  {
    SubplansFacts(env, plan.initPlans, InitPlan, printed, parent);
    hide Occurrences, Subplans;
    assert forall id :: id in plan.initPlans <==> id in IdsOf(plan.initPlans);
    NewIdsSame(env, plan.subPlans, Subplans(env, plan.initPlans, InitPlan, printed, parent).1, printed + IdsOf(plan.initPlans));
  }

  // ---------------------------------------------------------------------
  // Over the whole visit
  // ---------------------------------------------------------------------

  /** The nodes among `es` whose direct parent is at position `p`, in order. */
  function Siblings(es: seq<Todo>, p: nat): seq<Todo> {
    if es == [] then [] else (if es[0].parent == Some(p) then [es[0]] else []) + Siblings(es[1..], p)
  }

  /** The sub-plans that exist and that a node before position `p` refers to. */
  ghost function PrintedBefore(env: Env, es: seq<Todo>, p: nat): set<int>
    requires p <= |es|
  {
    set id | id in env && Referenced(es[..p], id)
  }

  function ParentPos(x: Todo): int { if x.parent.None? then -1 else x.parent.value }

  /** Between a node and its parent there are only nodes below that parent: subtrees are visited as a whole. */
  ghost predicate DepthFirst(es: seq<Todo>) {
    forall i, j :: 0 <= i < j < |es| && ParentPos(es[j]) < i ==> ParentPos(es[i]) >= ParentPos(es[j])
  }

  lemma {:induction false} SiblingsConcat(a: seq<Todo>, b: seq<Todo>, p: nat)
    ensures Siblings(a + b, p) == Siblings(a, p) + Siblings(b, p)
  {
    if a == [] {
      assert a + b == b;
    } else {
      var first := if a[0].parent == Some(p) then [a[0]] else [];
      assert (a + b)[0] == a[0] && (a + b)[1..] == a[1..] + b;
      assert Siblings(a + b, p) == first + Siblings(a[1..] + b, p) && Siblings(a, p) == first + Siblings(a[1..], p);
      hide Siblings;
      SiblingsConcat(a[1..], b, p);
      Assoc(first, Siblings(a[1..], p), Siblings(b, p));
    }
  }

  lemma {:induction false} NoSiblings(es: seq<Todo>, p: nat)
    requires forall i :: 0 <= i < |es| ==> es[i].parent != Some(p)
    ensures Siblings(es, p) == []
  {
    if es != [] {
      NoSiblings(es[1..], p);
    }
  }

  lemma {:induction false} AllSiblings(es: seq<Todo>, p: nat)
    requires forall i :: 0 <= i < |es| ==> es[i].parent == Some(p)
    ensures Siblings(es, p) == es
  {
    if es != [] {
      AllSiblings(es[1..], p);
    }
  }

  /** Those of `all` that hang off the visited node at `p` are the children of that node. */
  ghost predicate Listed(env: Env, es: seq<Todo>, all: seq<Todo>, p: nat)
    requires p < |es|
  {
    Siblings(all, p) == Children(env, es[p].plan, PrintedBefore(env, es, p), p).0
  }

  ghost predicate SiblingsListed(env: Env, t: Trail, todos: seq<Todo>) {
    forall p :: 0 <= p < |t.entries| ==> Listed(env, t.entries, t.entries + todos, p)
  }

  /** The pending nodes come deepest first, and no visited one is in between a pending one and its parent. */
  ghost predicate PendingInOrder(es: seq<Todo>, todos: seq<Todo>) {
    && (forall a, b :: 0 <= a < b < |todos| ==> ParentPos(todos[a]) >= ParentPos(todos[b]))
    && (forall i, j :: 0 <= i < |es| && 0 <= j < |todos| && ParentPos(todos[j]) < i ==> ParentPos(es[i]) >= ParentPos(todos[j]))
    && (forall j :: 0 <= j < |todos| ==> ParentPos(todos[j]) < |es|)
  }

  lemma PrintedIs(env: Env, t: Trail, x: Todo)
    requires PrintedAreReferenced(env, t)
    ensures PrintedBefore(env, t.entries + [x], |t.entries|) == t.printed
  {
    var es := t.entries + [x];
    assert es[..|t.entries|] == t.entries;
    forall id ensures id in PrintedBefore(env, es, |t.entries|) <==> id in t.printed {
      assert id in t.printed <==> id in env && Referenced(t.entries, id);
      hide Referenced;
    }
  }

  lemma NoneBelow(env: Env, t: Trail, todos: seq<Todo>)
    requires AllAttached(env, t, todos)
    ensures Siblings(t.entries, |t.entries|) == [] && Siblings(todos, |t.entries|) == []
  {
    NoSiblings(t.entries, |t.entries|);
    NoSiblings(todos, |t.entries|);
  }

  /** What `Enter` adds below the node it enters, and nowhere else. */
  lemma ChildrenAreSiblings(env: Env, t: Trail, x: Todo, p: nat)
    requires p <= |t.entries|
    ensures var children := Enter(env, t, x).1;
            Siblings(children, p) == if p == |t.entries| then children else []
  {
    ChildrenFacts(env, x.plan, t.printed, |t.entries|);
    var children := Enter(env, t, x).1;
    assert forall i :: 0 <= i < |children| ==> children[i].parent == Some(|t.entries|);
    hide Children, Occurrences, Enter;
    if p == |t.entries| {
      AllSiblings(children, p);
    } else {
      NoSiblings(children, p);
    }
  }

  /** Entering a node changes who hangs off that node only. */
  lemma SiblingsStep(env: Env, t: Trail, todos: seq<Todo>, p: nat)
    requires todos != [] && AllAttached(env, t, todos) && p <= |t.entries|
    ensures var (t', children) := Enter(env, t, todos[0]);
            Siblings(t'.entries + (children + todos[1..]), p)
            == if p == |t.entries| then children else Siblings(t.entries + todos, p)
  {
    NoneBelow(env, t, todos);
    ChildrenAreSiblings(env, t, todos[0], p);
    var (t', children) := Enter(env, t, todos[0]);
    assert t'.entries == t.entries + [todos[0]];
    hide *;
    assert todos == [todos[0]] + todos[1..];
    SplitSiblings(t.entries, todos[0], children, todos[1..], p);
    SiblingsConcat([todos[0]], todos[1..], p);
    Regroup(Siblings(t.entries, p), Siblings([todos[0]], p), Siblings(children, p), Siblings(todos[1..], p));
  }

  lemma Regroup(a: seq<Todo>, b: seq<Todo>, c: seq<Todo>, d: seq<Todo>)
    ensures c == [] ==> a + b + (c + d) == a + (b + d)
    ensures a == [] && b + d == [] ==> a + b + (c + d) == c
  {
    assert b + d == [] ==> |b| + |d| == 0;
  }

  lemma ListedAt(env: Env, t: Trail, todos: seq<Todo>, p: nat)
    requires todos != [] && PrintedAreReferenced(env, t) && AllAttached(env, t, todos) && p <= |t.entries|
    requires p < |t.entries| ==> Listed(env, t.entries, t.entries + todos, p)
    ensures var (t', children) := Enter(env, t, todos[0]);
            Listed(env, t'.entries, t'.entries + (children + todos[1..]), p)
  {
    SiblingsStep(env, t, todos, p);
    PrintedIs(env, t, todos[0]);
    var es, es' := t.entries, Enter(env, t, todos[0]).0.entries;
    assert es' == es + [todos[0]];
    assert p < |es| ==> es'[..p] == es[..p] && es'[p] == es[p];
    hide AllAttached, PrintedAreReferenced, Siblings, Referenced;
  }

  lemma ListedStep(env: Env, t: Trail, todos: seq<Todo>)
    requires todos != [] && SiblingsListed(env, t, todos) && PrintedAreReferenced(env, t) && AllAttached(env, t, todos)
    ensures var (t', children) := Enter(env, t, todos[0]); SiblingsListed(env, t', children + todos[1..])
  {
    var (t', children) := Enter(env, t, todos[0]);
    assert |t'.entries| == |t.entries| + 1;
    hide Listed, AllAttached, PrintedAreReferenced, Enter;
    forall p | 0 <= p < |t'.entries| ensures Listed(env, t'.entries, t'.entries + (children + todos[1..]), p) {
      ListedAt(env, t, todos, p);
    }
  }

  lemma SplitSiblings(es: seq<Todo>, x: Todo, children: seq<Todo>, rest: seq<Todo>, p: nat)
    ensures Siblings(es + [x] + (children + rest), p)
            == Siblings(es, p) + Siblings([x], p) + (Siblings(children, p) + Siblings(rest, p))
    ensures Siblings(es + ([x] + rest), p) == Siblings(es, p) + (Siblings([x], p) + Siblings(rest, p))
  {
    SiblingsConcat(es + [x], children + rest, p);
    SiblingsConcat(es, [x], p);
    SiblingsConcat(children, rest, p);
    SiblingsConcat(es, [x] + rest, p);
    SiblingsConcat([x], rest, p);
  }

  lemma OrderStep(env: Env, t: Trail, todos: seq<Todo>)
    requires todos != [] && DepthFirst(t.entries) && PendingInOrder(t.entries, todos)
    ensures var (t', children) := Enter(env, t, todos[0]);
            DepthFirst(t'.entries) && PendingInOrder(t'.entries, children + todos[1..])
  {
    var (t', children) := Enter(env, t, todos[0]);
    ChildrenFacts(env, todos[0].plan, t.printed, |t.entries|);
    assert forall i :: 0 <= i < |children| ==> ParentPos(children[i]) == |t.entries|;
    assert t'.entries == t.entries + [todos[0]];
    hide Children, Occurrences, Enter;
    DepthFirstNext(t.entries, todos);
    PendingNext(t.entries, todos, children);
  }

  lemma DepthFirstNext(es: seq<Todo>, todos: seq<Todo>)
    requires todos != [] && DepthFirst(es) && PendingInOrder(es, todos)
    ensures DepthFirst(es + [todos[0]])
  {
  }

  lemma PendingNext(es: seq<Todo>, todos: seq<Todo>, children: seq<Todo>)
    requires todos != [] && PendingInOrder(es, todos)
    requires forall i :: 0 <= i < |children| ==> ParentPos(children[i]) == |es|
    ensures PendingInOrder(es + [todos[0]], children + todos[1..])
  {
  }

  lemma {:induction false} RunInOrder(env: Env, t: Trail, todos: seq<Todo>)
    requires PrintedAreReferenced(env, t) && AllAttached(env, t, todos)
    requires SiblingsListed(env, t, todos) && DepthFirst(t.entries) && PendingInOrder(t.entries, todos)
    ensures var r := Run(env, t, todos);
            SiblingsListed(env, r, []) && DepthFirst(r.entries) && t.entries <= r.entries
    decreases env.Keys - t.printed, TotalSize(todos)
  {
    hide PrintedAreReferenced, AllAttached, SiblingsListed, DepthFirst, PendingInOrder;
    if todos != [] {
      EnterMeasure(env, t, todos);
      PrintedStep(env, t, todos[0]);
      AttachStep(env, t, todos);
      ListedStep(env, t, todos);
      OrderStep(env, t, todos);
      var (t', children) := Enter(env, t, todos[0]);
      RunInOrder(env, t', children + todos[1..]);
    }
  }

  /**
   The visiting order, for every plan and every sharing of sub-plans: the root comes first; the nodes that
   hang off a node are its init-plans, its direct children and its sub-plans, in EXPLAIN's order, without
   those reported earlier; and each subtree is visited as a whole before the next sibling.
   */
  lemma VisitedInOrder(env: Env, root: Plan, p: nat)
    requires p < |Visited(env, root)|
    ensures var es := Visited(env, root);
            && es[0] == Todo(root, None, None) && DepthFirst(es)
            && InExplainOrder(env, Siblings(es, p), es[p].plan, PrintedBefore(env, es, p), p)
  {
    var es := Visited(env, root);
    RootInOrder(env, root);
    FirstIsRoot(env, root);
    hide InExplainOrder, Visited, DepthFirst, Children, PrintedBefore;
    ChildrenInOrder(env, es[p].plan, PrintedBefore(env, es, p), p);
    assert Listed(env, es, es, p);
  }

  lemma RootInOrder(env: Env, root: Plan)
    ensures var es := Visited(env, root);
            DepthFirst(es) && forall p :: 0 <= p < |es| ==> Listed(env, es, es, p)
  {
    VisitedIsRun(env, root);
    var start := [RootTodo(root)];
    assert PrintedAreReferenced(env, START) && AllAttached(env, START, start);
    assert SiblingsListed(env, START, start) && DepthFirst([]) && PendingInOrder([], start);
    hide PrintedAreReferenced, AllAttached, DepthFirst, PendingInOrder, Listed, Run, VisitTree, SiblingsListed;
    RunInOrder(env, START, start);
    ListedAlone(env, Run(env, START, start));
  }

  lemma ListedAlone(env: Env, t: Trail)
    requires SiblingsListed(env, t, [])
    ensures forall p :: 0 <= p < |t.entries| ==> Listed(env, t.entries, t.entries, p)
  {
    assert t.entries + [] == t.entries;
  }

  lemma FirstIsRoot(env: Env, root: Plan)
    requires Visited(env, root) != []
    ensures Visited(env, root)[0] == RootTodo(root)
  {
    SubplansAttachedOnce(env, root);
    var (t, children) := Enter(env, START, RootTodo(root));
    EntriesGrow(env, t, children);
    assert t.entries[0] == RootTodo(root);
  }

  lemma {:induction false} EntriesGrow(env: Env, t: Trail, todos: seq<Todo>)
    ensures t.entries <= VisitAll(env, t, todos).entries
    decreases env.Keys - t.printed, TotalSize(todos)
  {
    RunIsPreorder(env, t, todos);
    if todos != [] {
      EnterMeasure(env, t, todos);
      var (t', children) := Enter(env, t, todos[0]);
      RunIsPreorder(env, t', children + todos[1..]);
      EntriesGrow(env, t', children + todos[1..]);
    }
  }
}
