/** Every sub-plan is attached once, to the first visited node that refers to it. */
module SubplanSharing {
  import opened PlanTree
  import opened Wrappers

  predicate RefersTo(p: Plan, id: int) { id in p.initPlans || id in p.subPlans }

  /** `x` is the root of sub-plan `id`. */
  predicate IsRootOf(x: Todo, id: int) { x.edge.Some? && x.edge.value.subplan == Some(id) }

  function Occurrences(xs: seq<Todo>, id: int): nat {
    if xs == [] then 0 else (if IsRootOf(xs[0], id) then 1 else 0) + Occurrences(xs[1..], id)
  }

  lemma {:induction false} OccurrencesConcat(a: seq<Todo>, b: seq<Todo>, id: int)
    ensures Occurrences(a + b, id) == Occurrences(a, id) + Occurrences(b, id)
  {
    if a == [] {
      assert a + b == b;
    } else {
      OccurrencesConcat(a[1..], b, id);
      assert (a + b)[0] == a[0] && (a + b)[1..] == a[1..] + b;
    }
  }

  /** A new child: of the node at `parent`; if the root of a sub-plan, of one that was not printed before. */
  predicate IsNewChild(env: Env, x: Todo, printed: set<int>, parent: nat) {
    && x.parent == Some(parent) && x.edge.Some?
    && var id := x.edge.value.subplan;
       id.Some? ==> id.value in env && id.value !in printed && x.plan == env[id.value]
  }

  lemma {:induction false} SubplansFacts(env: Env, ids: seq<int>, relationship: Relationship, printed: set<int>, parent: nat)
    ensures var (xs, printed') := Subplans(env, ids, relationship, printed, parent);
            && (forall id :: id in printed' <==> id in printed || (id in env && id in ids))
            && (forall id :: Occurrences(xs, id) == if id in printed' && id !in printed then 1 else 0)
            && (forall i :: 0 <= i < |xs| ==> IsNewChild(env, xs[i], printed, parent))
            && (forall i :: 0 <= i < |xs| ==> xs[i].edge.value.subplan.Some? && xs[i].edge.value.subplan.value in ids)
  {
    if ids != [] {
      assert forall id :: id in ids <==> id == ids[0] || id in ids[1..];
      if ids[0] !in env || ids[0] in printed {
        SubplansFacts(env, ids[1..], relationship, printed, parent);
      } else {
        SubplansFacts(env, ids[1..], relationship, printed + {ids[0]}, parent);
        var (rest, printed') := Subplans(env, ids[1..], relationship, printed + {ids[0]}, parent);
        var first := Todo(env[ids[0]], Some(Edge(relationship, Some(ids[0]))), Some(parent));
        assert ([first] + rest)[1..] == rest;
      }
    }
  }

  lemma {:induction false} DirectFacts(env: Env, cs: PlanChildren, printed: set<int>, parent: nat)
    ensures var xs := DirectChildren(cs, parent);
            && (forall id :: Occurrences(xs, id) == 0)
            && (forall i :: 0 <= i < |xs| ==> IsNewChild(env, xs[i], printed, parent) && xs[i].edge.value.subplan.None?)
  {
    if cs.Then? {
      DirectFacts(env, cs.rest, printed, parent);
      assert forall id :: Occurrences(DirectChildren(cs.rest, parent), id) == 0;
      var rest := DirectChildren(cs.rest, parent);
      var first := Todo(cs.plan, Some(Edge(cs.relationship, None)), Some(parent));
      var xs := DirectChildren(cs, parent);
      assert xs == [first] + rest && xs[1..] == rest;
    }
  }

  lemma ChildrenFacts(env: Env, plan: Plan, printed: set<int>, parent: nat)
    ensures var (xs, printed') := Children(env, plan, printed, parent);
            && (forall id :: id in printed' <==> id in printed || (id in env && RefersTo(plan, id)))
            && (forall id :: Occurrences(xs, id) == if id in printed' && id !in printed then 1 else 0)
            && (forall i :: 0 <= i < |xs| ==> IsNewChild(env, xs[i], printed, parent))
            && (forall i :: 0 <= i < |xs| && xs[i].edge.value.subplan.Some? ==> RefersTo(plan, xs[i].edge.value.subplan.value))
  {
    var (inits, printed1) := Subplans(env, plan.initPlans, InitPlan, printed, parent);
    var direct := DirectChildren(plan.children, parent);
    var (subs, printed2) := Subplans(env, plan.subPlans, SubPlan, printed1, parent);
    SubplansFacts(env, plan.initPlans, InitPlan, printed, parent);
    DirectFacts(env, plan.children, printed, parent);
    assert forall id :: Occurrences(DirectChildren(plan.children, parent), id) == 0;
    SubplansFacts(env, plan.subPlans, SubPlan, printed1, parent);
    var xs := inits + direct + subs;
    forall id ensures Occurrences(xs, id) == if id in printed2 && id !in printed then 1 else 0 {
      OccurrencesConcat(inits + direct, subs, id);
      OccurrencesConcat(inits, direct, id);
    }
    hide Subplans, DirectChildren, Occurrences;
    forall i | 0 <= i < |xs|
      ensures IsNewChild(env, xs[i], printed, parent)
      ensures xs[i].edge.value.subplan.Some? ==> RefersTo(plan, xs[i].edge.value.subplan.value)
    {
      if i < |inits| {
        assert xs[i] == inits[i];
      } else if i < |inits| + |direct| {
        assert xs[i] == direct[i - |inits|];
      } else {
        assert xs[i] == subs[i - |inits| - |direct|];
      }
    }
  }

  // ---------------------------------------------------------------------
  // The invariant of a traversal
  // ---------------------------------------------------------------------

  ghost predicate Referenced(entries: seq<Todo>, id: int) {
    exists i :: 0 <= i < |entries| && RefersTo(entries[i].plan, id)
  }

  /** `p` is the first visited node that refers to `id`. */
  ghost predicate FirstToRefer(entries: seq<Todo>, p: nat, id: int) {
    p < |entries| && RefersTo(entries[p].plan, id) && forall j :: 0 <= j < p ==> !RefersTo(entries[j].plan, id)
  }

  /** `x`, visited or pending, hangs off an earlier visited node; a sub-plan off the first one to refer to it. */
  ghost predicate WellAttached(env: Env, entries: seq<Todo>, x: Todo, bound: nat) {
    && (x.parent.Some? ==> x.parent.value < bound)
    && (x.edge.Some? && x.edge.value.subplan.Some? ==>
          var id := x.edge.value.subplan.value;
          id in env && x.plan == env[id] && x.parent.Some? && FirstToRefer(entries, x.parent.value, id))
  }

  ghost predicate PrintedAreReferenced(env: Env, t: Trail) {
    forall id :: id in t.printed <==> id in env && Referenced(t.entries, id)
  }

  ghost predicate EachOnce(t: Trail, todos: seq<Todo>) {
    forall id :: Occurrences(t.entries, id) + Occurrences(todos, id) == if id in t.printed then 1 else 0
  }

  ghost predicate AllAttached(env: Env, t: Trail, todos: seq<Todo>) {
    && (forall i :: 0 <= i < |t.entries| ==> WellAttached(env, t.entries, t.entries[i], i))
    && (forall i :: 0 <= i < |todos| ==> WellAttached(env, t.entries, todos[i], |t.entries|))
  }

  lemma PrintedStep(env: Env, t: Trail, x: Todo)
    requires PrintedAreReferenced(env, t)
    ensures PrintedAreReferenced(env, Enter(env, t, x).0)
  {
    ChildrenFacts(env, x.plan, t.printed, |t.entries|);
    hide Children, Occurrences;
    var t' := Enter(env, t, x).0;
    forall id ensures Referenced(t'.entries, id) <==> Referenced(t.entries, id) || RefersTo(x.plan, id) {
      if Referenced(t.entries, id) {
        var i :| 0 <= i < |t.entries| && RefersTo(t.entries[i].plan, id);
        assert t'.entries[i] == t.entries[i];
      }
      if RefersTo(x.plan, id) {
        assert t'.entries[|t.entries|] == x;
      }
    }
  }

  lemma OnceStep(env: Env, t: Trail, todos: seq<Todo>)
    requires EachOnce(t, todos) && todos != []
    ensures var (t', children) := Enter(env, t, todos[0]); EachOnce(t', children + todos[1..])
  {
    var (t', children) := Enter(env, t, todos[0]);
    ChildrenFacts(env, todos[0].plan, t.printed, |t.entries|);
    assert todos == [todos[0]] + todos[1..];
    forall id
      ensures Occurrences(t'.entries, id) + Occurrences(children + todos[1..], id) == if id in t'.printed then 1 else 0
    {
      OccurrencesConcat(t.entries, [todos[0]], id);
      OccurrencesConcat(children, todos[1..], id);
      OccurrencesConcat([todos[0]], todos[1..], id);
      hide Children, Occurrences;
    }
  }

  lemma StaysAttached(env: Env, entries: seq<Todo>, y: Todo, x: Todo, bound: nat)
    requires bound <= |entries| && WellAttached(env, entries, x, bound)
    ensures WellAttached(env, entries + [y], x, bound)
  {
  }

  lemma AttachStep(env: Env, t: Trail, todos: seq<Todo>)
    requires PrintedAreReferenced(env, t) && AllAttached(env, t, todos) && todos != []
    ensures var (t', children) := Enter(env, t, todos[0]); AllAttached(env, t', children + todos[1..])
  {
    var (t', children) := Enter(env, t, todos[0]);
    ChildrenFacts(env, todos[0].plan, t.printed, |t.entries|);
    hide Children, Occurrences;
    var n, todos' := |t.entries|, children + todos[1..];
    forall i | 0 <= i <= n ensures WellAttached(env, t'.entries, t'.entries[i], i) {
      if i < n {
        StaysAttached(env, t.entries, todos[0], t.entries[i], i);
      } else {
        StaysAttached(env, t.entries, todos[0], todos[0], n);
      }
    }
    forall i | 0 <= i < |todos'| ensures WellAttached(env, t'.entries, todos'[i], n + 1) {
      if i < |children| {
        assert IsNewChild(env, children[i], t.printed, n);
        NewChildAttached(env, t, todos[0], children[i]);
      } else {
        assert todos'[i] == todos[i - |children| + 1];
        StaysAttached(env, t.entries, todos[0], todos'[i], n);
      }
    }
  }

  lemma NewChildAttached(env: Env, t: Trail, x: Todo, child: Todo)
    requires PrintedAreReferenced(env, t) && IsNewChild(env, child, t.printed, |t.entries|)
    requires child.edge.value.subplan.Some? ==> RefersTo(x.plan, child.edge.value.subplan.value)
    ensures WellAttached(env, t.entries + [x], child, |t.entries| + 1)
  {
    if child.edge.value.subplan.Some? {
      var id := child.edge.value.subplan.value;
      forall j | 0 <= j < |t.entries| ensures !RefersTo((t.entries + [x])[j].plan, id) {
        assert !Referenced(t.entries, id);
      }
    }
  }

  lemma {:induction false} RunKeeps(env: Env, t: Trail, todos: seq<Todo>)
    requires PrintedAreReferenced(env, t) && EachOnce(t, todos) && AllAttached(env, t, todos)
    ensures var r := Run(env, t, todos);
            PrintedAreReferenced(env, r) && EachOnce(r, []) && AllAttached(env, r, [])
    decreases env.Keys - t.printed, TotalSize(todos)
  {
    hide PrintedAreReferenced, EachOnce, AllAttached;
    if todos != [] {
      EnterMeasure(env, t, todos);
      PrintedStep(env, t, todos[0]);
      OnceStep(env, t, todos);
      AttachStep(env, t, todos);
      var (t', children) := Enter(env, t, todos[0]);
      RunKeeps(env, t', children + todos[1..]);
    }
  }

  function RootTodo(root: Plan): Todo { Todo(root, None, None) }

  /** The nodes of a plan in visiting order. */
  function Visited(env: Env, root: Plan): seq<Todo> { VisitTree(env, START, RootTodo(root)).entries }

  lemma VisitedIsRun(env: Env, root: Plan)
    ensures VisitTree(env, START, RootTodo(root)) == Run(env, START, [RootTodo(root)])
  {
    RunIsPreorder(env, START, [RootTodo(root)]);
  }

  /**
   For every plan and every way of sharing sub-plans, cyclic references included: a sub-plan is
   attached exactly once if it exists and some visited node refers to it, and otherwise never; it
   hangs off the first visited node that refers to it; and every node hangs off an earlier one.
   */
  lemma SubplansAttachedOnce(env: Env, root: Plan)
    ensures var es := Visited(env, root);
            && (forall id :: Occurrences(es, id) == if id in env && Referenced(es, id) then 1 else 0)
            && (forall i :: 0 <= i < |es| ==> WellAttached(env, es, es[i], i))
  {
    VisitedIsRun(env, root);
    assert [RootTodo(root)][1..] == [];
    RunKeeps(env, START, [RootTodo(root)]);
  }
}
