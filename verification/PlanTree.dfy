/**
 Plan trees with shared sub-plans, and the order in which they are visited. A plan refers to sub-plans
 by id; several nodes may refer to the same one, and references may even be cyclic. The recursive
 preorder is the specification; `Run` is the same traversal with an explicit list of pending nodes.
 */
module PlanTree {
  import opened Wrappers

  datatype Relationship = Outer | Inner | InitPlan | SubPlan | Member | Subquery | Child

  /** How a node hangs off its direct parent; `subplan` is set for the root of a sub-plan. */
  datatype Edge = Edge(relationship: Relationship, subplan: Option<int>)

  datatype PlanChildren = NoMore | Then(relationship: Relationship, plan: Plan, rest: PlanChildren)

  /**
   A plan state: its measured run time, whether it points to a plan at all, the relation it scans, the
   ids in its list of init-plans, its direct children in EXPLAIN's order, and the ids in its list of sub-plans.
   */
  datatype Plan = Plan(totalNs: nat, hasPlan: bool, relation: Option<string>,
                       initPlans: seq<int>, children: PlanChildren, subPlans: seq<int>)

  /** The plan state of every sub-plan; a reference to an id without one is a null pointer. */
  type Env = map<int, Plan>

  /** A node to visit: its edge and the position (in visiting order) of its direct parent. */
  datatype Todo = Todo(plan: Plan, edge: Option<Edge>, parent: Option<nat>)

  function Size(p: Plan): (n: nat)
    ensures n > 0
  {
    1 + ChildrenSize(p.children)
  }

  function ChildrenSize(cs: PlanChildren): nat {
    match cs
    case NoMore => 0
    case Then(_, plan, rest) => Size(plan) + ChildrenSize(rest)
  }

  function TotalSize(todos: seq<Todo>): nat {
    if todos == [] then 0 else Size(todos[0].plan) + TotalSize(todos[1..])
  }

  lemma {:induction false} TotalSizeConcat(a: seq<Todo>, b: seq<Todo>)
    ensures TotalSize(a + b) == TotalSize(a) + TotalSize(b)
  {
    if a == [] {
      assert a + b == b;
    } else {
      TotalSizeConcat(a[1..], b);
      assert (a + b)[0] == a[0] && (a + b)[1..] == a[1..] + b;
    }
  }

  /** The sub-plans of `ids` that exist and are not printed yet; they are marked as printed right away. */
  function Subplans(env: Env, ids: seq<int>, relationship: Relationship, printed: set<int>, parent: nat)
    : (r: (seq<Todo>, set<int>))
    ensures printed <= r.1 && r.1 - printed <= env.Keys
    ensures r.1 == printed ==> r.0 == []
  {
    if ids == [] then ([], printed)
    else if ids[0] !in env || ids[0] in printed then Subplans(env, ids[1..], relationship, printed, parent)
    else
      var (rest, printed') := Subplans(env, ids[1..], relationship, printed + {ids[0]}, parent);
      ([Todo(env[ids[0]], Some(Edge(relationship, Some(ids[0]))), Some(parent))] + rest, printed')
  }

  function DirectChildren(cs: PlanChildren, parent: nat): (r: seq<Todo>)
    ensures TotalSize(r) == ChildrenSize(cs)
  {
    match cs
    case NoMore => []
    case Then(relationship, plan, rest) =>
      [Todo(plan, Some(Edge(relationship, None)), Some(parent))] + DirectChildren(rest, parent)
  }

  /** The children of a node, in order, and the sub-plans printed after it: `plan_state_children`. */
  function Children(env: Env, plan: Plan, printed: set<int>, parent: nat): (r: (seq<Todo>, set<int>))
    ensures printed <= r.1 && r.1 - printed <= env.Keys
    ensures r.1 == printed ==> TotalSize(r.0) < Size(plan)
  {
    var (inits, printed1) := Subplans(env, plan.initPlans, InitPlan, printed, parent);
    var direct := DirectChildren(plan.children, parent);
    var (subs, printed2) := Subplans(env, plan.subPlans, SubPlan, printed1, parent);
    assert printed2 == printed ==> inits + direct + subs == direct;
    (inits + direct + subs, printed2)
  }

  /** What a traversal has done: the sub-plans printed and the nodes visited, in order. */
  datatype Trail = Trail(printed: set<int>, entries: seq<Todo>)

  const START: Trail := Trail({}, [])

  // ---------------------------------------------------------------------
  // Recursive preorder
  // ---------------------------------------------------------------------

  function VisitTree(env: Env, t: Trail, x: Todo): (r: Trail)
    ensures t.printed <= r.printed
    decreases env.Keys - t.printed, Size(x.plan), 0
  {
    var (children, printed) := Children(env, x.plan, t.printed, |t.entries|);
    VisitAll(env, Trail(printed, t.entries + [x]), children)
  }

  function VisitAll(env: Env, t: Trail, todos: seq<Todo>): (r: Trail)
    ensures t.printed <= r.printed
    decreases env.Keys - t.printed, TotalSize(todos), 1
  {
    if todos == [] then t else VisitAll(env, VisitTree(env, t, todos[0]), todos[1..])
  }

  // ---------------------------------------------------------------------
  // The same with a list of pending nodes
  // ---------------------------------------------------------------------

  function Enter(env: Env, t: Trail, x: Todo): (Trail, seq<Todo>) {
    var (children, printed) := Children(env, x.plan, t.printed, |t.entries|);
    (Trail(printed, t.entries + [x]), children)
  }

  lemma EnterMeasure(env: Env, t: Trail, todos: seq<Todo>)
    requires todos != []
    ensures var (t', children) := Enter(env, t, todos[0]);
            var left, left' := env.Keys - t.printed, env.Keys - t'.printed;
            left' < left || (left' == left && TotalSize(children + todos[1..]) < TotalSize(todos))
  {
    var (t', children) := Enter(env, t, todos[0]);
    TotalSizeConcat(children, todos[1..]);
    Shrinks(t.printed, t'.printed, env.Keys);
  }

  lemma Shrinks(a: set<int>, b: set<int>, all: set<int>)
    requires a <= b && b - a <= all
    ensures all - b < all - a || a == b
  {
    if exists id :: id in b && id !in a {
      var id :| id in b && id !in a;
      assert id in all - a && id !in all - b;
    } else {
      assert a == b;
    }
  }

  function Run(env: Env, t: Trail, todos: seq<Todo>): Trail
    decreases env.Keys - t.printed, TotalSize(todos)
  {
    if todos == [] then t
    else
      EnterMeasure(env, t, todos);
      var (t', children) := Enter(env, t, todos[0]);
      Run(env, t', children + todos[1..])
  }

  lemma {:induction false} VisitAllConcat(env: Env, t: Trail, a: seq<Todo>, b: seq<Todo>)
    ensures VisitAll(env, t, a + b) == VisitAll(env, VisitAll(env, t, a), b)
    decreases |a|
  {
    if a == [] {
      assert a + b == b;
    } else {
      assert (a + b)[0] == a[0] && (a + b)[1..] == a[1..] + b;
      VisitAllConcat(env, VisitTree(env, t, a[0]), a[1..], b);
    }
  }

  /** The explicit list of pending nodes gives exactly the recursive preorder. */
  lemma {:induction false} RunIsPreorder(env: Env, t: Trail, todos: seq<Todo>)
    ensures Run(env, t, todos) == VisitAll(env, t, todos)
    decreases env.Keys - t.printed, TotalSize(todos)
  {
    if todos != [] {
      EnterMeasure(env, t, todos);
      var (t', children) := Enter(env, t, todos[0]);
      RunIsPreorder(env, t', children + todos[1..]);
      VisitAllConcat(env, t', children, todos[1..]);
    }
  }
}
