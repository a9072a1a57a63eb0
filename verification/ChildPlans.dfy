/** Enumerating the children of a plan state step by step, as `PlanTree.Children` lists them. */
module ChildPlans {
  import opened PlanTree
  import opened Wrappers

  datatype PlanChild = PlanChild(plan: Plan, edge: Edge)

  ghost predicate Lists(children: seq<PlanChild>, todos: seq<Todo>) {
    && |children| == |todos|
    && forall i :: 0 <= i < |todos| ==> todos[i].plan == children[i].plan && todos[i].edge == Some(children[i].edge)
  }

  /** Adds the sub-plans of a list that exist and were not reported before. */
  method PushSubplans(children: seq<PlanChild>, env: Env, ids: seq<int>, relationship: Relationship, printed: set<int>,
                      ghost before: seq<Todo>, ghost parent: nat)
    returns (children': seq<PlanChild>, printed': set<int>)
    requires Lists(children, before)
    ensures Lists(children', before + Subplans(env, ids, relationship, printed, parent).0)
    ensures printed' == Subplans(env, ids, relationship, printed, parent).1
  {
    children', printed' := children, printed;
    ghost var listed := before;
    for i := 0 to |ids|
      invariant Lists(children', listed)
      invariant var all, left := Subplans(env, ids, relationship, printed, parent), Subplans(env, ids[i..], relationship, printed', parent);
                before + all.0 == listed + left.0 && all.1 == left.1
    {
      assert ids[i..][0] == ids[i] && ids[i..][1..] == ids[i + 1..];
      if ids[i] !in env || ids[i] in printed' {
        continue;
      }
      ghost var x := Todo(env[ids[i]], Some(Edge(relationship, Some(ids[i]))), Some(parent));
      Assoc(listed, [x], Subplans(env, ids[i + 1..], relationship, printed' + {ids[i]}, parent).0);
      printed' := printed' + {ids[i]};
      children' := children' + [PlanChild(env[ids[i]], Edge(relationship, Some(ids[i])))];
      listed := listed + [x];
    }
  }

  /** Adds the direct children. */
  method PushDirect(children: seq<PlanChild>, direct: PlanChildren, ghost before: seq<Todo>, ghost parent: nat)
    returns (children': seq<PlanChild>)
    requires Lists(children, before)
    ensures Lists(children', before + DirectChildren(direct, parent))
  {
    children' := children;
    ghost var listed := before;
    var cs := direct;
    while cs.Then?
      invariant Lists(children', listed)
      invariant before + DirectChildren(direct, parent) == listed + DirectChildren(cs, parent)
      decreases cs
    {
      ghost var x := Todo(cs.plan, Some(Edge(cs.relationship, None)), Some(parent));
      Assoc(listed, [x], DirectChildren(cs.rest, parent));
      children' := children' + [PlanChild(cs.plan, Edge(cs.relationship, None))];
      listed := listed + [x];
      cs := cs.rest;
    }
  }

  /** The children of a node in EXPLAIN's order: its init-plans, its direct children, its sub-plans. */
  method PlanStateChildren(env: Env, plan: Plan, printed: set<int>, ghost parent: nat)
    returns (children: seq<PlanChild>, printed': set<int>)
    ensures Lists(children, Children(env, plan, printed, parent).0)
    ensures printed' == Children(env, plan, printed, parent).1
  {
    ghost var (inits, printed1) := Subplans(env, plan.initPlans, InitPlan, printed, parent);
    assert [] + inits == inits;
    children, printed' := PushSubplans([], env, plan.initPlans, InitPlan, printed, [], parent);
    children := PushDirect(children, plan.children, inits, parent);
    children, printed' := PushSubplans(children, env, plan.subPlans, SubPlan, printed', inits + DirectChildren(plan.children, parent), parent);
  }
}
