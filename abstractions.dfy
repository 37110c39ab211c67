/** The generic search vocabulary of Abstractions.py: a problem given by its
    initial state, goal test, actions, transition and step cost; search nodes
    that remember their parent, the action that produced them, the path cost
    `g` and the depth; and the two walks up the parent chain that recover the
    solution.

    A Python node points at its parent object. Here the nodes a search has
    built live in an arena (a sequence), and a node's parent is the index of
    an earlier arena entry. Costs are integers (the source's floats hold whole
    numbers for every problem in the repository). */
module Abstractions {
  import opened Base

  /** `Problem` (Abstractions.py:9-25) with its five methods as functions. */
  datatype Problem<!S, !A> = Problem(
    initial: S,
    isGoal: S -> bool,
    actions: S -> seq<A>,
    result: (S, A) -> S,
    stepCost: (S, A, S) -> int)

  /** The default `step_cost` (Abstractions.py:14): every step costs 1. */
  function UnitCost<S, A>(s: S, a: A, t: S): int
  {
    1
  }

  /** A problem that does not override `step_cost`: every step costs 1. */
  function WithUnitCost<S(!new), A(!new)>(initial: S, isGoal: S -> bool, actions: S -> seq<A>, result: (S, A) -> S): (p: Problem<S, A>)
    ensures p.initial == initial && p.isGoal == isGoal && p.actions == actions && p.result == result
    ensures forall s, a, t :: p.stepCost(s, a, t) == 1
  {
    Problem(initial, isGoal, actions, result, UnitCost)
  }

  /** `successors` (Abstractions.py:17-22): one (action, next state, cost)
      triple per action, in the order `actions` lists them. */
  function Successors<S, A>(p: Problem<S, A>, s: S): (r: seq<(A, S, int)>)
    ensures |r| == |p.actions(s)|
    ensures forall k :: 0 <= k < |r| ==>
      && r[k].0 == p.actions(s)[k]
      && r[k].1 == p.result(s, r[k].0)
      && r[k].2 == p.stepCost(s, r[k].0, r[k].1)
  {
    var acts := p.actions(s);
    seq(|acts|, k requires 0 <= k < |acts| =>
      (acts[k], p.result(s, acts[k]), p.stepCost(s, acts[k], p.result(s, acts[k]))))
  }

  /** `goal_test` (Abstractions.py:24-25) defers to `is_goal`. */
  function GoalTest<S, A>(p: Problem<S, A>, s: S): bool
  {
    p.isGoal(s)
  }

  // ---------------------------------------------------------------- nodes

  /** `Node` (Abstractions.py:27-35); `parent` is an arena index. */
  datatype Node<S, A> = Node(state: S, parent: Option<nat>, action: Option<A>, g: int, depth: nat, f: int)

  /** `Node.__init__` (Abstractions.py:29-35): a root has cost and depth 0
      whatever step cost it is given; a child adds the step cost to its
      parent's `g` and lies one level deeper. */
  function NewNode<S, A>(arena: seq<Node<S, A>>, state: S, parent: Option<nat>, action: Option<A>, stepCost: int, f: int): (n: Node<S, A>)
    requires parent.Some? ==> parent.value < |arena|
    ensures n.state == state && n.parent == parent && n.action == action && n.f == f
    ensures parent.None? ==> n.g == 0 && n.depth == 0
    ensures parent.Some? ==> n.g == arena[parent.value].g + stepCost && n.depth == arena[parent.value].depth + 1
  {
    match parent
    case None => Node(state, None, action, 0, 0, f)
    case Some(i) => Node(state, parent, action, arena[i].g + stepCost, arena[i].depth + 1, f)
  }

  /** `Node.expand` (Abstractions.py:37-39): the children of node `i`, one per
      successor triple and in the same order. */
  function Expand<S, A>(p: Problem<S, A>, arena: seq<Node<S, A>>, i: nat): (r: seq<Node<S, A>>)
    requires i < |arena|
    ensures |r| == |Successors(p, arena[i].state)|
    ensures forall k :: 0 <= k < |r| ==>
      var t := Successors(p, arena[i].state)[k];
      && r[k].state == t.1 && r[k].parent == Some(i) && r[k].action == Some(t.0)
      && r[k].g == arena[i].g + t.2 && r[k].depth == arena[i].depth + 1
  {
    var succ := Successors(p, arena[i].state);
    seq(|succ|, k requires 0 <= k < |succ| => NewNode(arena, succ[k].1, Some(i), Some(succ[k].0), succ[k].2, 0))
  }

  /** Every parent index points to an earlier node one level up, and exactly
      the roots have depth 0: the shape every arena built from `Node(...)`
      calls has. */
  ghost predicate Linked<S, A>(arena: seq<Node<S, A>>)
  {
    forall k :: 0 <= k < |arena| ==>
      match arena[k].parent
      case None => arena[k].depth == 0
      case Some(j) => j < k && arena[k].depth == arena[j].depth + 1
  }

  /** What `Node.__init__` and `expand` guarantee about a node built for
      problem `p`: a root has no action and cost 0; any other node carries the
      action that led to it from its parent, its state is that action's
      result, and its cost adds that step's cost. */
  ghost predicate Consistent<S, A>(p: Problem<S, A>, arena: seq<Node<S, A>>)
  {
    && Linked(arena)
    && forall k :: 0 <= k < |arena| ==>
      match arena[k].parent
      case None => arena[k].action.None? && arena[k].g == 0
      case Some(j) =>
        && j < k
        && arena[k].action.Some?
        && arena[k].state == p.result(arena[j].state, arena[k].action.value)
        && arena[k].g == arena[j].g + p.stepCost(arena[j].state, arena[k].action.value, arena[k].state)
  }

  /** Adding a root keeps an arena consistent. */
  lemma NewRootConsistent<S, A>(p: Problem<S, A>, arena: seq<Node<S, A>>, state: S, f: int)
    requires Consistent(p, arena)
    ensures Consistent(p, arena + [NewNode(arena, state, None, None, 0, f)])
  {
    var b := arena + [NewNode(arena, state, None, None, 0, f)];
    assert forall k :: 0 <= k < |arena| ==> b[k] == arena[k];
  }

  /** Appending the children `expand` yields keeps an arena consistent. */
  lemma ExpandConsistent<S, A>(p: Problem<S, A>, arena: seq<Node<S, A>>, i: nat)
    requires Consistent(p, arena) && i < |arena|
    ensures Consistent(p, arena + Expand(p, arena, i))
  {
    var c := Expand(p, arena, i);
    var b := arena + c;
    forall k | 0 <= k < |b|
      ensures match b[k].parent
        case None => b[k].depth == 0 && b[k].action.None? && b[k].g == 0
        case Some(j) =>
          && j < k && b[k].depth == b[j].depth + 1
          && b[k].action.Some?
          && b[k].state == p.result(b[j].state, b[k].action.value)
          && b[k].g == b[j].g + p.stepCost(b[j].state, b[k].action.value, b[k].state)
    {
      if k < |arena| {
        assert b[k] == arena[k];
        if b[k].parent.Some? {
          assert b[b[k].parent.value] == arena[b[k].parent.value];
        }
      } else {
        assert b[k] == c[k - |arena|];
        assert b[i] == arena[i];
      }
    }
  }

  // ---------------------------------------------------------------- paths

  /** The index of the root above node `i`. */
  function Root<S, A>(arena: seq<Node<S, A>>, i: nat): (r: nat)
    requires Linked(arena) && i < |arena|
    ensures r <= i && arena[r].parent.None?
    decreases i
  {
    match arena[i].parent
    case None => i
    case Some(j) => Root(arena, j)
  }

  /** The states from the root down to node `i`: one per level, ending at
      the node's own. */
  function PathTo<S, A>(arena: seq<Node<S, A>>, i: nat): (r: seq<S>)
    requires Linked(arena) && i < |arena|
    ensures |r| == arena[i].depth + 1 && r[|r| - 1] == arena[i].state
    decreases i
  {
    match arena[i].parent
    case None => [arena[i].state]
    case Some(j) => PathTo(arena, j) + [arena[i].state]
  }

  /** The actions collected walking up from node `i` until a node without
      action (or the root) is reached, in root-to-node order: none when the
      node has no action, otherwise ending with the node's own, and never
      more than one per level. */
  function ActionsTo<S, A>(arena: seq<Node<S, A>>, i: nat): (r: seq<A>)
    requires Linked(arena) && i < |arena|
    ensures arena[i].action.None? ==> r == []
    ensures arena[i].action.Some? ==> |r| >= 1 && r[|r| - 1] == arena[i].action.value
    ensures |r| <= arena[i].depth + 1
    decreases i
  {
    match arena[i].action
    case None => []
    case Some(a) =>
      match arena[i].parent
      case None => [a]
      case Some(j) => ActionsTo(arena, j) + [a]
  }

  /** The path starts at the root's state. */
  lemma {:induction false} PathShape<S, A>(arena: seq<Node<S, A>>, i: nat)
    requires Linked(arena) && i < |arena|
    ensures PathTo(arena, i)[0] == arena[Root(arena, i)].state
    decreases i
  {
    if arena[i].parent.Some? {
      PathShape(arena, arena[i].parent.value);
    }
  }

  /** Exactly one action per level when every node on the chain below its
      root carries an action. */
  lemma {:induction false} ActionsLength<S, A>(p: Problem<S, A>, arena: seq<Node<S, A>>, i: nat)
    requires Linked(arena) && i < |arena|
    ensures Consistent(p, arena) ==> |ActionsTo(arena, i)| == arena[i].depth
    decreases i
  {
    if arena[i].parent.Some? {
      ActionsLength(p, arena, arena[i].parent.value);
    }
  }

  /** A node without action ends the walk: the actions above it are dropped,
      even when it has a parent. */
  lemma ActionsStopAtNone<S, A>(arena: seq<Node<S, A>>, i: nat, j: nat)
    requires Linked(arena) && j < i < |arena|
    requires arena[i].parent == Some(j) && arena[i].action.Some? && arena[j].action.None?
    ensures ActionsTo(arena, i) == [arena[i].action.value]
  {
  }

  /** The states reached by applying `acts` in turn from `s`, `s` included. */
  function Replay<S, A>(p: Problem<S, A>, s: S, acts: seq<A>): (r: seq<S>)
    ensures |r| == |acts| + 1 && r[0] == s
    decreases |acts|
  {
    if acts == [] then [s] else [s] + Replay(p, p.result(s, acts[0]), acts[1..])
  }

  /** The summed step costs of applying `acts` in turn from `s`. */
  function PlanCost<S, A>(p: Problem<S, A>, s: S, acts: seq<A>): int
    decreases |acts|
  {
    if acts == [] then 0 else
      var t := p.result(s, acts[0]);
      p.stepCost(s, acts[0], t) + PlanCost(p, t, acts[1..])
  }

  lemma {:induction false} ReplaySnoc<S, A>(p: Problem<S, A>, s: S, acts: seq<A>, a: A)
    ensures var r := Replay(p, s, acts);
      && Replay(p, s, acts + [a]) == r + [p.result(r[|r| - 1], a)]
      && PlanCost(p, s, acts + [a]) == PlanCost(p, s, acts) + p.stepCost(r[|r| - 1], a, p.result(r[|r| - 1], a))
    decreases |acts|
  {
    if acts != [] {
      assert (acts + [a])[1..] == acts[1..] + [a];
      ReplaySnoc(p, p.result(s, acts[0]), acts[1..], a);
    }
  }

  /** In a consistent arena the recovered path is what the recovered actions
      produce from the root's state, and the node's `g` is the summed cost of
      those actions: the solution a search reports can be replayed. */
  lemma {:induction false} PathIsReplay<S, A>(p: Problem<S, A>, arena: seq<Node<S, A>>, i: nat)
    requires Consistent(p, arena) && i < |arena|
    ensures PathTo(arena, i) == Replay(p, arena[Root(arena, i)].state, ActionsTo(arena, i))
    ensures arena[i].g == PlanCost(p, arena[Root(arena, i)].state, ActionsTo(arena, i))
    decreases i
  {
    match arena[i].parent
    case None =>
    case Some(j) =>
      PathIsReplay(p, arena, j);
      PathShape(arena, j);
      ReplaySnoc(p, arena[Root(arena, j)].state, ActionsTo(arena, j), arena[i].action.value);
  }

  /** `reconstruct_path` (Abstractions.py:41-48): walks to the root
      collecting states, then reverses them. */
  method ReconstructPath<S, A>(arena: seq<Node<S, A>>, goal: nat) returns (path: seq<S>)
    requires Linked(arena) && goal < |arena|
    ensures path == PathTo(arena, goal)
  {
    var acc: seq<S> := [];
    var current: Option<nat> := Some(goal);
    while current.Some?
      invariant current.Some? ==> current.value < |arena|
      invariant PathTo(arena, goal) == (if current.Some? then PathTo(arena, current.value) else []) + Reversed(acc)
      decreases if current.Some? then current.value + 1 else 0
    {
      var node := arena[current.value];
      ReversedSnoc(acc, node.state);
      acc := acc + [node.state];
      current := node.parent;
    }
    path := Reversed(acc);
  }

  /** `reconstruct_actions` (Abstractions.py:50-57): walks up while the node
      carries an action, collecting actions, then reverses them. */
  method ReconstructActions<S, A>(arena: seq<Node<S, A>>, goal: nat) returns (actions: seq<A>)
    requires Linked(arena) && goal < |arena|
    ensures actions == ActionsTo(arena, goal)
  {
    var acc: seq<A> := [];
    var current: Option<nat> := Some(goal);
    while current.Some? && arena[current.value].action.Some?
      invariant current.Some? ==> current.value < |arena|
      invariant ActionsTo(arena, goal) == (if current.Some? then ActionsTo(arena, current.value) else []) + Reversed(acc)
      decreases if current.Some? then current.value + 1 else 0
    {
      var node := arena[current.value];
      ReversedSnoc(acc, node.action.value);
      acc := acc + [node.action.value];
      current := node.parent;
    }
    actions := Reversed(acc);
  }
}
