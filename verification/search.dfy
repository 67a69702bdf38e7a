/**
 * The three generic graph searches.  Each takes the initial state, a goal test and a
 * successor function (A* also a heuristic) and returns the goal node it popped, or `None`
 * once its frontier has run empty.  Besides the node, each returns the tree of nodes it
 * expanded, which the node's parent links index into.
 *
 * Termination rests on a ghost `universe`: a finite set of states that holds `initial` and
 * that `successors` never leaves (for a maze, its cells).
 */
module Search {

  import opened Wrappers
  import opened SearchTree
  import opened Frontiers

  /** `p` starts at `initial` and each of its states is a successor of the one before. */
  predicate IsWalk<T(==)>(p: seq<T>, initial: T, successors: T -> seq<T>)
  {
    |p| >= 1 && p[0] == initial && forall i :: 0 <= i < |p| - 1 ==> p[i + 1] in successors(p[i])
  }

  /** No successor of a state in `region` lies outside `region`. */
  predicate Closed<T(==)>(region: set<T>, successors: T -> seq<T>)
  {
    forall s, t :: s in region && t in successors(s) ==> t in region
  }

  /** No element of `s` occurs twice. */
  predicate Distinct<T(==)>(s: seq<T>)
  {
    forall i, j :: 0 <= i < j < |s| ==> s[i] != s[j]
  }

  /** `n` is a root holding `initial`, or holds a successor of the state of its parent in `tree`. */
  predicate Discovered<T(==)>(n: Node<T>, tree: seq<Node<T>>, initial: T, successors: T -> seq<T>)
  {
    match n.parent
    case None => n.state == initial
    case Some(p) => p < |tree| && n.state in successors(tree[p].state)
  }

  /** Every node of `tree` points at an earlier node and was discovered from it. */
  predicate TreeDiscovered<T(==)>(tree: seq<Node<T>>, initial: T, successors: T -> seq<T>)
  {
    WellFormed(tree) && forall i :: 0 <= i < |tree| ==> Discovered(tree[i], tree, initial, successors)
  }

  /** A* bookkeeping for `n`: the heuristic of its state, and a cost one more than its parent's (zero at a root). */
  predicate Costed<T(==)>(n: Node<T>, tree: seq<Node<T>>, heuristic: T -> int)
  {
    n.heuristic == heuristic(n.state) &&
    match n.parent
    case None => n.cost == 0
    case Some(p) => p < |tree| && n.cost == tree[p].cost + 1
  }

  /** Growing the tree keeps a node discovered: its parent keeps its position. */
  lemma DiscoveredGrows<T>(items: seq<Node<T>>, tree: seq<Node<T>>, x: Node<T>, initial: T, successors: T -> seq<T>)
    requires forall n :: n in items ==> Discovered(n, tree, initial, successors)
    ensures forall n :: n in items ==> Discovered(n, tree + [x], initial, successors)
  {
    forall n | n in items
      ensures Discovered(n, tree + [x], initial, successors)
    {
      assert Discovered(n, tree, initial, successors);
    }
  }

  /** The elements of `s`. */
  ghost function Members<T>(s: seq<T>): set<T>
  {
    set x | x in s
  }

  /** One more element, one more member. */
  lemma MembersStep<T>(s: seq<T>, x: T)
    ensures Members(s + [x]) == Members(s) + {x}
  {
    assert x in s + [x];
    assert forall y :: y in s ==> y in s + [x];
  }

  /** The states of the nodes in `items`. */
  ghost function States<T>(items: seq<Node<T>>): set<T>
  {
    set n | n in items :: n.state
  }

  /** The states of a frontier are the states left once one node is taken out, plus that node's state. */
  lemma StatesSplit<T>(whole: seq<Node<T>>, part: seq<Node<T>>, x: Node<T>)
    requires multiset(whole) == multiset(part) + multiset{x}
    ensures States(whole) == States(part) + {x.state}
  {
    forall s | s in States(whole)
      ensures s in States(part) + {x.state}
    {
      var n :| n in whole && n.state == s;
      assert n in multiset(whole);
    }
    assert x in multiset(whole);
    forall s | s in States(part)
      ensures s in States(whole)
    {
      var n :| n in part && n.state == s;
      assert n in multiset(part);
      assert n in multiset(whole);
    }
  }

  /** A subset of a finite set is no larger. */
  lemma {:induction false} SubsetCard<T>(a: set<T>, b: set<T>)
    requires a <= b
    ensures |a| <= |b|
    decreases a
  {
    if a != {} {
      var x :| x in a;
      SubsetCard(a - {x}, b - {x});
    }
  }

  /** Following the parent links of a discovered node back to the root retraces a walk from `initial`. */
  lemma {:induction false} ChainIsWalk<T>(n: Node<T>, tree: seq<Node<T>>, initial: T, successors: T -> seq<T>)
    requires TreeDiscovered(tree, initial, successors) && Discovered(n, tree, initial, successors)
    ensures Linked(n, tree) && IsWalk(Chain(n, tree), initial, successors)
    decreases Rank(n)
  {
    match n.parent
    case None =>
    case Some(p) =>
      ChainIsWalk(tree[p], tree, initial, successors);
      ChainShape(tree[p], tree);
      var c := Chain(tree[p], tree);
      assert Chain(n, tree) == c + [n.state];
      assert c[|c| - 1] == tree[p].state;
  }

  /** In A*, a node's cost is the number of edges on its chain of parents. */
  lemma {:induction false} CostCountsEdges<T>(n: Node<T>, tree: seq<Node<T>>, heuristic: T -> int)
    requires WellFormed(tree) && forall i :: 0 <= i < |tree| ==> Costed(tree[i], tree, heuristic)
    requires Costed(n, tree, heuristic)
    ensures Linked(n, tree) && n.cost == |Chain(n, tree)| - 1
    decreases Rank(n)
  {
    match n.parent
    case None =>
    case Some(p) =>
      CostCountsEdges(tree[p], tree, heuristic);
  }

  /** A walk from `initial` never leaves a region that holds `initial` and is closed under successors. */
  lemma {:induction false} WalkStaysIn<T>(p: seq<T>, initial: T, successors: T -> seq<T>, region: set<T>)
    requires IsWalk(p, initial, successors) && initial in region && Closed(region, successors)
    ensures p[|p| - 1] in region
    decreases |p|
  {
    if |p| > 1 {
      var q := p[..|p| - 1];
      assert IsWalk(q, initial, successors) by {
        forall i | 0 <= i < |q| - 1
          ensures q[i + 1] in successors(q[i])
        {
          assert q[i] == p[i] && q[i + 1] == p[i + 1];
        }
      }
      WalkStaysIn(q, initial, successors, region);
      assert p[|p| - 1] in successors(p[|p| - 2]);
    }
  }

  /**
   * The search has run dry: every state recorded as explored was expanded, and expanded states
   * fail the goal test and have all their successors explored.  Then no walk from `initial`
   * ends at a goal.
   */
  lemma NoGoalReachable<T>(initial: T, goalTest: T -> bool, successors: T -> seq<T>,
                           explored: set<T>, expanded: set<T>)
    requires initial in explored && explored <= expanded
    requires forall s :: s in expanded ==> !goalTest(s)
    requires forall s, t :: s in expanded && t in successors(s) ==> t in explored
    ensures forall p :: IsWalk(p, initial, successors) ==> !goalTest(p[|p| - 1])
  {
    forall p | IsWalk(p, initial, successors)
      ensures !goalTest(p[|p| - 1])
    {
      WalkStaysIn(p, initial, successors, expanded);
    }
  }

  /** The set of (state, k) pairs with k at most the recorded cost of the state (at most |universe| when unrecorded). */
  ghost function Potential<T>(universe: set<T>, explored: map<T, nat>): set<(T, nat)>
  {
    set s, k: nat | s in universe && k <= |universe| && (s !in explored || k <= explored[s]) :: (s, k)
  }

  /**
   * An A* update records `cost` for `s` only when `s` is new or `cost` is strictly lower. Such an
   * update keeps every recorded state, never raises a recorded cost, and shrinks the potential.
   */
  lemma RelaxLowers<T>(universe: set<T>, explored: map<T, nat>, s: T, cost: nat)
    requires s in universe && cost < |universe|
    requires forall t :: t in explored ==> explored[t] <= |universe|
    requires s !in explored || explored[s] > cost
    ensures forall t :: t in explored ==> t in explored[s := cost] && explored[s := cost][t] <= explored[t]
    ensures Potential(universe, explored[s := cost]) < Potential(universe, explored)
  {
    var after := explored[s := cost];
    assert Potential(universe, after) <= Potential(universe, explored);
    if s in explored {
      assert (s, explored[s]) in Potential(universe, explored);
      assert (s, explored[s]) !in Potential(universe, after);
    } else {
      assert (s, |universe|) in Potential(universe, explored);
      assert (s, |universe|) !in Potential(universe, after);
    }
  }

  /** No two nodes of `nodes` hold the same state. */
  ghost predicate DistinctStates<T>(nodes: seq<Node<T>>)
  {
    forall i, j :: 0 <= i < j < |nodes| ==> nodes[i].state != nodes[j].state
  }

  /** Nodes with pairwise distinct states, all drawn from `region`, are no more than the states of `region`. */
  lemma {:induction false} DistinctStatesCard<T>(nodes: seq<Node<T>>, region: set<T>)
    requires DistinctStates(nodes) && forall i :: 0 <= i < |nodes| ==> nodes[i].state in region
    ensures |nodes| <= |region|
    decreases |nodes|
  {
    if nodes != [] {
      var last := nodes[|nodes| - 1];
      var init := nodes[..|nodes| - 1];
      assert forall i :: 0 <= i < |init| ==> init[i] == nodes[i];
      DistinctStatesCard(init, region - {last.state});
      assert |region - {last.state}| == |region| - 1;
    }
  }

  /** Taking the top of a stack or the front of a queue off `whole` leaves nodes with distinct states, none with the state of `x`. */
  lemma DistinctStatesRemove<T>(whole: seq<Node<T>>, part: seq<Node<T>>, x: Node<T>)
    requires whole == part + [x] || whole == [x] + part
    requires DistinctStates(whole)
    ensures DistinctStates(part) && forall n :: n in part ==> n.state != x.state
  {
    if whole == part + [x] {
      assert forall i :: 0 <= i < |part| ==> part[i] == whole[i];
      assert x == whole[|part|];
    } else {
      assert forall i :: 0 <= i < |part| ==> part[i] == whole[i + 1];
      assert x == whole[0];
    }
  }

  /**
   * The children a DFS or BFS step pushes, in push order, when the states in `known` are already
   * explored: a child is pushed when it is neither known nor an earlier child.
   */
  ghost function FirstNew<T>(children: seq<T>, known: set<T>): seq<T>
    decreases |children|
  {
    if children == [] then []
    else
      var init := children[..|children| - 1];
      var last := children[|children| - 1];
      FirstNew(init, known) + (if last in known || last in init then [] else [last])
  }

  /** The pushed children are exactly the children not in `known`, each of them once. */
  lemma {:induction false} FirstNewMeaning<T>(children: seq<T>, known: set<T>)
    ensures forall x :: x in FirstNew(children, known) ==> x in children && x !in known
    ensures forall x :: x in children && x !in known ==> x in FirstNew(children, known)
    ensures Distinct(FirstNew(children, known))
    decreases |children|
  {
    if children != [] {
      var init := children[..|children| - 1];
      var last := children[|children| - 1];
      assert children == init + [last];
      FirstNewMeaning(init, known);
    }
  }

  /** One more child: the pushed children of a prefix one longer. */
  lemma FirstNewStep<T>(children: seq<T>, j: nat, known: set<T>)
    requires j < |children|
    ensures FirstNew(children[..j + 1], known) ==
            FirstNew(children[..j], known) + (if children[j] in known || children[j] in children[..j] then [] else [children[j]])
  {
    assert children[..j + 1][..j] == children[..j];
  }

  /** The nodes a DFS or BFS step pushes for `states`, the children of the node at `k` in the tree. */
  ghost function ChildNodes<T>(states: seq<T>, k: nat): seq<Node<T>>
  {
    seq(|states|, i requires 0 <= i < |states| => Node(states[i], Some(k), 0, 0))
  }

  /** One more state, one more node at the end. */
  lemma ChildNodesStep<T>(states: seq<T>, x: T, k: nat)
    ensures ChildNodes(states + [x], k) == ChildNodes(states, k) + [Node(x, Some(k), 0, 0)]
  {
  }

  /**
   * What DFS and BFS keep true between steps.  `tree` holds the expanded nodes and `expanded`
   * their states; `explored` is the set of states ever pushed, which are the expanded states and
   * those on the frontier.  No state is on the frontier twice or both there and in the tree.
   * Every expanded state fails the goal test, and each of its successors is explored or still
   * `pending` (a successor of the state being expanded that has not been looked at).
   */
  ghost predicate Exploring<T>(initial: T, goalTest: T -> bool, successors: T -> seq<T>, universe: set<T>,
                               tree: seq<Node<T>>, items: seq<Node<T>>, explored: set<T>,
                               expanded: set<T>, pending: seq<T>)
  {
    && TreeDiscovered(tree, initial, successors)
    && (forall n :: n in items ==> Discovered(n, tree, initial, successors))
    && (forall i :: 0 <= i < |tree| ==> tree[i].state in expanded)
    && initial in explored && explored <= universe && expanded <= explored
    && (forall s :: s in expanded ==> !goalTest(s))
    && (forall s, t :: s in expanded && t in successors(s) ==> t in explored || t in pending)
    && explored <= expanded + States(items)
    && States(items) <= explored
    && DistinctStates(tree) && DistinctStates(items)
    && (forall n :: n in items ==> n.state !in expanded)
  }

  /** Popping a non-goal node and appending it to the tree: its state is expanded, its successors pending. */
  lemma ExpandStep<T>(initial: T, goalTest: T -> bool, successors: T -> seq<T>, universe: set<T>,
                      tree: seq<Node<T>>, items0: seq<Node<T>>, items: seq<Node<T>>, explored: set<T>,
                      expanded: set<T>, current: Node<T>)
    requires Exploring(initial, goalTest, successors, universe, tree, items0, explored, expanded, [])
    requires items0 == items + [current] || items0 == [current] + items
    requires !goalTest(current.state)
    ensures current.state in universe && Discovered(current, tree, initial, successors)
    ensures Exploring(initial, goalTest, successors, universe, tree + [current], items, explored,
                      expanded + {current.state}, successors(current.state))
  {
    assert multiset(items0) == multiset(items) + multiset{current};
    StatesSplit(items0, items, current);
    assert current in items0;
    DistinctStatesRemove(items0, items, current);
    DiscoveredGrows(items0, tree, current, initial, successors);
    TreeGrows(tree, current, expanded, initial, successors);
    forall n | n in items
      ensures Discovered(n, tree + [current], initial, successors)
    {
      assert n in items0;
    }
  }

  /** Appending a discovered node whose state is not yet expanded keeps the tree discovered and its states distinct. */
  lemma TreeGrows<T>(tree: seq<Node<T>>, x: Node<T>, expanded: set<T>, initial: T, successors: T -> seq<T>)
    requires TreeDiscovered(tree, initial, successors) && Discovered(x, tree, initial, successors)
    requires DistinctStates(tree) && (forall i :: 0 <= i < |tree| ==> tree[i].state in expanded)
    requires x.state !in expanded
    ensures TreeDiscovered(tree + [x], initial, successors) && DistinctStates(tree + [x])
    ensures forall i :: 0 <= i < |tree| + 1 ==> (tree + [x])[i].state in expanded + {x.state}
  {
    var tree' := tree + [x];
    forall i | 0 <= i < |tree'|
      ensures Discovered(tree'[i], tree', initial, successors)
    {
      if i < |tree| {
        assert tree'[i] == tree[i] && Discovered(tree[i], tree, initial, successors);
      }
    }
    assert forall i :: 0 <= i < |tree| ==> tree'[i] == tree[i];
  }

  /** Pushing a child of the node being expanded, whose state is not yet explored. */
  lemma PushStep<T>(initial: T, goalTest: T -> bool, successors: T -> seq<T>, universe: set<T>,
                    tree: seq<Node<T>>, items: seq<Node<T>>, items': seq<Node<T>>, explored: set<T>,
                    explored': set<T>, expanded: set<T>, pending: seq<T>, k: nat, child: T)
    requires Exploring(initial, goalTest, successors, universe, tree, items, explored, expanded, pending)
    requires Closed(universe, successors) && k < |tree| && tree[k].state in universe
    requires child in successors(tree[k].state) && child !in explored
    requires items' == items + [Node(child, Some(k), 0, 0)]
    requires explored' == explored + {child}
    ensures Exploring(initial, goalTest, successors, universe, tree, items', explored', expanded, pending)
  {
    var node := Node(child, Some(k), 0, 0);
    StatesSplit(items + [node], items, node);
    assert forall n :: n in items ==> n.state in States(items);
    assert forall i :: 0 <= i < |items| ==> items'[i] == items[i];
  }

  /** Once the first pending successor is explored, it is no longer pending. */
  lemma SettleStep<T>(initial: T, goalTest: T -> bool, successors: T -> seq<T>, universe: set<T>,
                      tree: seq<Node<T>>, items: seq<Node<T>>, explored: set<T>,
                      expanded: set<T>, pending: seq<T>)
    requires Exploring(initial, goalTest, successors, universe, tree, items, explored, expanded, pending)
    requires pending != [] && pending[0] in explored
    ensures Exploring(initial, goalTest, successors, universe, tree, items, explored, expanded, pending[1..])
  {
    assert forall t :: t in pending ==> t == pending[0] || t in pending[1..];
  }

  /** Before the first pop: the frontier holds only the root node and only `initial` is explored. */
  lemma StartStep<T>(initial: T, goalTest: T -> bool, successors: T -> seq<T>, universe: set<T>)
    requires initial in universe
    ensures Exploring(initial, goalTest, successors, universe, [], [Node(initial, None, 0, 0)], {initial}, {}, [])
  {
    var root := Node(initial, None, 0, 0);
    assert States([root]) == {initial} by {
      assert root in [root];
    }
    assert forall n :: n in [root] ==> Discovered(n, [], initial, successors);
  }

  /** A popped node that passes the goal test is linked into the tree and its chain is a walk to a goal. */
  lemma GoalStep<T>(initial: T, goalTest: T -> bool, successors: T -> seq<T>, universe: set<T>,
                    tree: seq<Node<T>>, items: seq<Node<T>>, explored: set<T>,
                    expanded: set<T>, current: Node<T>)
    requires Exploring(initial, goalTest, successors, universe, tree, items, explored, expanded, [])
    requires current in items && goalTest(current.state)
    ensures Linked(current, tree) && IsWalk(Chain(current, tree), initial, successors)
    ensures DistinctStates(tree) && |tree| <= |universe|
  {
    ChainIsWalk(current, tree, initial, successors);
    DistinctStatesCard(tree, universe);
  }

  /** With the frontier empty, every explored state was expanded, so no walk from `initial` reaches a goal. */
  lemma DryStep<T>(initial: T, goalTest: T -> bool, successors: T -> seq<T>, universe: set<T>,
                   tree: seq<Node<T>>, explored: set<T>, expanded: set<T>)
    requires Exploring(initial, goalTest, successors, universe, tree, [], explored, expanded, [])
    ensures forall p :: IsWalk(p, initial, successors) ==> !goalTest(p[|p| - 1])
    ensures DistinctStates(tree) && |tree| <= |universe|
  {
    NoGoalReachable(initial, goalTest, successors, explored, expanded);
    DistinctStatesCard(tree, universe);
  }

  /**
   * One turn of the inner loop of `Dfs` or `Bfs`: the `j`th child is pushed exactly when it is not
   * yet explored, which keeps the frontier equal to what it was plus the children pushed so far.
   */
  lemma PushedAccount<T>(children: seq<T>, j: nat, k: nat, known: set<T>, start: seq<Node<T>>,
                         items: seq<Node<T>>, items': seq<Node<T>>, explored: set<T>)
    requires j < |children|
    requires items == start + ChildNodes(FirstNew(children[..j], known), k)
    requires explored == known + Members(children[..j])
    requires children[j] !in explored ==> items' == items + [Node(children[j], Some(k), 0, 0)]
    requires children[j] in explored ==> items' == items
    ensures items' == start + ChildNodes(FirstNew(children[..j + 1], known), k)
  {
    var child := children[j];
    FirstNewStep(children, j, known);
    var before := FirstNew(children[..j], known);
    if child !in explored {
      assert FirstNew(children[..j + 1], known) == before + [child];
      ChildNodesStep(before, child, k);
    }
  }

  /** The same turn marks the `j`th child explored. */
  lemma ExploredAccount<T>(children: seq<T>, j: nat, known: set<T>, explored: set<T>, explored': set<T>)
    requires j < |children|
    requires explored == known + Members(children[..j])
    requires children[j] !in explored ==> explored' == explored + {children[j]}
    requires children[j] in explored ==> explored' == explored
    ensures explored' == known + Members(children[..j + 1])
  {
    assert children[..j + 1] == children[..j] + [children[j]];
    MembersStep(children[..j], children[j]);
  }

  /** After the inner loop, either nothing was pushed or the explored set grew. */
  lemma PushProgress<T>(children: seq<T>, known: set<T>, k: nat, start: seq<Node<T>>, items: seq<Node<T>>)
    requires items == start + ChildNodes(FirstNew(children, known), k)
    ensures (known + Members(children) == known && items == start) || known < known + Members(children)
  {
    var news := FirstNew(children, known);
    FirstNewMeaning(children, known);
    if news != [] {
      assert news[0] in Members(children) && news[0] !in known;
    } else {
      assert Members(children) <= known;
    }
  }

  /** The same turn keeps the search invariant, with one successor fewer pending. */
  lemma ChildStep<T>(initial: T, goalTest: T -> bool, successors: T -> seq<T>, universe: set<T>,
                     tree: seq<Node<T>>, expanded: set<T>, k: nat, items: seq<Node<T>>, items': seq<Node<T>>,
                     explored: set<T>, explored': set<T>, rest: seq<T>)
    requires Exploring(initial, goalTest, successors, universe, tree, items, explored, expanded, rest)
    requires Closed(universe, successors) && k < |tree| && tree[k].state in universe
    requires rest != [] && rest[0] in successors(tree[k].state)
    requires rest[0] !in explored ==> items' == items + [Node(rest[0], Some(k), 0, 0)] && explored' == explored + {rest[0]}
    requires rest[0] in explored ==> items' == items && explored' == explored
    ensures Exploring(initial, goalTest, successors, universe, tree, items', explored', expanded, rest[1..])
  {
    if rest[0] !in explored {
      PushStep(initial, goalTest, successors, universe, tree, items, items', explored, explored', expanded, rest, k, rest[0]);
    }
    SettleStep(initial, goalTest, successors, universe, tree, items', explored', expanded, rest);
  }

  /**
   * The inner loop of `Dfs`: push every successor of the node at `k` whose state is not yet
   * explored, in the order `successors` lists them, marking each explored as it goes.
   */
  method PushUnexplored<T(==)>(frontier: Stack<Node<T>>, explored: set<T>, k: nat, children: seq<T>,
                   ghost initial: T, ghost goalTest: T -> bool, ghost successors: T -> seq<T>,
                   ghost universe: set<T>, ghost tree: seq<Node<T>>, ghost expanded: set<T>)
    returns (explored': set<T>)
    requires Exploring(initial, goalTest, successors, universe, tree, frontier.items, explored, expanded, children)
    requires Closed(universe, successors) && k < |tree| && tree[k].state in universe
    requires children == successors(tree[k].state)
    modifies frontier
    ensures frontier.items == old(frontier.items) + ChildNodes(FirstNew(children, explored), k)
    ensures explored' == explored + Members(children)
    ensures Exploring(initial, goalTest, successors, universe, tree, frontier.items, explored', expanded, [])
    ensures (explored' == explored && frontier.items == old(frontier.items)) || explored < explored'
  {
    explored' := explored;
    ghost var start, rest := frontier.items, children;
    for j := 0 to |children|
      invariant rest == children[j..]
      invariant frontier.items == start + ChildNodes(FirstNew(children[..j], explored), k)
      invariant explored' == explored + Members(children[..j])
      invariant Exploring(initial, goalTest, successors, universe, tree, frontier.items, explored', expanded, rest)
    {
      var child := children[j];
      ghost var items0, explored0 := frontier.items, explored';
      if child !in explored' {
        frontier.Push(Node(child, Some(k), 0, 0));
        explored' := explored' + {child};
      }
      PushedAccount(children, j, k, explored, start, items0, frontier.items, explored0);
      ExploredAccount(children, j, explored, explored0, explored');
      ChildStep(initial, goalTest, successors, universe, tree, expanded, k, items0, frontier.items, explored0, explored', rest);
      rest := rest[1..];
    }
    assert children[..|children|] == children;
    PushProgress(children, explored, k, start, frontier.items);
  }

  /** Depth-first search: a stack frontier, with each state marked explored when it is pushed. */
  method Dfs<T(==)>(initial: T, goalTest: T -> bool, successors: T -> seq<T>, ghost universe: set<T>)
    returns (result: Option<Node<T>>, tree: seq<Node<T>>)
    requires initial in universe && Closed(universe, successors)
    ensures TreeDiscovered(tree, initial, successors)
    ensures result.Some? ==>
      Linked(result.value, tree) && goalTest(result.value.state) &&
      IsWalk(Chain(result.value, tree), initial, successors)
    ensures result.None? ==> forall p :: IsWalk(p, initial, successors) ==> !goalTest(p[|p| - 1])
    ensures DistinctStates(tree) && |tree| <= |universe|
  {
    var frontier := new Stack<Node<T>>();
    var explored: set<T> := {};
    frontier.Push(Node(initial, None, 0, 0));
    explored := explored + {initial};
    tree := [];
    ghost var expanded: set<T> := {};
    StartStep(initial, goalTest, successors, universe);
    while !frontier.Empty()
      invariant Exploring(initial, goalTest, successors, universe, tree, frontier.items, explored, expanded, [])
      decreases universe - explored, |frontier.items|
    {
      ghost var items0 := frontier.items;
      var currentNode := frontier.Pop();
      var currentState := currentNode.state;
      if goalTest(currentState) {
        GoalStep(initial, goalTest, successors, universe, tree, items0, explored, expanded, currentNode);
        return Some(currentNode), tree;
      }
      ExpandStep(initial, goalTest, successors, universe, tree, items0, frontier.items, explored, expanded, currentNode);
      var k := |tree|;
      tree := tree + [currentNode];
      expanded := expanded + {currentState};
      explored := PushUnexplored(frontier, explored, k, successors(currentState),
                 initial, goalTest, successors, universe, tree, expanded);
    }
    DryStep(initial, goalTest, successors, universe, tree, explored, expanded);
    return None, tree;
  }

  /**
   * The inner loop of `Bfs`: enqueue every successor of the node at `k` whose state is not yet
   * explored, in the order `successors` lists them, marking each explored as it goes.
   */
  method EnqueueUnexplored<T(==)>(frontier: Queue<Node<T>>, explored: set<T>, k: nat, children: seq<T>,
                      ghost initial: T, ghost goalTest: T -> bool, ghost successors: T -> seq<T>,
                      ghost universe: set<T>, ghost tree: seq<Node<T>>, ghost expanded: set<T>)
    returns (explored': set<T>)
    requires Exploring(initial, goalTest, successors, universe, tree, frontier.items, explored, expanded, children)
    requires Closed(universe, successors) && k < |tree| && tree[k].state in universe
    requires children == successors(tree[k].state)
    modifies frontier
    ensures frontier.items == old(frontier.items) + ChildNodes(FirstNew(children, explored), k)
    ensures explored' == explored + Members(children)
    ensures Exploring(initial, goalTest, successors, universe, tree, frontier.items, explored', expanded, [])
    ensures (explored' == explored && frontier.items == old(frontier.items)) || explored < explored'
  {
    explored' := explored;
    ghost var start, rest := frontier.items, children;
    for j := 0 to |children|
      invariant rest == children[j..]
      invariant frontier.items == start + ChildNodes(FirstNew(children[..j], explored), k)
      invariant explored' == explored + Members(children[..j])
      invariant Exploring(initial, goalTest, successors, universe, tree, frontier.items, explored', expanded, rest)
    {
      var child := children[j];
      ghost var items0, explored0 := frontier.items, explored';
      if child !in explored' {
        frontier.Push(Node(child, Some(k), 0, 0));
        explored' := explored' + {child};
      }
      PushedAccount(children, j, k, explored, start, items0, frontier.items, explored0);
      ExploredAccount(children, j, explored, explored0, explored');
      ChildStep(initial, goalTest, successors, universe, tree, expanded, k, items0, frontier.items, explored0, explored', rest);
      rest := rest[1..];
    }
    assert children[..|children|] == children;
    PushProgress(children, explored, k, start, frontier.items);
  }

  /** Breadth-first search: a queue frontier, with each state marked explored when it is pushed. */
  method Bfs<T(==)>(initial: T, goalTest: T -> bool, successors: T -> seq<T>, ghost universe: set<T>)
    returns (result: Option<Node<T>>, tree: seq<Node<T>>)
    requires initial in universe && Closed(universe, successors)
    ensures TreeDiscovered(tree, initial, successors)
    ensures result.Some? ==>
      Linked(result.value, tree) && goalTest(result.value.state) &&
      IsWalk(Chain(result.value, tree), initial, successors)
    ensures result.None? ==> forall p :: IsWalk(p, initial, successors) ==> !goalTest(p[|p| - 1])
    ensures DistinctStates(tree) && |tree| <= |universe|
  {
    var frontier := new Queue<Node<T>>();
    var explored: set<T> := {};
    frontier.Push(Node(initial, None, 0, 0));
    explored := explored + {initial};
    tree := [];
    ghost var expanded: set<T> := {};
    StartStep(initial, goalTest, successors, universe);
    while !frontier.Empty()
      invariant Exploring(initial, goalTest, successors, universe, tree, frontier.items, explored, expanded, [])
      decreases universe - explored, |frontier.items|
    {
      ghost var items0 := frontier.items;
      var currentNode := frontier.Pop();
      var currentState := currentNode.state;
      if goalTest(currentState) {
        GoalStep(initial, goalTest, successors, universe, tree, items0, explored, expanded, currentNode);
        return Some(currentNode), tree;
      }
      ExpandStep(initial, goalTest, successors, universe, tree, items0, frontier.items, explored, expanded, currentNode);
      var k := |tree|;
      tree := tree + [currentNode];
      expanded := expanded + {currentState};
      explored := EnqueueUnexplored(frontier, explored, k, successors(currentState),
                    initial, goalTest, successors, universe, tree, expanded);
    }
    DryStep(initial, goalTest, successors, universe, tree, explored, expanded);
    return None, tree;
  }

  /**
   * What A* keeps true between steps.  `explored` maps each state ever pushed to the cost of the
   * last node pushed for it; every node in the tree and on the frontier has the heuristic of its
   * state and a cost one more than its parent's.  Costs stay below the number of recorded states.
   */
  ghost predicate Estimating<T>(initial: T, goalTest: T -> bool, successors: T -> seq<T>, heuristic: T -> int,
                                universe: set<T>, tree: seq<Node<T>>, items: seq<Node<T>>,
                                explored: map<T, nat>, expanded: set<T>, pending: seq<T>)
  {
    && TreeDiscovered(tree, initial, successors)
    && (forall i :: 0 <= i < |tree| ==> Costed(tree[i], tree, heuristic))
    && (forall n :: n in items ==> Discovered(n, tree, initial, successors) && Costed(n, tree, heuristic))
    && (forall i :: 0 <= i < |tree| ==> tree[i].state in expanded)
    && initial in explored && explored.Keys <= universe && expanded <= explored.Keys
    && (forall s :: s in expanded ==> !goalTest(s))
    && (forall s, t :: s in expanded && t in successors(s) ==> t in explored || t in pending)
    && explored.Keys <= expanded + States(items)
    && States(items) <= explored.Keys
    && (forall s :: s in explored ==> explored[s] < |explored.Keys|)
    && (forall n :: n in items ==> n.cost < |explored.Keys|)
  }

  /** Before the first pop: the root node, of cost 0, is the only node and `initial` the only recorded state. */
  lemma AstarStartStep<T>(initial: T, goalTest: T -> bool, successors: T -> seq<T>, heuristic: T -> int,
                          universe: set<T>)
    requires initial in universe
    ensures Estimating(initial, goalTest, successors, heuristic, universe, [],
                       [Node(initial, None, 0, heuristic(initial))], map[initial := 0], {}, [])
  {
    var root := Node(initial, None, 0, heuristic(initial));
    assert States([root]) == {initial} by {
      assert root in [root];
    }
    assert map[initial := 0].Keys == {initial} && |{initial}| == 1;
  }

  /** Popping a non-goal node and appending it to the tree, as in `ExpandStep`. */
  lemma AstarExpandStep<T>(initial: T, goalTest: T -> bool, successors: T -> seq<T>, heuristic: T -> int,
                           universe: set<T>, tree: seq<Node<T>>, items0: seq<Node<T>>, items: seq<Node<T>>,
                           explored: map<T, nat>, expanded: set<T>, current: Node<T>)
    requires Estimating(initial, goalTest, successors, heuristic, universe, tree, items0, explored, expanded, [])
    requires multiset(items0) == multiset(items) + multiset{current}
    requires !goalTest(current.state)
    ensures current.state in universe && current.cost < |explored.Keys|
    ensures Estimating(initial, goalTest, successors, heuristic, universe, tree + [current], items, explored,
                       expanded + {current.state}, successors(current.state))
  {
    StatesSplit(items0, items, current);
    assert current in multiset(items0);
    CostedTreeGrows(tree, current, initial, successors, heuristic);
    forall n | n in items
      ensures Discovered(n, tree + [current], initial, successors) && Costed(n, tree + [current], heuristic)
      ensures n.cost < |explored.Keys|
    {
      assert n in multiset(items);
      assert n in multiset(items0);
      NodeGrows(n, tree, current, initial, successors, heuristic);
    }
  }

  /** Appending a discovered, costed node to a tree of such nodes gives a tree of such nodes. */
  lemma CostedTreeGrows<T>(tree: seq<Node<T>>, x: Node<T>, initial: T, successors: T -> seq<T>, heuristic: T -> int)
    requires TreeDiscovered(tree, initial, successors) && forall i :: 0 <= i < |tree| ==> Costed(tree[i], tree, heuristic)
    requires Discovered(x, tree, initial, successors) && Costed(x, tree, heuristic)
    ensures TreeDiscovered(tree + [x], initial, successors)
    ensures forall i :: 0 <= i < |tree| + 1 ==> Costed((tree + [x])[i], tree + [x], heuristic)
  {
    var tree' := tree + [x];
    forall i | 0 <= i < |tree'|
      ensures Discovered(tree'[i], tree', initial, successors) && Costed(tree'[i], tree', heuristic)
    {
      if i < |tree| {
        assert tree'[i] == tree[i];
        NodeGrows(tree[i], tree, x, initial, successors, heuristic);
      } else {
        NodeGrows(x, tree, x, initial, successors, heuristic);
      }
    }
  }

  /** Growing the tree keeps a node discovered and costed: its parent keeps its position. */
  lemma NodeGrows<T>(n: Node<T>, tree: seq<Node<T>>, x: Node<T>, initial: T, successors: T -> seq<T>, heuristic: T -> int)
    requires Discovered(n, tree, initial, successors) && Costed(n, tree, heuristic)
    ensures Discovered(n, tree + [x], initial, successors) && Costed(n, tree + [x], heuristic)
  {
    if n.parent.Some? {
      assert (tree + [x])[n.parent.value] == tree[n.parent.value];
    }
  }

  /** A proper subset of a finite set is smaller. */
  lemma ProperSubsetCard<X>(a: set<X>, b: set<X>)
    requires a < b
    ensures |a| < |b|
  {
    assert b - a != {};
    var x :| x in b - a;
    SubsetCard(a, b - {x});
  }

  /**
   * Recording `cost` for `s`, where `s` is new or `cost` is strictly lower than recorded: no
   * recorded cost goes up, the potential shrinks, and costs stay below the number of recorded states.
   */
  lemma RecordCost<T>(universe: set<T>, explored: map<T, nat>, s: T, cost: nat)
    requires explored.Keys <= universe && s in universe
    requires forall t :: t in explored ==> explored[t] < |explored.Keys|
    requires cost <= |explored.Keys| && (s !in explored || explored[s] > cost)
    ensures explored[s := cost].Keys <= universe
    ensures |explored.Keys| <= |explored[s := cost].Keys| && cost < |explored[s := cost].Keys|
    ensures var after := explored[s := cost]; forall t :: t in after ==> after[t] < |after.Keys|
    ensures forall t :: t in explored ==> t in explored[s := cost] && explored[s := cost][t] <= explored[t]
    ensures |Potential(universe, explored[s := cost])| < |Potential(universe, explored)|
  {
    var after := explored[s := cost];
    assert after.Keys == explored.Keys + {s};
    if s !in explored {
      SubsetCard(explored.Keys + {s}, universe);
      assert |after.Keys| == |explored.Keys| + 1;
    } else {
      assert after.Keys == explored.Keys;
    }
    SubsetCard(explored.Keys, universe);
    RelaxLowers(universe, explored, s, cost);
    ProperSubsetCard(Potential(universe, after), Potential(universe, explored));
  }

  /** Relaxing a successor of the node at `k`: recording its new cost and pushing a node for it. */
  lemma RelaxStep<T>(initial: T, goalTest: T -> bool, successors: T -> seq<T>, heuristic: T -> int,
                     universe: set<T>, tree: seq<Node<T>>, items: seq<Node<T>>, items': seq<Node<T>>,
                     explored: map<T, nat>, explored': map<T, nat>, expanded: set<T>, pending: seq<T>,
                     k: nat, current: Node<T>, neighbour: T)
    requires Estimating(initial, goalTest, successors, heuristic, universe, tree, items, explored, expanded, pending)
    requires Closed(universe, successors) && k < |tree| && tree[k] == current && current.state in universe
    requires current.cost < |explored.Keys| && neighbour in successors(current.state)
    requires neighbour !in explored || explored[neighbour] > current.cost + 1
    requires items' == items + [Node(neighbour, Some(k), current.cost + 1, heuristic(neighbour))]
    requires explored' == explored[neighbour := current.cost + 1]
    ensures Estimating(initial, goalTest, successors, heuristic, universe, tree, items', explored', expanded, pending)
  {
    var newCost := current.cost + 1;
    var node := Node(neighbour, Some(k), newCost, heuristic(neighbour));
    StatesSplit(items + [node], items, node);
    RecordCost(universe, explored, neighbour, newCost);
  }

  /** Once the first pending successor is recorded, it is no longer pending. */
  lemma AstarSettleStep<T>(initial: T, goalTest: T -> bool, successors: T -> seq<T>, heuristic: T -> int,
                           universe: set<T>, tree: seq<Node<T>>, items: seq<Node<T>>,
                           explored: map<T, nat>, expanded: set<T>, pending: seq<T>)
    requires Estimating(initial, goalTest, successors, heuristic, universe, tree, items, explored, expanded, pending)
    requires pending != [] && pending[0] in explored
    ensures Estimating(initial, goalTest, successors, heuristic, universe, tree, items, explored, expanded, pending[1..])
  {
    assert forall t :: t in pending ==> t == pending[0] || t in pending[1..];
  }

  /** A popped node that passes the goal test: its chain is a walk to a goal, with one unit of cost per edge. */
  lemma AstarGoalStep<T>(initial: T, goalTest: T -> bool, successors: T -> seq<T>, heuristic: T -> int,
                         universe: set<T>, tree: seq<Node<T>>, items: seq<Node<T>>,
                         explored: map<T, nat>, expanded: set<T>, current: Node<T>)
    requires Estimating(initial, goalTest, successors, heuristic, universe, tree, items, explored, expanded, [])
    requires current in items
    ensures Linked(current, tree) && IsWalk(Chain(current, tree), initial, successors)
    ensures current.cost == |Chain(current, tree)| - 1 && current.heuristic == heuristic(current.state)
  {
    ChainIsWalk(current, tree, initial, successors);
    CostCountsEdges(current, tree, heuristic);
  }

  /** With the frontier empty, no walk from `initial` reaches a goal. */
  lemma AstarDryStep<T>(initial: T, goalTest: T -> bool, successors: T -> seq<T>, heuristic: T -> int,
                        universe: set<T>, tree: seq<Node<T>>, explored: map<T, nat>, expanded: set<T>)
    requires Estimating(initial, goalTest, successors, heuristic, universe, tree, [], explored, expanded, [])
    ensures forall p :: IsWalk(p, initial, successors) ==> !goalTest(p[|p| - 1])
  {
    NoGoalReachable(initial, goalTest, successors, explored.Keys, expanded);
  }

  /** The states `explored` records at a cost of at most `cost`, which a relaxation to `cost` leaves alone. */
  ghost function Settled<T>(explored: map<T, nat>, cost: nat): set<T>
  {
    set s | s in explored && explored[s] <= cost
  }

  /** `explored` after relaxing each of `neighbours` in turn to `cost`: recording it when new or dearer. */
  ghost function Relaxed<T>(explored: map<T, nat>, neighbours: seq<T>, cost: nat): map<T, nat>
    decreases |neighbours|
  {
    if neighbours == [] then explored
    else
      var m := Relaxed(explored, neighbours[..|neighbours| - 1], cost);
      var s := neighbours[|neighbours| - 1];
      if s !in m || m[s] > cost then m[s := cost] else m
  }

  /**
   * Relaxing `neighbours` to `cost` records every neighbour, at the smaller of its old cost and
   * `cost`, and leaves every other recorded state at its cost.
   */
  lemma {:induction false} RelaxedMeaning<T>(explored: map<T, nat>, neighbours: seq<T>, cost: nat)
    ensures Relaxed(explored, neighbours, cost).Keys == explored.Keys + Members(neighbours)
    ensures forall s :: s in neighbours ==>
      Relaxed(explored, neighbours, cost)[s] == if s in explored && explored[s] <= cost then explored[s] else cost
    ensures forall s :: s in explored && s !in neighbours ==> Relaxed(explored, neighbours, cost)[s] == explored[s]
    decreases |neighbours|
  {
    if neighbours != [] {
      var init := neighbours[..|neighbours| - 1];
      var last := neighbours[|neighbours| - 1];
      assert neighbours == init + [last];
      RelaxedMeaning(explored, init, cost);
      MembersStep(init, last);
    }
  }

  /** The nodes A* pushes for `states`, children of the node at `k` at `cost`. */
  ghost function CostedChildren<T>(states: seq<T>, k: nat, cost: nat, heuristic: T -> int): seq<Node<T>>
  {
    seq(|states|, i requires 0 <= i < |states| => Node(states[i], Some(k), cost, heuristic(states[i])))
  }

  /** One more state, one more node at the end. */
  lemma CostedChildrenStep<T>(states: seq<T>, x: T, k: nat, cost: nat, heuristic: T -> int)
    ensures CostedChildren(states + [x], k, cost, heuristic) ==
            CostedChildren(states, k, cost, heuristic) + [Node(x, Some(k), cost, heuristic(x))]
  {
  }

  /** One turn of the inner loop of `Astar` takes the recorded costs one neighbour further. */
  lemma RelaxedAccount<T>(known: map<T, nat>, neighbours: seq<T>, j: nat, cost: nat,
                          explored: map<T, nat>, explored': map<T, nat>)
    requires j < |neighbours| && explored == Relaxed(known, neighbours[..j], cost)
    requires explored' == if neighbours[j] !in explored || explored[neighbours[j]] > cost
                          then explored[neighbours[j] := cost] else explored
    ensures explored' == Relaxed(known, neighbours[..j + 1], cost)
  {
    assert neighbours[..j + 1][..j] == neighbours[..j];
  }

  /**
   * The same turn pushes a node for the `j`th neighbour exactly when it is neither settled at the
   * start nor an earlier neighbour, so the frontier gains one node per such neighbour, in order.
   */
  lemma RelaxPushedAccount<T>(known: map<T, nat>, neighbours: seq<T>, j: nat, k: nat, cost: nat,
                              heuristic: T -> int, start: seq<Node<T>>, items: seq<Node<T>>,
                              items': seq<Node<T>>, explored: map<T, nat>)
    requires j < |neighbours| && explored == Relaxed(known, neighbours[..j], cost)
    requires items == start + CostedChildren(FirstNew(neighbours[..j], Settled(known, cost)), k, cost, heuristic)
    requires items' == if neighbours[j] !in explored || explored[neighbours[j]] > cost
                       then items + [Node(neighbours[j], Some(k), cost, heuristic(neighbours[j]))] else items
    ensures items' == start + CostedChildren(FirstNew(neighbours[..j + 1], Settled(known, cost)), k, cost, heuristic)
  {
    var s := neighbours[j];
    var before := FirstNew(neighbours[..j], Settled(known, cost));
    RelaxedMeaning(known, neighbours[..j], cost);
    FirstNewStep(neighbours, j, Settled(known, cost));
    if s !in explored || explored[s] > cost {
      assert s !in neighbours[..j] && s !in Settled(known, cost);
      CostedChildrenStep(before, s, k, cost, heuristic);
    } else {
      assert s in neighbours[..j] || s in Settled(known, cost);
    }
  }

  /**
   * The inner loop of `Astar`: for each successor of the node at `k`, record the cost one more than
   * that node's when the successor is new or the cost is lower than recorded, and push a node for it.
   * The recorded costs become `Relaxed` ones (`RelaxedMeaning` says which), and the frontier gains
   * one node per successor not settled at that cost, in order (`FirstNewMeaning`).
   */
  method RelaxSuccessors<T(==)>(frontier: PriorityQueue<Node<T>>, explored: map<T, nat>, k: nat, current: Node<T>,
                                ghost initial: T, ghost goalTest: T -> bool, ghost successors: T -> seq<T>,
                                heuristic: T -> int, ghost universe: set<T>, ghost tree: seq<Node<T>>,
                                ghost expanded: set<T>, neighbours: seq<T>)
    returns (explored': map<T, nat>)
    requires Estimating(initial, goalTest, successors, heuristic, universe, tree, frontier.items, explored, expanded, neighbours)
    requires Closed(universe, successors) && k < |tree| && tree[k] == current && current.state in universe
    requires current.cost < |explored.Keys| && neighbours == successors(current.state)
    modifies frontier
    ensures explored' == Relaxed(explored, neighbours, current.cost + 1)
    ensures frontier.items == old(frontier.items) +
      CostedChildren(FirstNew(neighbours, Settled(explored, current.cost + 1)), k, current.cost + 1, heuristic)
    ensures Estimating(initial, goalTest, successors, heuristic, universe, tree, frontier.items, explored', expanded, [])
    ensures |Potential(universe, explored')| < |Potential(universe, explored)| ||
            (explored' == explored && frontier.items == old(frontier.items))
  {
    explored' := explored;
    ghost var start, rest := frontier.items, neighbours;
    for j := 0 to |neighbours|
      invariant rest == neighbours[j..]
      invariant explored' == Relaxed(explored, neighbours[..j], current.cost + 1)
      invariant frontier.items == start +
        CostedChildren(FirstNew(neighbours[..j], Settled(explored, current.cost + 1)), k, current.cost + 1, heuristic)
      invariant Estimating(initial, goalTest, successors, heuristic, universe, tree, frontier.items, explored', expanded, rest)
      invariant current.cost < |explored'.Keys|
      invariant |Potential(universe, explored')| < |Potential(universe, explored)| ||
                (explored' == explored && frontier.items == start)
    {
      ghost var items0, explored0 := frontier.items, explored';
      explored' := Relax(frontier, explored', k, current, neighbours[j], heuristic);
      RelaxTurn(initial, goalTest, successors, heuristic, universe, tree, expanded, k, current, neighbours, j, explored, start,
                items0, frontier.items, explored0, explored', rest);
      rest := rest[1..];
    }
    assert neighbours[..|neighbours|] == neighbours;
  }

  /**
   * One turn of the loop of `RelaxSuccessors`, relaxing the `j`th neighbour: the search invariant
   * holds with one successor fewer pending, the recorded costs and the frontier are those of one
   * more neighbour relaxed, and the potential has shrunk unless nothing changed.
   */
  lemma RelaxTurn<T>(initial: T, goalTest: T -> bool, successors: T -> seq<T>, heuristic: T -> int,
                     universe: set<T>, tree: seq<Node<T>>, expanded: set<T>, k: nat, current: Node<T>, neighbours: seq<T>, j: nat,
                     known: map<T, nat>, start: seq<Node<T>>, items: seq<Node<T>>, items': seq<Node<T>>,
                     explored: map<T, nat>, explored': map<T, nat>, rest: seq<T>)
    requires Estimating(initial, goalTest, successors, heuristic, universe, tree, items, explored, expanded, rest)
    requires Closed(universe, successors) && k < |tree| && tree[k] == current && current.state in universe
    requires current.cost < |explored.Keys| && neighbours == successors(current.state)
    requires j < |neighbours| && rest == neighbours[j..]
    requires explored == Relaxed(known, neighbours[..j], current.cost + 1)
    requires items == start +
      CostedChildren(FirstNew(neighbours[..j], Settled(known, current.cost + 1)), k, current.cost + 1, heuristic)
    requires |Potential(universe, explored)| < |Potential(universe, known)| || (explored == known && items == start)
    requires explored' == if neighbours[j] !in explored || explored[neighbours[j]] > current.cost + 1
                          then explored[neighbours[j] := current.cost + 1] else explored
    requires items' == if neighbours[j] !in explored || explored[neighbours[j]] > current.cost + 1
                       then items + [Node(neighbours[j], Some(k), current.cost + 1, heuristic(neighbours[j]))] else items
    ensures explored' == Relaxed(known, neighbours[..j + 1], current.cost + 1)
    ensures items' == start +
      CostedChildren(FirstNew(neighbours[..j + 1], Settled(known, current.cost + 1)), k, current.cost + 1, heuristic)
    ensures Estimating(initial, goalTest, successors, heuristic, universe, tree, items', explored', expanded, rest[1..])
    ensures current.cost < |explored'.Keys|
    ensures |Potential(universe, explored')| < |Potential(universe, known)| || (explored' == known && items' == start)
  {
    var s, newCost := neighbours[j], current.cost + 1;
    assert rest[0] == s;
    if s !in explored || explored[s] > newCost {
      RecordCost(universe, explored, s, newCost);
      RelaxStep(initial, goalTest, successors, heuristic, universe, tree, items, items', explored, explored',
                expanded, rest, k, current, s);
    }
    AstarSettleStep(initial, goalTest, successors, heuristic, universe, tree, items', explored', expanded, rest);
    RelaxedAccount(known, neighbours, j, newCost, explored, explored');
    RelaxPushedAccount(known, neighbours, j, k, newCost, heuristic, start, items, items', explored);
  }

  /**
   * One step of the inner loop of `Astar`: record the cost one more than that of `current` for
   * `neighbour` and push a node for it, when `neighbour` is new or that cost is lower than recorded.
   */
  method Relax<T(==)>(frontier: PriorityQueue<Node<T>>, explored: map<T, nat>, k: nat, current: Node<T>, neighbour: T,
                      heuristic: T -> int)
    returns (explored': map<T, nat>)
    modifies frontier
    ensures explored' == if neighbour !in explored || explored[neighbour] > current.cost + 1
                         then explored[neighbour := current.cost + 1] else explored
    ensures frontier.items == if neighbour !in explored || explored[neighbour] > current.cost + 1
                              then old(frontier.items) + [Node(neighbour, Some(k), current.cost + 1, heuristic(neighbour))]
                              else old(frontier.items)
  {
    explored' := explored;
    var newCost := current.cost + 1;
    if neighbour !in explored || explored[neighbour] > newCost {
      explored' := explored[neighbour := newCost];
      frontier.Push(Node(neighbour, Some(k), newCost, heuristic(neighbour)));
    }
  }

  /**
   * A* search: a priority-queue frontier ordered by cost plus heuristic, and a map from each state
   * reached to the cheapest cost found so far, relaxed whenever a cheaper way in turns up.
   */
  method Astar<T(==)>(initial: T, goalTest: T -> bool, successors: T -> seq<T>, heuristic: T -> int,
                      ghost universe: set<T>)
    returns (result: Option<Node<T>>, tree: seq<Node<T>>)
    requires initial in universe && Closed(universe, successors)
    ensures TreeDiscovered(tree, initial, successors)
    ensures result.Some? ==>
      Linked(result.value, tree) && goalTest(result.value.state) &&
      IsWalk(Chain(result.value, tree), initial, successors) &&
      result.value.cost == |Chain(result.value, tree)| - 1 &&
      result.value.heuristic == heuristic(result.value.state)
    ensures result.None? ==> forall p :: IsWalk(p, initial, successors) ==> !goalTest(p[|p| - 1])
  {
    var frontier := new PriorityQueue<Node<T>>((n: Node<T>) => n.Priority());
    frontier.Push(Node(initial, None, 0, heuristic(initial)));
    var explored: map<T, nat> := map[initial := 0];
    tree := [];
    ghost var expanded: set<T> := {};
    AstarStartStep(initial, goalTest, successors, heuristic, universe);
    while !frontier.Empty()
      invariant Estimating(initial, goalTest, successors, heuristic, universe, tree, frontier.items, explored, expanded, [])
      decreases |Potential(universe, explored)|, |frontier.items|
    {
      ghost var items0 := frontier.items;
      var currentNode := frontier.Pop();
      var currentState := currentNode.state;
      if goalTest(currentState) {
        AstarGoalStep(initial, goalTest, successors, heuristic, universe, tree, items0, explored, expanded, currentNode);
        return Some(currentNode), tree;
      }
      AstarExpandStep(initial, goalTest, successors, heuristic, universe, tree, items0, frontier.items, explored, expanded, currentNode);
      var k := |tree|;
      tree := tree + [currentNode];
      expanded := expanded + {currentState};
      explored := RelaxSuccessors(frontier, explored, k, currentNode, initial, goalTest, successors, heuristic,
                                  universe, tree, expanded, successors(currentState));
    }
    AstarDryStep(initial, goalTest, successors, heuristic, universe, tree, explored, expanded);
    return None, tree;
  }
}
