/**
 * Search-tree nodes and path reconstruction.  A node's parent link is an index into the
 * tree: the sequence of nodes the search has expanded, in the order it expanded them.
 * A node only ever points at a node expanded before it, so parent links cannot form a cycle.
 */
module SearchTree {

  import opened Wrappers

  /**
   * A state reached by the search, the position of the expanded node it was reached from
   * (`None` for the root), the cost of the path to it and the heuristic estimate of the rest.
   */
  datatype Node<T> = Node(state: T, parent: Option<nat>, cost: nat, heuristic: int)
  {
    /** The estimated total cost through this node; priority queues pop the smallest. */
    function Priority(): int
    {
      cost + heuristic
    }

    /** Node comparison: `this` sorts before `other` exactly when its estimated total is smaller. */
    predicate Less(other: Node<T>)
      ensures Less(other) <==> Priority() < other.Priority()
    {
      cost + heuristic < other.cost + other.heuristic
    }
  }

  /** `Less` is a strict weak order: irreflexive and transitive, and being unordered is transitive too. */
  lemma LessIsStrictWeakOrder<T>(a: Node<T>, b: Node<T>, c: Node<T>)
    ensures !a.Less(a)
    ensures a.Less(b) && b.Less(c) ==> a.Less(c)
    ensures !a.Less(b) && !b.Less(a) && !b.Less(c) && !c.Less(b) ==> !a.Less(c) && !c.Less(a)
  {
  }

  /**
   * Popping by smallest `Priority` is popping by `Less`: a node has the smallest priority among
   * `items` exactly when no node of `items` is `Less` than it.
   */
  lemma SmallestPriorityIsLeast<T>(items: seq<Node<T>>, n: Node<T>)
    ensures (forall y :: y in items ==> n.Priority() <= y.Priority()) <==> (forall y :: y in items ==> !y.Less(n))
  {
  }

  /** The parent link of `n`, if any, points into the first `bound` nodes of a tree. */
  predicate ParentBelow<T>(n: Node<T>, bound: nat)
  {
    n.parent.Some? ==> n.parent.value < bound
  }

  /** Every node of `tree` points at a node that comes before it. */
  predicate WellFormed<T>(tree: seq<Node<T>>)
  {
    forall i :: 0 <= i < |tree| ==> ParentBelow(tree[i], i)
  }

  /** `n` can be traced back through `tree`. */
  predicate Linked<T>(n: Node<T>, tree: seq<Node<T>>)
  {
    WellFormed(tree) && ParentBelow(n, |tree|)
  }

  /** One more than the parent's position, zero at a root: it shrinks along every parent link. */
  function Rank<T>(n: Node<T>): nat
  {
    match n.parent
    case None => 0
    case Some(p) => p + 1
  }

  /** The states from the root of `n`'s chain of parents down to `n` itself. */
  function Chain<T>(n: Node<T>, tree: seq<Node<T>>): seq<T>
    requires Linked(n, tree)
    decreases Rank(n)
  {
    match n.parent
    case None => [n.state]
    case Some(p) => Chain(tree[p], tree) + [n.state]
  }

  /** The number of nodes on the chain of parents from `n` up to its root, `n` included. */
  function Depth<T>(n: Node<T>, tree: seq<Node<T>>): nat
    requires Linked(n, tree)
    decreases Rank(n)
  {
    match n.parent
    case None => 1
    case Some(p) => 1 + Depth(tree[p], tree)
  }

  /** The node without a parent that `n`'s chain of parents ends at. */
  function Root<T>(n: Node<T>, tree: seq<Node<T>>): (r: Node<T>)
    requires Linked(n, tree)
    ensures r.parent.None?
    decreases Rank(n)
  {
    match n.parent
    case None => n
    case Some(p) => Root(tree[p], tree)
  }

  /** A chain is never empty, runs from the root's state to `n`'s state, and has one state per node of the parent chain. */
  lemma {:induction false} ChainShape<T>(n: Node<T>, tree: seq<Node<T>>)
    requires Linked(n, tree)
    ensures |Chain(n, tree)| == Depth(n, tree) >= 1
    ensures Chain(n, tree)[0] == Root(n, tree).state
    ensures Chain(n, tree)[|Chain(n, tree)| - 1] == n.state
    decreases Rank(n)
  {
    match n.parent
    case None =>
    case Some(p) => ChainShape(tree[p], tree);
  }

  /** `s` back to front. */
  function Reverse<X>(s: seq<X>): (r: seq<X>)
    ensures |r| == |s|
    ensures forall i :: 0 <= i < |s| ==> r[i] == s[|s| - 1 - i]
  {
    if s == [] then [] else [s[|s| - 1]] + Reverse(s[..|s| - 1])
  }

  /** Moving `n`'s state from the chain still to walk onto the collection keeps their concatenation. */
  lemma CollectStep<T>(n: Node<T>, tree: seq<Node<T>>, collected: seq<T>)
    requires Linked(n, tree)
    ensures n.parent.Some? ==> Linked(tree[n.parent.value], tree)
    ensures Chain(n, tree) + Reverse(collected)
         == (if n.parent.Some? then Chain(tree[n.parent.value], tree) else []) + Reverse(collected + [n.state])
  {
    assert Reverse(collected + [n.state]) == [n.state] + Reverse(collected) by {
      assert (collected + [n.state])[..|collected|] == collected;
    }
  }

  /**
   * Walks the parent links from `node` to the root, collecting each state, and reverses the
   * collection so that it runs from the root's state to `node`'s state.  No node gives no route.
   */
  method NodeToPath<T>(node: Option<Node<T>>, tree: seq<Node<T>>) returns (path: seq<T>)
    requires node.Some? ==> Linked(node.value, tree)
    ensures node.None? ==> path == []
    ensures node.Some? ==> path == Chain(node.value, tree) && |path| == Depth(node.value, tree) >= 1
    ensures node.Some? ==> path[0] == Root(node.value, tree).state && path[|path| - 1] == node.value.state
  {
    ghost var route := if node.Some? then Chain(node.value, tree) else [];
    var collected: seq<T> := [];
    var curr := node;
    while curr.Some?
      invariant curr.Some? ==> Linked(curr.value, tree)
      invariant route == (if curr.Some? then Chain(curr.value, tree) else []) + Reverse(collected)
      decreases if curr.Some? then Rank(curr.value) + 1 else 0
    {
      var n := curr.value;
      CollectStep(n, tree, collected);
      collected := collected + [n.state];
      curr := match n.parent
        case None => None
        case Some(p) => Some(tree[p]);
    }
    path := Reverse(collected);
    if node.Some? {
      ChainShape(node.value, tree);
    }
  }
}
