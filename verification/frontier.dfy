/**
 * The three frontier containers the searches use.  Each keeps its elements in a sequence
 * field that `Push` and `Pop` replace; `Empty` is the loop test of every search.
 */
module Frontiers {

  /** Last in, first out: `items` runs from the bottom to the top of the stack. */
  class Stack<E> {
    var items: seq<E>

    constructor ()
      ensures items == []
    {
      items := [];
    }

    /** True exactly when the stack holds no element. */
    predicate Empty()
      reads this
      ensures Empty() <==> |items| == 0
    {
      items == []
    }

    /** Puts `item` on top. */
    method Push(item: E)
      modifies this
      ensures items == old(items) + [item]
    {
      items := items + [item];
    }

    /** Removes and returns the element pushed most recently; the others keep their order. */
    method Pop() returns (item: E)
      requires !Empty()
      modifies this
      ensures item == old(items)[|old(items)| - 1]
      ensures items == old(items)[..|old(items)| - 1]
      ensures old(items) == items + [item]
    {
      item := items[|items| - 1];
      items := items[..|items| - 1];
    }
  }

  /** First in, first out: `items` runs from the front to the back of the queue. */
  class Queue<E> {
    var items: seq<E>

    constructor ()
      ensures items == []
    {
      items := [];
    }

    /** True exactly when the queue holds no element. */
    predicate Empty()
      reads this
      ensures Empty() <==> |items| == 0
    {
      items == []
    }

    /** Adds `item` at the back. */
    method Push(item: E)
      modifies this
      ensures items == old(items) + [item]
    {
      items := items + [item];
    }

    /** Removes and returns the element pushed earliest; the others keep their order. */
    method Pop() returns (item: E)
      requires !Empty()
      modifies this
      ensures item == old(items)[0]
      ensures items == old(items)[1..]
      ensures old(items) == [item] + items
    {
      item := items[0];
      items := items[1..];
    }
  }

  /**
   * The position of an element of `s` with the smallest key.  Which of several equal minima
   * is chosen is not part of the contract, as a binary heap promises no tie-break.
   */
  function ArgMin<E>(s: seq<E>, key: E -> int): (i: nat)
    requires |s| > 0
    ensures i < |s|
    ensures forall j :: 0 <= j < |s| ==> key(s[i]) <= key(s[j])
  {
    if |s| == 1 then 0
    else
      var k := 1 + ArgMin(s[1..], key);
      if key(s[0]) <= key(s[k]) then 0 else k
  }

  /**
   * Smallest first: `key` gives each element's rank (for search nodes, cost plus heuristic).
   * `items` is the multiset of queued elements in no particular order; the heap layout that
   * makes push and pop logarithmic is not modelled.
   */
  class PriorityQueue<E> {
    const key: E -> int
    var items: seq<E>

    constructor (key: E -> int)
      ensures this.key == key && items == []
    {
      this.key := key;
      items := [];
    }

    /** True exactly when the queue holds no element. */
    predicate Empty()
      reads this
      ensures Empty() <==> |items| == 0
    {
      items == []
    }

    /** Adds `item`. */
    method Push(item: E)
      modifies this
      ensures items == old(items) + [item]
    {
      items := items + [item];
    }

    /** Removes and returns an element whose key is no greater than that of any other element. */
    method Pop() returns (item: E)
      requires !Empty()
      modifies this
      ensures item in old(items)
      ensures forall y :: y in old(items) ==> key(item) <= key(y)
      ensures multiset(items) + multiset{item} == multiset(old(items))
    {
      var i := ArgMin(items, key);
      item := items[i];
      assert items == items[..i] + [item] + items[i + 1..];
      items := items[..i] + items[i + 1..];
    }
  }

  /** Two pushes then two pops on a stack give the elements back in reverse order. */
  method StackIsLastInFirstOut<E>(x: E, y: E) returns (first: E, second: E)
    ensures first == y && second == x
  {
    var s := new Stack<E>();
    s.Push(x);
    s.Push(y);
    first := s.Pop();
    second := s.Pop();
  }

  /** Two pushes then two pops on a queue give the elements back in the order they came. */
  method QueueIsFirstInFirstOut<E>(x: E, y: E) returns (first: E, second: E)
    ensures first == x && second == y
  {
    var q := new Queue<E>();
    q.Push(x);
    q.Push(y);
    first := q.Pop();
    second := q.Pop();
  }

  /** Taking one of two elements out of a bag of two leaves a one-element sequence holding the other. */
  lemma OtherOfTwo<E>(x: E, y: E, first: E, rest: seq<E>)
    requires multiset(rest) + multiset{first} == multiset{x, y}
    ensures first == x || first == y
    ensures rest == [if first == x then y else x]
  {
    assert first in multiset{x, y};
    assert |multiset(rest) + multiset{first}| == |multiset{x, y}| == 2;
    assert |multiset(rest)| == 1;
    assert rest == [rest[0]];
    assert rest[0] in multiset(rest);
    if first == x {
      assert multiset{rest[0]} == multiset{x, y} - multiset{x} == multiset{y};
    } else {
      assert multiset{rest[0]} == multiset{x, y} - multiset{y} == multiset{x};
    }
  }

  /** Whatever the order of pushing, a priority queue gives back the element with the smaller key first. */
  method PriorityQueueIsSmallestFirst(x: int, y: int) returns (first: int, second: int)
    ensures first == if x <= y then x else y
    ensures second == if x <= y then y else x
  {
    var pq := new PriorityQueue<int>(n => n);
    pq.Push(x);
    pq.Push(y);
    assert pq.items == [x, y];
    first := pq.Pop();
    assert pq.key(first) <= pq.key(x) && pq.key(first) <= pq.key(y) by {
      assert x in [x, y] && y in [x, y];
    }
    OtherOfTwo(x, y, first, pq.items);
    second := pq.Pop();
  }
}
