# Maze path search: a verified model

This project models the search core of `algorithm/classic_problem/ch2_search.py`. That is an
educational toolkit that finds a route from a start cell to a goal cell of a 2-D grid maze, using
depth-first search, breadth-first search or A*. The pieces modelled are:

- the maze: its cells, the successor function, goal test, bound and obstacle checks, and the
  marking and clearing of a route;
- the search-tree `Node` and its ordering;
- the three frontier containers: stack, queue and priority queue;
- the three generic searches, `dfs`, `bfs` and `astar`;
- `node_to_path`, which turns a returned node back into a route;
- the Manhattan-distance heuristic.

Modules, one concept each:

- `Wrappers` (wrappers.dfy): `Option`, standing for Python's `Optional` results and `None` parent links.
- `Grid` (grid.dfy): cells and locations as values. It defines the open neighbours of a
  location (`Successors`, in the order down, up, right, left), the Manhattan distance, and the grid
  after a route is painted (`Stamped`).
- `Mazes` (maze.dfy): `class Maze`. It keeps the grid in a field that `Mark` and `Clear` overwrite
  cell by cell in a loop. Its queries are specified by the `Grid` functions.
- `Frontiers` (frontier.dfy): `Stack`, `Queue` and `PriorityQueue`, classes whose `items`
  sequence field `Push` and `Pop` replace.
- `SearchTree` (search_tree.dfy): the `Node` datatype and the specification of the parent chain
  (`Chain`, `Depth`, `Root`). The `NodeToPath` method walks that chain.
- `Search` (search.dfy): the methods `Dfs`, `Bfs` and `Astar`. They use the loop invariants
  `Exploring` and `Estimating`, and one step lemma for each way a loop body moves the state on.
- `MazeSearch` (maze_search.dfy): the maze's cells are a finite universe the searches can run in,
  and the Manhattan heuristic is admissible.

Parent links are indices. A search returns, besides the goal node, the `tree` of nodes it
expanded, in expansion order. Every node's parent index points at an earlier node of that tree,
so a parent chain always ends at a root. A Python object reference becomes a position in this arena.

Termination of the three loops needs a finite state space. Each search takes a ghost `universe`:
a set of states that holds `initial` and that `successors` never leaves. For a maze this is
its set of cells (`MazeSearch.MazeIsClosed`). DFS and BFS decrease the set of unexplored
states of the universe. A* decreases the size of the set of (state, k) pairs whose k is at
most the state's recorded cost, or at most the size of the universe for a state not yet
recorded. This works because a recorded cost only goes down, and every cost is smaller than the
number of states recorded.

## Model

| member | source | states |
|---|---|---|
| Grid.SuccessorsAreOpenSteps | algorithm/classic_problem/ch2_search.py:104-121 | a location is a successor exactly when it is an open grid cell at Manhattan distance 1 |
| Grid.SuccessorsAreSteps | algorithm/classic_problem/ch2_search.py:104-121 | every successor is an open cell one step away |
| Grid.SuccessorsByMove | algorithm/classic_problem/ch2_search.py:104-121 | the successors are the open cells among the moves down, up, right and left, in that order |
| Grid.ManhattanDistance | algorithm/classic_problem/ch2_search.py:294-305 | the heuristic bound to a goal is 0 exactly at that goal |
| Grid.ManhattanConsistent | algorithm/classic_problem/ch2_search.py:294-305 | one successor step changes the Manhattan distance by at most 1 |
| Grid.SetCell | algorithm/classic_problem/ch2_search.py:127 | one cell write changes that cell only and keeps the grid's shape |
| Grid.Painted | algorithm/classic_problem/ch2_search.py:126-127 | painting a route keeps the grid's shape |
| Grid.PaintedAt | algorithm/classic_problem/ch2_search.py:126-127 | after painting, the route's cells hold the value and all other cells are unchanged |
| Grid.Stamped | algorithm/classic_problem/ch2_search.py:123-130 | the marked grid has the same shape as before |
| Grid.StampedAt | algorithm/classic_problem/ch2_search.py:123-138 | cell by cell: GOAL at the goal, START at the start, the written value on the other route cells, the rest unchanged |
| Grid.ClearUndoesMark | algorithm/classic_problem/ch2_search.py:123-138 | clearing a marked route restores the grid, when the route cells were EMPTY and start and goal were marked |
| Mazes.Maze.constructor | algorithm/classic_problem/ch2_search.py:39-60 | a rectangular grid: GOAL at the goal, START at the start, BLOCKED on the given obstacle cells, EMPTY elsewhere |
| Mazes.Maze.GoalTest | algorithm/classic_problem/ch2_search.py:85-86 | true exactly at the goal, where the Manhattan distance to it is 0 |
| Mazes.Maze.CheckBound | algorithm/classic_problem/ch2_search.py:95-96 | true exactly for the row and column indices of a cell of the grid |
| Mazes.Maze.BlockedTest | algorithm/classic_problem/ch2_search.py:88-93 | true exactly when the in-bounds cell is not open |
| Mazes.Maze.Successors | algorithm/classic_problem/ch2_search.py:98-121 | the four neighbours that pass the bound and obstacle checks, in the order down, up, right, left; each is one step away |
| Mazes.Maze.OpenTest | algorithm/classic_problem/ch2_search.py:88-96 | in a valid maze, passing the bound test and failing the obstacle test is exactly being an open cell |
| Mazes.Maze.SuccessorsInMaze | algorithm/classic_problem/ch2_search.py:104-121 | every successor passes the bound and obstacle tests and is one step away |
| Mazes.Maze.Mark | algorithm/classic_problem/ch2_search.py:123-130 | the grid becomes the stamped grid: PATH on the route, then START and GOAL restored; the rest unchanged |
| Mazes.Maze.Clear | algorithm/classic_problem/ch2_search.py:132-138 | as `Mark`, writing EMPTY instead of PATH |
| Mazes.Maze.Stamp | algorithm/classic_problem/ch2_search.py:126-130 | the loop behind both: writes the value along the route and then restores START and GOAL |
| Frontiers.Stack.constructor | algorithm/classic_problem/ch2_search.py:164-165 | a new stack is empty |
| Frontiers.Stack.Empty | algorithm/classic_problem/ch2_search.py:167-169 | true exactly when the stack holds no element |
| Frontiers.Stack.Push | algorithm/classic_problem/ch2_search.py:171-172 | the element goes on top; the others are unchanged |
| Frontiers.Stack.Pop | algorithm/classic_problem/ch2_search.py:174-175 | returns the top element and removes it; the others keep their order |
| Frontiers.Queue.constructor | algorithm/classic_problem/ch2_search.py:220-221 | a new queue is empty |
| Frontiers.Queue.Empty | algorithm/classic_problem/ch2_search.py:223-225 | true exactly when the queue holds no element |
| Frontiers.Queue.Push | algorithm/classic_problem/ch2_search.py:227-228 | the element goes at the back; the others are unchanged |
| Frontiers.Queue.Pop | algorithm/classic_problem/ch2_search.py:230-231 | returns the front element and removes it; the others keep their order |
| Frontiers.ArgMin | algorithm/classic_problem/ch2_search.py:274-275 | a position whose element has a key no greater than any other element's |
| Frontiers.PriorityQueue.constructor | algorithm/classic_problem/ch2_search.py:264-265 | a new priority queue is empty and ranks by the given key |
| Frontiers.PriorityQueue.Empty | algorithm/classic_problem/ch2_search.py:267-269 | true exactly when the queue holds no element |
| Frontiers.PriorityQueue.Push | algorithm/classic_problem/ch2_search.py:271-272 | the element is added; the others are unchanged |
| Frontiers.PriorityQueue.Pop | algorithm/classic_problem/ch2_search.py:274-275 | returns an element of minimal key and removes exactly one occurrence of it |
| Frontiers.StackIsLastInFirstOut | algorithm/classic_problem/ch2_search.py:161-175 | two pushes then two pops give the elements back in reverse order |
| Frontiers.QueueIsFirstInFirstOut | algorithm/classic_problem/ch2_search.py:219-231 | two pushes then two pops give the elements back in the order pushed |
| Frontiers.PriorityQueueIsSmallestFirst | algorithm/classic_problem/ch2_search.py:263-275 | whatever the push order, the smaller element comes out first and the larger second |
| SearchTree.Node.Less | algorithm/classic_problem/ch2_search.py:157-158 | one node sorts before another exactly when its cost plus heuristic is smaller |
| SearchTree.LessIsStrictWeakOrder | algorithm/classic_problem/ch2_search.py:157-158 | the node order is irreflexive and transitive, and so is incomparability, as a heap needs |
| SearchTree.SmallestPriorityIsLeast | algorithm/classic_problem/ch2_search.py:157-158 | a node has the smallest cost plus heuristic among the queued nodes exactly when no queued node is `Less` than it |
| SearchTree.Root | algorithm/classic_problem/ch2_search.py:211-214 | the node a parent chain ends at has no parent |
| SearchTree.ChainShape | algorithm/classic_problem/ch2_search.py:207-216 | a chain is non-empty, has one state per node of the parent chain, starts at the root's state and ends at the node's state |
| SearchTree.Reverse | algorithm/classic_problem/ch2_search.py:215 | the reversal has the same length and each element mirrored |
| SearchTree.NodeToPath | algorithm/classic_problem/ch2_search.py:207-216 | no node gives the empty route; a node gives its chain: non-empty, as long as the parent chain, from the root's state to the node's state |
| SearchTree.CollectStep | algorithm/classic_problem/ch2_search.py:212-214 | moving a node's state from the chain still to walk onto the collected states keeps their concatenation, and the parent is still linked |
| Search.ChainIsWalk | algorithm/classic_problem/ch2_search.py:200-203 | the chain of a node built the way the searches build nodes is a walk from `initial` along successor steps |
| Search.CostCountsEdges | algorithm/classic_problem/ch2_search.py:334-350 | in A*, a node's cost is the number of edges on its chain |
| Search.WalkStaysIn | algorithm/classic_problem/ch2_search.py:195-205 | a walk from `initial` never leaves a set that holds `initial` and is closed under successors |
| Search.NoGoalReachable | algorithm/classic_problem/ch2_search.py:195-205 | when every explored state was expanded without passing the goal test, no walk from `initial` ends at a goal |
| Search.RelaxLowers | algorithm/classic_problem/ch2_search.py:347-348 | an A* update keeps every recorded state, never raises a recorded cost, and shrinks the potential set |
| Search.RecordCost | algorithm/classic_problem/ch2_search.py:345-348 | recording a new or lower cost keeps all recorded costs below the number of recorded states and shrinks the potential |
| Search.StartStep | algorithm/classic_problem/ch2_search.py:188-193 | the DFS/BFS invariant holds once the root is pushed and `initial` is explored |
| Search.ExpandStep | algorithm/classic_problem/ch2_search.py:196-200 | popping a non-goal node and adding it to the tree keeps the invariant, with its successors pending |
| Search.TreeGrows | algorithm/classic_problem/ch2_search.py:196-200 | appending a discovered node whose state is not yet expanded keeps the tree discovered and its states distinct |
| Search.DistinctStatesCard | algorithm/classic_problem/ch2_search.py:188-205 | nodes with pairwise distinct states drawn from a set are no more than the set's states |
| Search.DistinctStatesRemove | algorithm/classic_problem/ch2_search.py:196 | popping the top of a stack or the front of a queue leaves nodes with distinct states, none with the popped node's state |
| Search.PushStep | algorithm/classic_problem/ch2_search.py:201-204 | pushing an unexplored child and marking it explored keeps the invariant, so no state is on the frontier twice or both there and in the tree |
| Search.SettleStep | algorithm/classic_problem/ch2_search.py:200-204 | once a child is explored, it is no longer pending |
| Search.GoalStep | algorithm/classic_problem/ch2_search.py:198-199 | a popped goal node is linked into the tree and its chain is a walk from `initial` |
| Search.DryStep | algorithm/classic_problem/ch2_search.py:195-205 | an empty frontier means no walk from `initial` reaches a goal |
| Search.FirstNewMeaning | algorithm/classic_problem/ch2_search.py:200-204 | the children an inner loop pushes are exactly the successors not explored before it, each of them once |
| Search.PushedAccount | algorithm/classic_problem/ch2_search.py:200-203 | one turn of the inner loop pushes the child exactly when it is neither explored nor an earlier child, in successor order |
| Search.ExploredAccount | algorithm/classic_problem/ch2_search.py:201-204 | one turn of the inner loop adds the child to the explored set |
| Search.PushProgress | algorithm/classic_problem/ch2_search.py:200-204 | after the inner loop, either nothing was pushed or the explored set grew |
| Search.ChildStep | algorithm/classic_problem/ch2_search.py:200-204 | one turn of the inner loop keeps the invariant, with one successor fewer pending |
| Search.PushUnexplored | algorithm/classic_problem/ch2_search.py:200-204 | the DFS inner loop pushes one child node per successor not yet explored, in successor order, and adds exactly the successors to the explored set; it keeps the invariant |
| Search.Dfs | algorithm/classic_problem/ch2_search.py:181-205 | a returned node passes the goal test and its chain is a walk from `initial`; `None` only when no walk reaches a goal; the expanded nodes hold pairwise distinct states, so there are at most as many as states |
| Search.EnqueueUnexplored | algorithm/classic_problem/ch2_search.py:256-259 | the BFS inner loop enqueues one child node per successor not yet explored, in successor order, and adds exactly the successors to the explored set; it keeps the invariant |
| Search.Bfs | algorithm/classic_problem/ch2_search.py:237-260 | as `Dfs`, with a queue frontier |
| Search.AstarStartStep | algorithm/classic_problem/ch2_search.py:333-336 | the A* invariant holds for the root node of cost 0 and the map `{initial: 0}` |
| Search.AstarExpandStep | algorithm/classic_problem/ch2_search.py:339-344 | popping a non-goal node keeps the A* invariant, with its successors pending |
| Search.CostedTreeGrows | algorithm/classic_problem/ch2_search.py:349-350 | appending a node keeps every tree node linked to an earlier one and costed one more than its parent |
| Search.RelaxStep | algorithm/classic_problem/ch2_search.py:347-350 | recording a lower cost and pushing a node for it keeps the A* invariant |
| Search.AstarSettleStep | algorithm/classic_problem/ch2_search.py:344-350 | once a neighbour is recorded, it is no longer pending |
| Search.AstarGoalStep | algorithm/classic_problem/ch2_search.py:341-342 | a popped goal node's chain is a walk from `initial`; its cost is its edge count and its heuristic that of its state |
| Search.AstarDryStep | algorithm/classic_problem/ch2_search.py:338-351 | an empty A* frontier means no walk from `initial` reaches a goal |
| Search.Relax | algorithm/classic_problem/ch2_search.py:345-350 | one neighbour: when it is unrecorded or recorded at more than the current cost plus one, that cost is recorded for it and a node for it is pushed with that cost and its heuristic; otherwise nothing changes |
| Search.RelaxedMeaning | algorithm/classic_problem/ch2_search.py:344-348 | relaxing a list of neighbours to one cost records each of them at the smaller of its old cost and that cost, and leaves every other state as it was |
| Search.RelaxedAccount | algorithm/classic_problem/ch2_search.py:345-348 | one turn of the A* inner loop takes the recorded costs one neighbour further |
| Search.RelaxPushedAccount | algorithm/classic_problem/ch2_search.py:347-350 | one turn of the A* inner loop pushes a node exactly for a neighbour neither recorded at that cost or less nor seen earlier in the loop |
| Search.RelaxTurn | algorithm/classic_problem/ch2_search.py:344-350 | one turn of the A* inner loop keeps the invariant and both accounts, and shrinks the potential unless nothing changed |
| Search.RelaxSuccessors | algorithm/classic_problem/ch2_search.py:344-350 | the A* inner loop: the recorded costs become the relaxed ones and the frontier gains one node per neighbour not already recorded at that cost or less, in order; it keeps the invariant |
| Search.Astar | algorithm/classic_problem/ch2_search.py:307-351 | a returned node passes the goal test, its chain is a walk from `initial`, its cost is that walk's edge count and its heuristic that of its state; `None` only when no walk reaches a goal |
| MazeSearch.CellsOfIsInGrid | algorithm/classic_problem/ch2_search.py:95-96 | the maze's cell set is exactly its in-bounds locations |
| MazeSearch.MazeIsClosed | algorithm/classic_problem/ch2_search.py:104-121 | maze successors never leave the grid, so the cells are a universe for the searches |
| MazeSearch.WalkInGrid | algorithm/classic_problem/ch2_search.py:104-121 | a walk through the maze that starts on a cell stays on the grid, so a route a search returns can be marked |
| MazeSearch.ManhattanAdmissible | algorithm/classic_problem/ch2_search.py:294-305 | on any route through the maze to the goal, the Manhattan distance of its first cell is at most its number of steps |

## Left out

- `Maze.__init__` fills the grid at random with obstacles, at a float sparseness (`_randomly_fill`). The constructor takes the set of obstacle cells as a parameter instead.
- `Mazes.Maze.constructor`: requires start and goal inside the grid. An out-of-range start or goal makes Python raise, and a negative one wraps round to the far side; neither is modelled.
- `Mazes.Maze.Mark`, `Mazes.Maze.Clear`: require every route cell to lie inside the grid. Python would wrap a negative index round, or raise on a too-large one. A route a search returns from the maze's start meets this requirement (`MazeSearch.WalkInGrid`).
- `Mazes.Maze.BlockedTest`: requires an in-bounds cell, as its only caller (`successors`) checks the bound first.
- `euclidean_distance` uses floating-point square roots and is not modelled. The A* heuristic is any function to `int`, and costs are `nat` (Python's costs are floats, but always `0.0 + 1 + 1 …`).
- `Frontiers.PriorityQueue`: ranks its elements by a key function given to its constructor, not by the elements' own `<` (`Node.__lt__`). For search nodes the key is `Priority`, and `SearchTree.SmallestPriorityIsLeast` shows that popping the smallest key is popping an element no other is `Less` than.
- The heap inside `PriorityQueue` (`heapq`) is not modelled. The queue is a bag, and `Pop` promises a minimal element. Which of several equal minima comes out is left open, as a heap's tie-break is.
- The `__str__` and `__repr__` methods only render text.
- `Search.Dfs`, `Search.Bfs`, `Search.Astar`: require a finite `universe` that holds `initial` and that `successors` never leaves. This is what makes the loops terminate; Python runs on an unbounded state space and may loop forever. For a maze, the set of its cells meets the requirement.
- `Search.Bfs`, `Search.Astar`: the shortest-route promise of BFS, and the optimality of A* under an admissible heuristic, are not proved. Only the validity of the returned route, the cost bookkeeping, and completeness when `None` comes back are.
- The inner `for` loops of the searches are separate methods (`PushUnexplored`, `EnqueueUnexplored`, `RelaxSuccessors`, whose body is `Relax`). They have the same statements, in the same order, as the loops they stand for.
- `algorithm/classic_problem/test_ch2_search.py` builds a random maze and prints the results of the searches. It asserts nothing, so it is not part of this model.
