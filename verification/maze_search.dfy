/**
 * What the generic searches need from a maze.  The cells of the grid form a finite set that
 * holds the start and that the maze's successor function never leaves, so any of the three
 * searches can run on a maze with that set as its universe; and the Manhattan distance to the
 * goal never overestimates the number of steps still needed, so it is an admissible A* heuristic.
 */
module MazeSearch {

  import opened Grid
  import opened Search

  /** Every location that names a cell of `g`. */
  ghost function CellsOf(g: Cells): set<Location>
  {
    set r, c | 0 <= r < |g| && 0 <= c < |g[r]| :: Location(r, c)
  }

  /** The cells of a grid are exactly its in-grid locations. */
  lemma CellsOfIsInGrid(g: Cells, l: Location)
    ensures l in CellsOf(g) <==> InGrid(g, l)
  {
    if InGrid(g, l) {
      assert Location(l.row, l.column) == l;
    }
  }

  /** A step through the maze never leaves the grid, so its cells are a universe for the searches. */
  lemma MazeIsClosed(g: Cells)
    ensures Closed(CellsOf(g), (l: Location) => Successors(g, l))
  {
    forall s, t | s in CellsOf(g) && t in Successors(g, s)
      ensures t in CellsOf(g)
    {
      SuccessorsAreOpenSteps(g, s, t);
      CellsOfIsInGrid(g, t);
    }
  }

  /**
   * Along any route through the maze that ends at the goal, the Manhattan distance of its first
   * cell is at most the number of steps taken: the heuristic never overestimates.
   */
  lemma {:induction false} ManhattanAdmissible(g: Cells, goal: Location, p: seq<Location>)
    requires |p| >= 1 && IsWalk(p, p[0], (l: Location) => Successors(g, l))
    requires p[|p| - 1] == goal
    ensures ManhattanDistance(goal)(p[0]) <= |p| - 1
    decreases |p|
  {
    if |p| > 1 {
      var q := p[1..];
      assert IsWalk(q, q[0], (l: Location) => Successors(g, l)) by {
        forall i | 0 <= i < |q| - 1
          ensures q[i + 1] in Successors(g, q[i])
        {
          assert q[i] == p[i + 1] && q[i + 1] == p[i + 2];
        }
      }
      ManhattanAdmissible(g, goal, q);
      assert p[1] in Successors(g, p[0]);
      ManhattanConsistent(g, goal, p[0], p[1]);
    }
  }

  /**
   * A walk through the maze that starts on a cell of the grid stays on the grid: each later cell
   * is an open successor of the one before.  So a route a search returns from the maze's start can
   * be drawn with `Mark`.
   */
  lemma WalkInGrid(g: Cells, p: seq<Location>)
    requires |p| >= 1 && IsWalk(p, p[0], (l: Location) => Successors(g, l)) && InGrid(g, p[0])
    ensures AllInGrid(g, p)
  {
    forall i | 1 <= i < |p|
      ensures InGrid(g, p[i])
    {
      assert p[i] in Successors(g, p[i - 1]);
      SuccessorsAreOpenSteps(g, p[i - 1], p[i]);
    }
  }
}
