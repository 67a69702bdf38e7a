/**
 * The maze as a value: its cells, its locations, which neighbours of a location are
 * reachable in one step, and the Manhattan-distance heuristic.  The class in maze.dfy
 * keeps a grid of this kind in a field and is specified by these functions.
 */
module Grid {

  /** The status of one cell of the maze. */
  datatype Cell = Empty | Blocked | Start | Goal | Path

  /** A cell's coordinates; equality is by value, so it serves as a set member and map key. */
  datatype Location = Location(row: int, column: int)

  type Cells = seq<seq<Cell>>

  function Abs(x: int): nat
  {
    if x < 0 then -x else x
  }

  /** Every row of `g` has `columns` cells and there are `rows` rows. */
  predicate Rectangular(g: Cells, rows: nat, columns: nat)
  {
    |g| == rows && forall r :: 0 <= r < rows ==> |g[r]| == columns
  }

  /** `loc` names a cell of `g`. */
  predicate InGrid(g: Cells, loc: Location)
  {
    0 <= loc.row < |g| && 0 <= loc.column < |g[loc.row]|
  }

  /** Every location of `path` names a cell of `g`. */
  predicate AllInGrid(g: Cells, path: seq<Location>)
  {
    forall l :: l in path ==> InGrid(g, l)
  }

  /** `a` and `b` have the same rows and row lengths, so they name the same cells. */
  predicate SameShape(a: Cells, b: Cells)
  {
    |a| == |b| && forall i :: 0 <= i < |a| ==> |a[i]| == |b[i]|
  }

  /** `loc` is a cell of `g` that is not an obstacle. */
  predicate Open(g: Cells, loc: Location)
  {
    InGrid(g, loc) && g[loc.row][loc.column] != Blocked
  }

  /** The four candidate moves from `loc`, in the order they are tried: down, up, right, left. */
  function Neighbours(loc: Location): seq<Location>
  {
    [Location(loc.row + 1, loc.column), Location(loc.row - 1, loc.column),
     Location(loc.row, loc.column + 1), Location(loc.row, loc.column - 1)]
  }

  /** `[l]` when `l` is open, `[]` otherwise. */
  function IfOpen(g: Cells, l: Location): seq<Location>
  {
    if Open(g, l) then [l] else []
  }

  /** The locations one step away from `loc`: the open neighbours, in the order down, up, right, left. */
  function Successors(g: Cells, loc: Location): seq<Location>
  {
    var ns := Neighbours(loc);
    IfOpen(g, ns[0]) + IfOpen(g, ns[1]) + IfOpen(g, ns[2]) + IfOpen(g, ns[3])
  }

  /** `Successors` written out move by move: down, up, right, left. */
  lemma SuccessorsByMove(g: Cells, loc: Location)
    ensures Successors(g, loc)
         == IfOpen(g, Location(loc.row + 1, loc.column)) + IfOpen(g, Location(loc.row - 1, loc.column))
          + IfOpen(g, Location(loc.row, loc.column + 1)) + IfOpen(g, Location(loc.row, loc.column - 1))
  {
  }

  /**
   * A heuristic bound to `goal`: the number of row and column steps from a location to `goal`.
   * It is zero exactly at `goal`.
   */
  function ManhattanDistance(goal: Location): (distance: Location -> nat)
    ensures forall ml :: distance(ml) == 0 <==> ml == goal
  {
    (ml: Location) => Abs(ml.column - goal.column) + Abs(ml.row - goal.row)
  }

  /** A successor is an open cell exactly one row or one column away, and every such cell is a successor. */
  lemma SuccessorsAreOpenSteps(g: Cells, loc: Location, n: Location)
    ensures n in Successors(g, loc) <==> Open(g, n) && ManhattanDistance(loc)(n) == 1
  {
    var d := ManhattanDistance(loc)(n);
    if Open(g, n) && d == 1 {
      assert n in Neighbours(loc) by {
        if n.row == loc.row {
          assert n.column == loc.column + 1 || n.column == loc.column - 1;
        } else {
          assert n.column == loc.column;
          assert n.row == loc.row + 1 || n.row == loc.row - 1;
        }
      }
    }
  }

  /** Every successor is an open cell one step from `loc`. */
  lemma SuccessorsAreSteps(g: Cells, loc: Location)
    ensures forall i :: 0 <= i < |Successors(g, loc)| ==>
      Open(g, Successors(g, loc)[i]) && ManhattanDistance(loc)(Successors(g, loc)[i]) == 1
  {
    var r := Successors(g, loc);
    forall i | 0 <= i < |r|
      ensures Open(g, r[i]) && ManhattanDistance(loc)(r[i]) == 1
    {
      SuccessorsAreOpenSteps(g, loc, r[i]);
    }
  }

  /** One step changes the Manhattan heuristic by at most one (it is consistent for unit steps). */
  lemma ManhattanConsistent(g: Cells, goal: Location, loc: Location, n: Location)
    requires n in Successors(g, loc)
    ensures ManhattanDistance(goal)(loc) <= ManhattanDistance(goal)(n) + 1
    ensures ManhattanDistance(goal)(n) <= ManhattanDistance(goal)(loc) + 1
  {
    SuccessorsAreOpenSteps(g, loc, n);
    var h := ManhattanDistance(goal);
    assert h(loc) == Abs(loc.column - goal.column) + Abs(loc.row - goal.row);
    assert h(n) == Abs(n.column - goal.column) + Abs(n.row - goal.row);
    if n.row == loc.row {
      assert n.column == loc.column + 1 || n.column == loc.column - 1;
    } else {
      assert n.column == loc.column && (n.row == loc.row + 1 || n.row == loc.row - 1);
    }
  }

  /** `g` with the cell at `loc` set to `v`. */
  function SetCell(g: Cells, loc: Location, v: Cell): (r: Cells)
    requires InGrid(g, loc)
    ensures SameShape(r, g)
    ensures forall l :: InGrid(g, l) ==> r[l.row][l.column] == if l == loc then v else g[l.row][l.column]
  {
    g[loc.row := g[loc.row][loc.column := v]]
  }

  /** `g` with every cell of `path` set to `v`, in path order. */
  function Painted(g: Cells, path: seq<Location>, v: Cell): (r: Cells)
    requires AllInGrid(g, path)
    ensures SameShape(r, g)
  {
    if path == [] then g
    else
      var init, last := path[..|path| - 1], path[|path| - 1];
      assert last in path && forall l :: l in init ==> l in path;
      var h := Painted(g, init, v);
      assert |h[last.row]| == |g[last.row]|;
      SetCell(h, last, v)
  }

  /** Painting a path sets exactly its cells to `v` and leaves every other cell as it was. */
  lemma {:induction false} PaintedAt(g: Cells, path: seq<Location>, v: Cell, l: Location)
    requires AllInGrid(g, path)
    requires InGrid(g, l)
    ensures InGrid(Painted(g, path, v), l)
    ensures Painted(g, path, v)[l.row][l.column] == if l in path then v else g[l.row][l.column]
  {
    if path != [] {
      var init := path[..|path| - 1];
      PaintedAt(g, init, v, l);
      assert path == init + [path[|path| - 1]];
      assert l in path <==> l in init || l == path[|path| - 1];
    }
  }

  /** The grid after painting `path` with `v` and then restoring the start and goal marks. */
  function Stamped(g: Cells, path: seq<Location>, v: Cell, start: Location, goal: Location): (r: Cells)
    requires AllInGrid(g, path)
    requires InGrid(g, start) && InGrid(g, goal)
    ensures SameShape(r, g)
  {
    SetCell(SetCell(Painted(g, path, v), start, Start), goal, Goal)
  }

  /** Cell by cell: the goal shows GOAL, the start (if it is not the goal) START, other path cells `v`, the rest is unchanged. */
  lemma StampedAt(g: Cells, path: seq<Location>, v: Cell, start: Location, goal: Location, l: Location)
    requires AllInGrid(g, path)
    requires InGrid(g, start) && InGrid(g, goal) && InGrid(g, l)
    ensures InGrid(Stamped(g, path, v, start, goal), l)
    ensures Stamped(g, path, v, start, goal)[l.row][l.column] ==
      if l == goal then Goal
      else if l == start then Start
      else if l in path then v
      else g[l.row][l.column]
  {
    PaintedAt(g, path, v, l);
    PaintedAt(g, path, v, start);
    PaintedAt(g, path, v, goal);
  }

  /** Two grids of the same shape that agree on every cell are equal. */
  lemma CellsEqual(a: Cells, b: Cells)
    requires SameShape(a, b)
    requires forall l :: InGrid(a, l) ==> a[l.row][l.column] == b[l.row][l.column]
    ensures a == b
  {
    forall r | 0 <= r < |a|
      ensures a[r] == b[r]
    {
      forall c | 0 <= c < |a[r]|
        ensures a[r][c] == b[r][c]
      {
        assert InGrid(a, Location(r, c));
      }
    }
  }

  /**
   * Clearing a marked path gives back the grid it was marked on, when that grid showed GOAL at
   * the goal, START at the start and EMPTY on the rest of the path (as a solved maze does).
   */
  lemma ClearUndoesMark(g: Cells, path: seq<Location>, start: Location, goal: Location)
    requires AllInGrid(g, path)
    requires InGrid(g, start) && InGrid(g, goal)
    requires g[goal.row][goal.column] == Goal
    requires start != goal ==> g[start.row][start.column] == Start
    requires forall l :: l in path && l != start && l != goal ==> g[l.row][l.column] == Empty
    ensures Stamped(Stamped(g, path, Path, start, goal), path, Empty, start, goal) == g
  {
    var marked := Stamped(g, path, Path, start, goal);
    var cleared := Stamped(marked, path, Empty, start, goal);
    forall l | InGrid(cleared, l)
      ensures cleared[l.row][l.column] == g[l.row][l.column]
    {
      StampedAt(g, path, Path, start, goal, l);
      StampedAt(marked, path, Empty, start, goal, l);
    }
    CellsEqual(cleared, g);
  }
}
