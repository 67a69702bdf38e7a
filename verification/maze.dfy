/**
 * The maze object: a rectangular grid of cells with a start and a goal.  The grid is a
 * field that `Mark` and `Clear` overwrite cell by cell; the queries read it.
 */
module Mazes {

  import opened Grid

  class Maze {
    const rows: nat
    const columns: nat
    const start: Location
    const goal: Location
    var grid: Cells

    /** The grid has `rows` rows of `columns` cells, and start and goal are cells of it. */
    ghost predicate Valid()
      reads this
    {
      Rectangular(grid, rows, columns) && InGrid(grid, start) && InGrid(grid, goal)
    }

    /**
     * A maze whose obstacles are the cells in `blocked` (the random fill is replaced by this
     * parameter), with START and GOAL written over whatever the fill left at those two cells.
     */
    constructor (rows: nat, columns: nat, blocked: set<Location>, start: Location, goal: Location)
      requires 0 <= start.row < rows && 0 <= start.column < columns
      requires 0 <= goal.row < rows && 0 <= goal.column < columns
      ensures Valid()
      ensures this.rows == rows && this.columns == columns && this.start == start && this.goal == goal
      ensures forall l :: InGrid(grid, l) ==>
        grid[l.row][l.column] ==
          if l == goal then Goal
          else if l == start then Start
          else if l in blocked then Blocked
          else Empty
    {
      this.rows, this.columns, this.start, this.goal := rows, columns, start, goal;
      var filled := seq(rows, r => seq(columns, c => if Location(r, c) in blocked then Blocked else Empty));
      var marked := SetCell(SetCell(filled, start, Start), goal, Goal);
      grid := marked;
    }

    /** Whether `loc` is the goal; the goal is exactly where the Manhattan heuristic towards it is zero. */
    predicate GoalTest(loc: Location)
      ensures GoalTest(loc) <==> ManhattanDistance(goal)(loc) == 0
    {
      loc == goal
    }

    /** Whether (`row`, `column`) lies inside the maze; in a valid maze, exactly the cells of the grid. */
    predicate CheckBound(row: int, column: int)
      reads this
      ensures Valid() ==> (CheckBound(row, column) <==> 0 <= row < |grid| && 0 <= column < |grid[row]|)
    {
      0 <= row < rows && 0 <= column < columns
    }

    /** Whether the in-bounds cell (`row`, `column`) is an obstacle. */
    predicate BlockedTest(row: int, column: int)
      reads this
      requires Valid() && CheckBound(row, column)
      ensures BlockedTest(row, column) <==> !Open(grid, Location(row, column))
    {
      grid[row][column] == Blocked
    }

    /** The open cells one step from `loc`, tried in the order down, up, right, left. */
    method Successors(loc: Location) returns (possibleLocs: seq<Location>)
      requires Valid()
      ensures possibleLocs == Grid.Successors(grid, loc)
      ensures forall i :: 0 <= i < |possibleLocs| ==>
        CheckBound(possibleLocs[i].row, possibleLocs[i].column) &&
        !BlockedTest(possibleLocs[i].row, possibleLocs[i].column) &&
        ManhattanDistance(loc)(possibleLocs[i]) == 1
    {
      possibleLocs := [];
      OpenTest(Location(loc.row + 1, loc.column));
      if CheckBound(loc.row + 1, loc.column) && !BlockedTest(loc.row + 1, loc.column) {
        possibleLocs := possibleLocs + [Location(loc.row + 1, loc.column)];
      }
      ghost var down := possibleLocs;
      assert down == IfOpen(grid, Location(loc.row + 1, loc.column));
      OpenTest(Location(loc.row - 1, loc.column));
      if CheckBound(loc.row - 1, loc.column) && !BlockedTest(loc.row - 1, loc.column) {
        possibleLocs := possibleLocs + [Location(loc.row - 1, loc.column)];
      }
      ghost var up := possibleLocs;
      assert up == down + IfOpen(grid, Location(loc.row - 1, loc.column));
      OpenTest(Location(loc.row, loc.column + 1));
      if CheckBound(loc.row, loc.column + 1) && !BlockedTest(loc.row, loc.column + 1) {
        possibleLocs := possibleLocs + [Location(loc.row, loc.column + 1)];
      }
      ghost var right := possibleLocs;
      assert right == up + IfOpen(grid, Location(loc.row, loc.column + 1));
      OpenTest(Location(loc.row, loc.column - 1));
      if CheckBound(loc.row, loc.column - 1) && !BlockedTest(loc.row, loc.column - 1) {
        possibleLocs := possibleLocs + [Location(loc.row, loc.column - 1)];
      }
      assert possibleLocs == right + IfOpen(grid, Location(loc.row, loc.column - 1));
      SuccessorsByMove(grid, loc);
      SuccessorsInMaze(loc);
    }

    /** The bound test and the obstacle test together say that `l` is an open cell. */
    lemma OpenTest(l: Location)
      requires Valid()
      ensures CheckBound(l.row, l.column) && !BlockedTest(l.row, l.column) <==> Open(grid, l)
    {
    }

    /** Every successor of `loc` passes the bound and obstacle tests and is one step from `loc`. */
    lemma SuccessorsInMaze(loc: Location)
      requires Valid()
      ensures var ls := Grid.Successors(grid, loc);
        forall i :: 0 <= i < |ls| ==>
          CheckBound(ls[i].row, ls[i].column) && !BlockedTest(ls[i].row, ls[i].column) && ManhattanDistance(loc)(ls[i]) == 1
    {
      var ls := Grid.Successors(grid, loc);
      forall i | 0 <= i < |ls|
        ensures CheckBound(ls[i].row, ls[i].column) && !BlockedTest(ls[i].row, ls[i].column) && ManhattanDistance(loc)(ls[i]) == 1
      {
        SuccessorsAreOpenSteps(grid, loc, ls[i]);
      }
    }

    /** Writes PATH on every cell of `path`, then START at the start and GOAL at the goal. */
    method Mark(path: seq<Location>)
      requires Valid()
      requires AllInGrid(grid, path)
      modifies this
      ensures Valid()
      ensures grid == Stamped(old(grid), path, Path, start, goal)
      ensures forall l :: InGrid(grid, l) ==>
        grid[l.row][l.column] ==
          if l == goal then Goal
          else if l == start then Start
          else if l in path then Path
          else old(grid)[l.row][l.column]
    {
      Stamp(path, Path);
    }

    /** Writes EMPTY on every cell of `path`, then START at the start and GOAL at the goal. */
    method Clear(path: seq<Location>)
      requires Valid()
      requires AllInGrid(grid, path)
      modifies this
      ensures Valid()
      ensures grid == Stamped(old(grid), path, Empty, start, goal)
      ensures forall l :: InGrid(grid, l) ==>
        grid[l.row][l.column] ==
          if l == goal then Goal
          else if l == start then Start
          else if l in path then Empty
          else old(grid)[l.row][l.column]
    {
      Stamp(path, Empty);
    }

    /** The loop shared by `Mark` and `Clear`: write `v` along `path`, then restore start and goal. */
    method Stamp(path: seq<Location>, v: Cell)
      requires Valid()
      requires AllInGrid(grid, path)
      modifies this
      ensures Valid()
      ensures grid == Stamped(old(grid), path, v, start, goal)
      ensures forall l :: InGrid(grid, l) ==>
        grid[l.row][l.column] ==
          if l == goal then Goal
          else if l == start then Start
          else if l in path then v
          else old(grid)[l.row][l.column]
    {
      for i := 0 to |path|
        invariant AllInGrid(old(grid), path)
        invariant grid == Painted(old(grid), path[..i], v)
      {
        var loc := path[i];
        assert InGrid(old(grid), loc) && SameShape(grid, old(grid));
        assert path[..i + 1][..i] == path[..i] && path[..i + 1][i] == loc;
        grid := grid[loc.row := grid[loc.row][loc.column := v]];
      }
      assert path[..|path|] == path;
      grid := grid[start.row := grid[start.row][start.column := Start]];
      grid := grid[goal.row := grid[goal.row][goal.column := Goal]];
      forall l | InGrid(grid, l)
        ensures grid[l.row][l.column] ==
          if l == goal then Goal
          else if l == start then Start
          else if l in path then v
          else old(grid)[l.row][l.column]
      {
        StampedAt(old(grid), path, v, start, goal, l);
      }
    }
  }
}
