/**
 * The maze and its carver (Maze.cs): a row-major list of cells rebuilt by
 * Init, the neighbour lookup GetNeighbor, and the recursive backtracker
 * that carves a perfect maze.
 *
 * The random choices of the source (which candidate neighbour, which start
 * cell) are left to the caller or made nondeterministically; the regenerate
 * key is an event the carver may observe at each event dispatch.
 *
 * Two ghost fields record what the carver has done: `order`, the cells in
 * the order they were entered, and `parent`, the cell each was entered
 * from. The carver keeps the walls in agreement with that tree.
 */
module Mazes {
  import opened Wrappers
  import opened Cells
  import opened Grid
  import opened Passages

  /** The order in which GetNeighbor tries the directions: Left, Right, Up, Down. */
  function TryOrder(d: Direction): int
  {
    match d
    case Left => 0
    case Right => 1
    case Up => 2
    case Down => 3
  }

  /** What each cell of a list shows, index by index. */
  ghost function StatesOf(g: seq<Cell>): (r: seq<CellState>)
    reads g
    ensures |r| == |g| && forall k :: 0 <= k < |g| ==> r[k] == g[k].State()
  {
    seq(|g|, k requires 0 <= k < |g| reads g => g[k].State())
  }

  /** The cell size a constructed maze has: the constructor's sizes make it at least one. */
  type Positive = x: int | x > 0 witness 1

  class Maze {
    /** `_numberCells`: the square of the requested cells per side, the range of start indices. */
    const cellCount: int
    const imageSize: int
    const cellSize: Positive
    const borderSize: int
    var grid: seq<Cell>
    var redo: bool
    ghost var order: seq<int>
    ghost var parent: map<int, int>

    /** NumberColumns, `imageSize / cellSize`. */
    function NumberColumns(): int
    {
      SideLength(imageSize, cellSize)
    }

    /** NumberRows, the same as NumberColumns: the grid is square. */
    function NumberRows(): int
    {
      NumberColumns()
    }

    /** The sizes a constructed maze has: a positive cell size, a side of at least one, room for every start index. */
    predicate Ready()
    {
      NumberColumns() > 0 && cellCount <= NumberColumns() * NumberRows()
    }

    /** The cell's own index as GetNeighbor computes it. */
    function IndexOf(cell: Cell): int
    {
      NumberColumns() * cell.row + cell.col
    }

    /** Cell c sits at row-major index k of a side-NumberColumns grid. */
    predicate Placed(c: Cell, k: int)
    {
      0 <= c.row < NumberRows() && 0 <= c.col < NumberColumns() && IndexOf(c) == k
    }

    /** The grid holds NumberRows*NumberColumns cells, each at the index of its row and column. */
    ghost predicate Valid()
      reads this`grid
    {
      Ready()
      && |grid| == NumberRows() * NumberColumns()
      && forall k :: 0 <= k < |grid| ==> Placed(grid[k], k)
    }

    /** What the cells show, index by index. */
    ghost function Cells(): seq<CellState>
      reads this`grid, grid
    {
      StatesOf(grid)
    }

    /** Maze(numberCells, imageSize, borderSize); sizes for which the source would divide by zero are excluded. */
    constructor (numberCells: int, imageSize: int, borderSize: int)
      requires 1 <= numberCells <= imageSize
      ensures cellCount == numberCells * numberCells
      ensures this.imageSize == imageSize && cellSize == imageSize / numberCells && this.borderSize == borderSize
      ensures Ready()
      ensures NumberColumns() >= numberCells
      ensures grid == [] && !redo
    {
      SideCoversCells(numberCells, imageSize);
      cellCount := numberCells * numberCells;
      this.imageSize := imageSize;
      cellSize := imageSize / numberCells;
      this.borderSize := borderSize;
      grid := [];
      redo := false;
      order := [];
      parent := map[];
    }

    /** A valid grid is indexed row-major: the cell at y*NumberColumns + x has column x and row y. */
    lemma CellAt(x: int, y: int)
      requires Valid() && 0 <= x < NumberColumns() && 0 <= y < NumberRows()
      ensures 0 <= y * NumberColumns() + x < |grid|
      ensures grid[y * NumberColumns() + x].col == x && grid[y * NumberColumns() + x].row == y
    {
      var n := NumberColumns();
      var k := y * n + x;
      IndexInGrid(n, y, x);
      var c := grid[k];
      assert n * c.row + c.col == k;
      assert n * c.row == c.row * n;
      IndexInjective(n, c.row, c.col, y, x);
    }

    /** A cell of a valid grid is the one at the index GetNeighbor computes for it. */
    lemma IndexOfCell(cell: Cell)
      requires Valid() && cell in grid
      ensures 0 <= IndexOf(cell) < |grid| && grid[IndexOf(cell)] == cell
      ensures 0 <= cell.row < NumberRows() && 0 <= cell.col < NumberColumns()
    {
      var k :| 0 <= k < |grid| && grid[k] == cell;
      assert Placed(cell, k);
    }

    /** Init: the grid becomes NumberRows*NumberColumns new cells in row-major order, walls up, unvisited. */
    method Init()
      requires Ready()
      modifies this`grid
      ensures Valid()
      ensures forall k :: 0 <= k < |grid| ==> fresh(grid[k]) && grid[k].State() == Untouched
    {
      var n := NumberColumns();
      grid := [];
      for y := 0 to NumberRows()
        invariant |grid| == y * n
        invariant forall k :: 0 <= k < |grid| ==>
                    Placed(grid[k], k) && fresh(grid[k]) && grid[k].State() == Untouched
      {
        for x := 0 to NumberColumns()
          invariant |grid| == y * n + x
          invariant forall k :: 0 <= k < |grid| ==>
                      Placed(grid[k], k) && fresh(grid[k]) && grid[k].State() == Untouched
        {
          var c := new Cell(x, y);
          assert n * y == y * n;
          grid := grid + [c];
        }
        assert y * n + n == (y + 1) * n;
      }
    }

    /** One bounds-checked probe of GetNeighbor: neighbour j in direction d, if in bounds and unvisited. */
    function Probe(d: Direction, inBounds: bool, j: int): (r: seq<(Direction, int)>)
      requires inBounds ==> 0 <= j < |grid|
      reads this`grid, grid
    {
      if inBounds && !grid[j].visited then [(d, j)] else []
    }

    /**
     * The neighbours GetNeighbor collects for `cell`: the in-bounds, unvisited ones, tried in
     * the order Left, Right, Up, Down.
     */
    function Candidates(cell: Cell): (r: seq<(Direction, int)>)
      requires Valid() && cell in grid
      reads this`grid, grid
      ensures forall t :: 0 <= t < |r| ==>
                Neighbour(NumberColumns(), IndexOf(cell), r[t].0) == Some(r[t].1)
                && 0 <= r[t].1 < |grid| && !grid[r[t].1].visited
    {
      IndexOfCell(cell);
      var n := NumberColumns();
      var c := cell.col;
      var r := cell.row;
      var i := n * r + c;
      IndexArithmetic(n, r, c);
      Probe(Left, c != 0, i - 1)
      + Probe(Right, c != n - 1, i + 1)
      + Probe(Up, r != 0, i - n)
      + Probe(Down, r != NumberRows() - 1, i + n)
    }

    /** The neighbour of `cell` in direction d exists and has not been visited. */
    predicate Free(cell: Cell, d: Direction)
      requires Valid()
      reads this`grid, grid
    {
      var nb := Neighbour(NumberColumns(), IndexOf(cell), d);
      nb.Some? && 0 <= nb.value < |grid| && !grid[nb.value].visited
    }

    /** Candidates probes each direction once, under exactly the bounds test of Neighbour. */
    lemma CandidatesUnfold(cell: Cell)
      requires Valid() && cell in grid
      ensures Candidates(cell) ==
                (if Free(cell, Left) then [(Left, IndexOf(cell) - 1)] else [])
                + (if Free(cell, Right) then [(Right, IndexOf(cell) + 1)] else [])
                + (if Free(cell, Up) then [(Up, IndexOf(cell) - NumberColumns())] else [])
                + (if Free(cell, Down) then [(Down, IndexOf(cell) + NumberColumns())] else [])
    {
      IndexOfCell(cell);
      IndexArithmetic(NumberColumns(), cell.row, cell.col);
    }

    /** Every free neighbour is a candidate, under its own direction, and no other direction is. */
    lemma CandidatesComplete(cell: Cell, d: Direction)
      requires Valid() && cell in grid
      ensures Free(cell, d) ==> (d, Neighbour(NumberColumns(), IndexOf(cell), d).value) in Candidates(cell)
      ensures !Free(cell, d) ==> forall t :: 0 <= t < |Candidates(cell)| ==> Candidates(cell)[t].0 != d
    {
      CandidatesUnfold(cell);
      IndexOfCell(cell);
      IndexArithmetic(NumberColumns(), cell.row, cell.col);
    }

    /** There is no candidate exactly when every in-bounds neighbour has been visited. */
    lemma NoCandidates(cell: Cell)
      requires Valid() && cell in grid
      ensures Candidates(cell) == [] <==> forall d :: !Free(cell, d)
    {
      CandidatesUnfold(cell);
    }

    /** The candidates come in the order Left, Right, Up, Down, each direction at most once. */
    lemma CandidatesOrdered(cell: Cell)
      requires Valid() && cell in grid
      ensures forall a, b :: 0 <= a < b < |Candidates(cell)| ==> TryOrder(Candidates(cell)[a].0) < TryOrder(Candidates(cell)[b].0)
    {
      CandidatesUnfold(cell);
    }

    /** Cells on the grid's edges never offer the direction that leaves the grid. */
    lemma CandidatesAtEdges(cell: Cell)
      requires Valid() && cell in grid
      ensures cell.col == 0 ==> forall t :: 0 <= t < |Candidates(cell)| ==> Candidates(cell)[t].0 != Left
      ensures cell.col == NumberColumns() - 1 ==> forall t :: 0 <= t < |Candidates(cell)| ==> Candidates(cell)[t].0 != Right
      ensures cell.row == 0 ==> forall t :: 0 <= t < |Candidates(cell)| ==> Candidates(cell)[t].0 != Up
      ensures cell.row == NumberRows() - 1 ==> forall t :: 0 <= t < |Candidates(cell)| ==> Candidates(cell)[t].0 != Down
    {
      CandidatesUnfold(cell);
      IndexOfCell(cell);
      IndexArithmetic(NumberColumns(), cell.row, cell.col);
    }

    /** There is no candidate exactly when every neighbour of the cell in the grid is visited. */
    lemma CandidatesSurround(cell: Cell)
      requires Valid() && cell in grid
      ensures Candidates(cell) == [] <==> Surrounded(NumberColumns(), Cells(), IndexOf(cell))
    {
      ghost var n, ci, cells := NumberColumns(), IndexOf(cell), Cells();
      NoCandidates(cell);
      IndexOfCell(cell);
      if Candidates(cell) == [] {
        forall d | Neighbour(n, ci, d).Some?
          ensures 0 <= Neighbour(n, ci, d).value < |cells| && cells[Neighbour(n, ci, d).value].visited
        {
          NeighbourBack(n, ci, d);
          assert !Free(cell, d);
        }
      } else {
        var d :| Free(cell, d);
        assert cells[Neighbour(n, ci, d).value] == grid[Neighbour(n, ci, d).value].State();
      }
    }

    /**
     * GetNeighbor: one candidate, or the sentinel (Down, -1) when there is none. `pick` is the
     * random draw; like `rand.Next(neighbors.Count)` it is reduced to an index of the candidates.
     */
    function GetNeighbor(cell: Cell, pick: nat): (r: (Direction, int))
      requires Valid() && cell in grid
      reads this`grid, grid
      ensures r.1 == -1 <==> Candidates(cell) == []
      ensures r.1 == -1 ==> r.0 == Down
      ensures r.1 != -1 ==> r in Candidates(cell)
      ensures r.1 != -1 ==> Neighbour(NumberColumns(), IndexOf(cell), r.0) == Some(r.1) && 0 <= r.1 < |grid| && !grid[r.1].visited
    {
      var neighbors := Candidates(cell);
      if |neighbors| != 0 then neighbors[pick % |neighbors|] else (Down, -1)
    }

    /** Every candidate is the one GetNeighbor returns for some draw. */
    lemma GetNeighborCovers(cell: Cell, t: nat)
      requires Valid() && cell in grid && t < |Candidates(cell)|
      ensures GetNeighbor(cell, t) == Candidates(cell)[t]
    {
      var c := Candidates(cell);
      assert t % |c| == t;
    }

    /** Event dispatch: a press of the regenerate key may raise `redo`, nothing lowers it. */
    method DispatchEvents()
      modifies this`redo
      ensures old(redo) ==> redo
    {
      var pressed: bool :| true;
      if pressed {
        redo := true;
      }
    }

    /** No cell is marked as the one being carved from. */
    ghost predicate NoneCurrent()
      reads this`grid, grid
    {
      forall k :: 0 <= k < |Cells()| ==> !Cells()[k].current
    }

    /**
     * Entering a cell: it is marked visited and current. An entered cell, the one pending or
     * one marked already, keeps the walls in agreement and the visited cells the entered ones.
     */
    method MarkCurrent(cell: Cell, ghost pending: int)
      requires Valid() && cell in grid
      requires WallsAgree(NumberColumns(), Cells(), parent)
      requires IndexOf(cell) in order && VisitedAgree(Cells(), order, pending) && (pending == IndexOf(cell) || pending == -1)
      requires forall k :: 0 <= k < |Cells()| && k != IndexOf(cell) ==> !Cells()[k].current
      modifies cell
      ensures 0 <= IndexOf(cell) < |grid| && Cells() == AfterMark(old(Cells()), IndexOf(cell))
      ensures WallsAgree(NumberColumns(), Cells(), parent)
      ensures VisitedAgree(Cells(), order, -1)
      ensures forall k :: 0 <= k < |Cells()| && k != IndexOf(cell) ==> !Cells()[k].current
    {
      IndexOfCell(cell);
      ghost var cells0 := Cells();
      MarkKeepsAll(NumberColumns(), cells0, order, parent, IndexOf(cell), pending);
      cell.visited := true;
      cell.current := true;
      forall k | 0 <= k < |grid|
        ensures Cells()[k] == AfterMark(cells0, IndexOf(cell))[k]
      {
        assert Placed(grid[k], k);
      }
    }

    /**
     * RecursiveBacktracer: carves from `cell`, which has just been entered, until it has no
     * unvisited neighbour or regeneration is requested. Every cell it enters is entered from an
     * adjacent one through a passage whose two walls come down; the walls keep agreeing with
     * that tree. Unless regeneration was requested, every cell entered from `cell` on has no
     * neighbour left unentered.
     */
    method RecursiveBacktracer(cell: Cell)
      requires Valid() && cell in grid
      requires IsTree(NumberColumns(), order, parent) && order[|order| - 1] == IndexOf(cell)
      requires WallsAgree(NumberColumns(), Cells(), parent)
      requires VisitedAgree(Cells(), order, IndexOf(cell))
      requires NoneCurrent()
      modifies this`redo, this`order, this`parent, grid
      ensures Extends(order, old(order))
      ensures IsTree(NumberColumns(), order, parent)
      ensures WallsAgree(NumberColumns(), Cells(), parent)
      ensures VisitedAgree(Cells(), order, -1)
      ensures NoneCurrent()
      ensures old(redo) ==> redo
      ensures forall v :: v in old(parent) ==> v in parent && parent[v] == old(parent)[v]
      ensures !redo ==> Exhausted(NumberColumns(), order, |old(order)| - 1)
      decreases |grid| - |order|, 3
    {
      ghost var n := NumberColumns();
      ghost var ci := IndexOf(cell);
      ghost var order0 := order;
      IndexOfCell(cell);
      TreeWithinGrid(n, order, parent);
      var more := Visit(cell, ci);
      assert Valid() && cell in grid;
      while more
        invariant Extends(order, order0)
        invariant IsTree(n, order, parent)
        invariant WallsAgree(n, Cells(), parent)
        invariant VisitedAgree(Cells(), order, -1)
        invariant forall k :: 0 <= k < |Cells()| && k != ci ==> !Cells()[k].current
        invariant old(redo) ==> redo
        invariant !redo ==> Exhausted(n, order, |order0|)
        invariant !more && !redo ==> Surrounded(n, Cells(), ci)
        invariant forall v :: v in old(parent) ==> v in parent && parent[v] == old(parent)[v]
        decreases |grid| - |order|, more
      {
        TreeWithinGrid(n, order, parent);
        ghost var order1 := order;
        more := Visit(cell, -1);
        if !redo {
          ExhaustedGrows(n, order1, order, |order0|);
        }
        ExtendsTrans(order, order1, order0);
      }
      SurroundedExhausts(n, Cells(), order, order0, ci);
      Leave(cell);
    }

    /**
     * One pass of RecursiveBacktracer's do-while body: dispatch events, mark `cell` visited and
     * current, and if it has an unvisited neighbour and no regeneration is requested, open the
     * passage to one and carve from there. The answer is the loop condition: there is still an
     * unvisited neighbour and no regeneration is requested.
     */
    method Visit(cell: Cell, ghost pending: int) returns (more: bool)
      requires Valid() && cell in grid
      requires IsTree(NumberColumns(), order, parent) && IndexOf(cell) in order
      requires WallsAgree(NumberColumns(), Cells(), parent)
      requires VisitedAgree(Cells(), order, pending) && (pending == IndexOf(cell) || pending == -1)
      requires forall k :: 0 <= k < |Cells()| && k != IndexOf(cell) ==> !Cells()[k].current
      modifies this`redo, this`order, this`parent, grid
      ensures Extends(order, old(order))
      ensures IsTree(NumberColumns(), order, parent)
      ensures WallsAgree(NumberColumns(), Cells(), parent)
      ensures VisitedAgree(Cells(), order, -1)
      ensures forall k :: 0 <= k < |Cells()| && k != IndexOf(cell) ==> !Cells()[k].current
      ensures old(redo) ==> redo
      ensures !redo ==> Exhausted(NumberColumns(), order, |old(order)|)
      ensures more <==> Candidates(cell) != [] && !redo
      ensures !more && !redo ==> Surrounded(NumberColumns(), Cells(), IndexOf(cell))
      ensures |order| == |old(order)| ==> !more
      ensures forall v :: v in old(parent) ==> v in parent && parent[v] == old(parent)[v]
      ensures old(redo) ==> !more && order == old(order) && parent == old(parent)
      decreases |grid| - |order|, 2
    {
      DispatchEvents();
      MarkCurrent(cell, pending);
      TryCarve(cell);
      var pick: nat :| true;
      more := GetNeighbor(cell, pick).1 != -1 && !redo;
      CandidatesSurround(cell);
    }

    /**
     * The if-statement of the do-while body: when `cell` has an unvisited neighbour and no
     * regeneration is requested, open the passage to one and carve from there; once
     * regeneration is requested nothing more is carved.
     */
    method TryCarve(cell: Cell)
      requires Valid() && cell in grid
      requires IsTree(NumberColumns(), order, parent) && IndexOf(cell) in order
      requires WallsAgree(NumberColumns(), Cells(), parent)
      requires VisitedAgree(Cells(), order, -1)
      requires forall k :: 0 <= k < |Cells()| && k != IndexOf(cell) ==> !Cells()[k].current
      modifies this`redo, this`order, this`parent, grid
      ensures Extends(order, old(order))
      ensures IsTree(NumberColumns(), order, parent)
      ensures WallsAgree(NumberColumns(), Cells(), parent)
      ensures VisitedAgree(Cells(), order, -1)
      ensures forall k :: 0 <= k < |Cells()| && k != IndexOf(cell) ==> !Cells()[k].current
      ensures old(redo) ==> redo
      ensures !redo ==> Exhausted(NumberColumns(), order, |old(order)|)
      ensures |order| == |old(order)| ==> Candidates(cell) == [] || redo
      ensures old(redo) ==> order == old(order) && parent == old(parent)
      ensures old(Candidates(cell)) == [] ==> order == old(order) && parent == old(parent)
      ensures forall v :: v in old(parent) ==> v in parent && parent[v] == old(parent)[v]
      decreases |grid| - |order|, 1
    {
      var pick: nat :| true;
      if GetNeighbor(cell, pick).1 != -1 && !redo {
        CarveFrom(cell);
      }
    }

    /**
     * The carve branch: a candidate neighbour is drawn, the passage to it is opened, it is
     * entered from `cell`, and the carver recurses on it. Unless regeneration is requested
     * meanwhile, every cell entered from then on has no neighbour left unentered.
     */
    method CarveFrom(cell: Cell)
      requires Valid() && cell in grid && Candidates(cell) != [] && !redo
      requires IsTree(NumberColumns(), order, parent) && IndexOf(cell) in order
      requires WallsAgree(NumberColumns(), Cells(), parent)
      requires VisitedAgree(Cells(), order, -1)
      requires forall k :: 0 <= k < |Cells()| && k != IndexOf(cell) ==> !Cells()[k].current
      modifies this`redo, this`order, this`parent, grid
      ensures Extends(order, old(order)) && |order| > |old(order)|
      ensures IsTree(NumberColumns(), order, parent)
      ensures WallsAgree(NumberColumns(), Cells(), parent)
      ensures VisitedAgree(Cells(), order, -1)
      ensures NoneCurrent()
      ensures forall v :: v in old(parent) ==> v in parent && parent[v] == old(parent)[v]
      ensures !redo ==> Exhausted(NumberColumns(), order, |old(order)|)
      decreases |grid| - |order|, 0
    {
      var pick: nat :| true;
      var (dir, i) := GetNeighbor(cell, pick);
      var next := grid[i];
      assert Placed(next, i);
      assert i !in parent by {
        if i in parent {
          ParentEntered(NumberColumns(), order, parent, i);
        }
      }
      CarveStep(cell, dir, i);
      TreeWithinGrid(NumberColumns(), order, parent);
      ghost var order1, parent1 := order, parent;
      RecursiveBacktracer(next);
      CarveThenRecurse(old(order), order1, order, old(parent), parent1, parent, i, IndexOf(cell));
    }

    /** The cell being carved from stops being current, which leaves no cell current. */
    method Leave(cell: Cell)
      requires Valid() && cell in grid
      requires WallsAgree(NumberColumns(), Cells(), parent) && VisitedAgree(Cells(), order, -1)
      requires forall k :: 0 <= k < |Cells()| && k != IndexOf(cell) ==> !Cells()[k].current
      modifies cell
      ensures 0 <= IndexOf(cell) < |grid| && Cells() == AfterLeave(old(Cells()), IndexOf(cell))
      ensures WallsAgree(NumberColumns(), Cells(), parent) && VisitedAgree(Cells(), order, -1)
      ensures NoneCurrent()
    {
      IndexOfCell(cell);
      ghost var cells0 := Cells();
      LeaveKeepsAll(NumberColumns(), cells0, order, parent, IndexOf(cell));
      cell.current := false;
      forall k | 0 <= k < |grid|
        ensures Cells()[k] == AfterLeave(cells0, IndexOf(cell))[k]
      {
        assert Placed(grid[k], k);
      }
    }

    /**
     * The carve branch's wall removal: `cell` takes down its wall facing `dir`, the neighbour
     * `i` the wall facing back, and `cell` stops being current (the wall numbers are the
     * direction's cast, as in the source).
     */
    method OpenPassage(cell: Cell, dir: Direction, i: int)
      requires Valid() && cell in grid
      requires 0 <= i < |grid| && i != IndexOf(cell)
      modifies grid[IndexOf(cell)], grid[i]
      ensures Cells() == AfterCarve(old(Cells()), IndexOf(cell), dir, i)
    {
      IndexOfCell(cell);
      ghost var ci := IndexOf(cell);
      ghost var cells0 := Cells();
      var next := grid[i];
      CastNamesFacingWall(dir);
      cell.RemoveWall(Ordinal(dir));
      next.RemoveOpposite(Ordinal(dir));
      cell.current := false;
      assert cell.State() == AfterCarve(cells0, ci, dir, i)[ci];
      assert next.State() == AfterCarve(cells0, ci, dir, i)[i];
      forall k | 0 <= k < |grid|
        ensures Cells()[k] == AfterCarve(cells0, ci, dir, i)[k]
      {
        assert Placed(grid[k], k);
      }
    }

    /**
     * The carve branch of RecursiveBacktracer up to the recursive call: the passage to the
     * unvisited neighbour `i` in direction `dir` is opened and `i` is entered from `cell`.
     */
    method CarveStep(cell: Cell, dir: Direction, i: int)
      requires Valid() && cell in grid
      requires IsTree(NumberColumns(), order, parent) && IndexOf(cell) in order
      requires WallsAgree(NumberColumns(), Cells(), parent)
      requires VisitedAgree(Cells(), order, -1)
      requires forall k :: 0 <= k < |Cells()| && k != IndexOf(cell) ==> !Cells()[k].current
      requires Neighbour(NumberColumns(), IndexOf(cell), dir) == Some(i) && 0 <= i < |grid| && !Cells()[i].visited
      modifies this`order, this`parent, grid[IndexOf(cell)], grid[i]
      ensures Cells() == AfterCarve(old(Cells()), IndexOf(cell), dir, i)
      ensures order == old(order) + [i] && parent == old(parent)[i := IndexOf(cell)]
      ensures IsTree(NumberColumns(), order, parent)
      ensures WallsAgree(NumberColumns(), Cells(), parent)
      ensures VisitedAgree(Cells(), order, i)
      ensures NoneCurrent()
    {
      ghost var n := NumberColumns();
      ghost var ci := IndexOf(cell);
      IndexOfCell(cell);
      NeighboursDiffer(n, ci, dir, dir);
      ghost var cells0 := Cells();
      CarveKeepsAll(n, cells0, order, parent, ci, dir, i);
      OpenPassage(cell, dir, i);
      order := order + [i];
      parent := parent[i := ci];
    }

    /**
     * One carve of the display loop on a rebuilt grid (the Init of Run, or the one the
     * regenerate key makes): the request is cleared and the carver starts from cell `start`,
     * the draw `rand.Next(_numberCells)`. The passages always form a tree rooted at `start`
     * that the walls agree with, and no cell is left current; unless regeneration is requested
     * meanwhile, every cell is visited and there is one passage fewer than cells.
     */
    method Generate(start: int)
      requires Ready() && 0 <= start < cellCount
      modifies this`grid, this`redo, this`order, this`parent
      ensures Valid()
      ensures IsTree(NumberColumns(), order, parent) && |order| > 0 && order[0] == start
      ensures WallsAgree(NumberColumns(), Cells(), parent)
      ensures VisitedAgree(Cells(), order, -1)
      ensures NoneCurrent()
      ensures !redo ==> forall k :: 0 <= k < |grid| ==> grid[k].visited
      ensures !redo ==> |parent| == |grid| - 1
    {
      Init();
      ghost var n := NumberColumns();
      redo := false;
      order := [start];
      parent := map[];
      StartIsTree(n, Cells(), start);
      RecursiveBacktracer(grid[start]);
      if !redo {
        ExhaustedIsSpanning(n, order, parent);
      }
    }
  }
}
