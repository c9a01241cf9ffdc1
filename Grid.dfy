/**
 * The square grid the maze is carved on (Maze.cs): directions, the
 * row-major index arithmetic, the neighbour one step away, and the side
 * length the maze derives from its window and cell sizes.
 */
module Grid {
  import opened Wrappers
  import opened Cells

  /** The Direction enum, in declaration order. */
  datatype Direction = Up | Right | Down | Left

  /** The `(int) dir` cast: the enum's declaration order, Up 0, Right 1, Down 2, Left 3. */
  function Ordinal(d: Direction): int
  {
    match d
    case Up => 0
    case Right => 1
    case Down => 2
    case Left => 3
  }

  /** The wall of a cell that faces direction d. */
  function FacingSide(d: Direction): Side
  {
    match d
    case Up => TopSide
    case Right => RightSide
    case Down => BottomSide
    case Left => LeftSide
  }

  /** The direction back from a neighbour. */
  function Reverse(d: Direction): Direction
  {
    match d
    case Up => Down
    case Right => Left
    case Down => Up
    case Left => Right
  }

  /**
   * Because the enum lists its values in the order of the wall numbers, casting a
   * direction gives the number of the wall facing it, and the wall across from that
   * is the one facing back.
   */
  lemma CastNamesFacingWall(d: Direction)
    ensures DecodeWall(Ordinal(d)) == Some(FacingSide(d))
    ensures Opposite(FacingSide(d)) == FacingSide(Reverse(d))
    ensures Reverse(Reverse(d)) == d
  {
  }

  /** Row and column after one step in direction d (rows grow downwards). */
  function Moved(r: int, c: int, d: Direction): (int, int)
  {
    match d
    case Up => (r - 1, c)
    case Right => (r, c + 1)
    case Down => (r + 1, c)
    case Left => (r, c - 1)
  }

  /** The index of the cell one step from row r, column c in direction d, or None off a side-n grid. */
  function Step(n: int, r: int, c: int, d: Direction): Option<int>
  {
    var (r2, c2) := Moved(r, c, d);
    if 0 <= r2 < n && 0 <= c2 < n then Some(r2 * n + c2) else None
  }

  /**
   * The neighbour of the cell at row-major index i in direction d, by index arithmetic:
   * one to the left or right within the row, a whole row up or down.
   */
  function Neighbour(n: int, i: int, d: Direction): Option<int>
    requires n > 0
  {
    match d
    case Left => if i % n != 0 then Some(i - 1) else None
    case Right => if i % n != n - 1 then Some(i + 1) else None
    case Up => if i - n >= 0 then Some(i - n) else None
    case Down => if i + n < n * n then Some(i + n) else None
  }

  lemma MulAtLeast(k: int, n: int)
    requires k >= 1 && n > 0
    ensures k * n >= n
  {
    assert k * n == (k - 1) * n + n;
  }

  /** Row-major indices of in-grid coordinates lie in [0, n*n). */
  lemma IndexInGrid(n: int, r: int, c: int)
    requires 0 <= r < n && 0 <= c < n
    ensures 0 <= r * n + c < n * n
  {
    assert r * n >= 0;
    MulAtLeast(n - r, n);
    assert n * n - r * n == (n - r) * n;
  }

  /** The row and column are recovered from a row-major index by division. */
  lemma IndexCoords(n: int, r: int, c: int)
    requires n > 0 && 0 <= c < n
    ensures (r * n + c) / n == r && (r * n + c) % n == c
  {
    var q, m := (r * n + c) / n, (r * n + c) % n;
    assert q * n + m == r * n + c;
    assert (q - r) * n == c - m;
    if q > r {
      MulAtLeast(q - r, n);
    } else if q < r {
      MulAtLeast(r - q, n);
    }
  }

  /** Different in-grid coordinates have different indices. */
  lemma IndexInjective(n: int, r1: int, c1: int, r2: int, c2: int)
    requires n > 0 && 0 <= c1 < n && 0 <= c2 < n
    requires r1 * n + c1 == r2 * n + c2
    ensures r1 == r2 && c1 == c2
  {
    IndexCoords(n, r1, c1);
    IndexCoords(n, r2, c2);
  }

  lemma RowInGrid(n: int, k: int)
    requires n > 0 && 0 <= k < n * n
    ensures 0 <= k / n < n
  {
    assert (k / n) * n + k % n == k;
  }

  /** Moving one index along a row changes the column by one; moving a row keeps it. */
  lemma ColumnShift(n: int, i: int)
    requires n > 0
    ensures i % n != n - 1 ==> (i + 1) % n == i % n + 1
    ensures i % n != 0 ==> (i - 1) % n == i % n - 1
    ensures (i + n) % n == i % n && (i - n) % n == i % n
  {
    var q, m := i / n, i % n;
    assert i == q * n + m;
    if m != n - 1 {
      IndexCoords(n, q, m + 1);
    }
    if m != 0 {
      IndexCoords(n, q, m - 1);
    }
    IndexCoords(n, q + 1, m);
    IndexCoords(n, q - 1, m);
    assert (q + 1) * n + m == i + n;
    assert (q - 1) * n + m == i - n;
  }

  /** The index arithmetic is the coordinate step: Up (0,-1), Right (+1,0), Down (0,+1), Left (-1,0). */
  lemma NeighbourAt(n: int, r: int, c: int, d: Direction)
    requires 0 <= r < n && 0 <= c < n
    ensures Neighbour(n, r * n + c, d) == Step(n, r, c, d)
  {
    IndexCoords(n, r, c);
    match d
    case Up =>
      assert (r - 1) * n + c == r * n + c - n;
      if r >= 1 {
        MulAtLeast(r, n);
      }
    case Down =>
      assert (r + 1) * n + c == r * n + c + n;
      if r + 1 < n {
        IndexInGrid(n, r + 1, c);
      } else {
        assert (r + 1) * n == n * n;
      }
    case Left =>
    case Right =>
  }

  /**
   * The index GetNeighbor computes, `NumberColumns * r + c`, is the cell's row-major index;
   * its column is the remainder, and the row and column tests of the bounds checks are the
   * index tests of Neighbour.
   */
  lemma IndexArithmetic(n: int, r: int, c: int)
    requires 0 <= r < n && 0 <= c < n
    ensures 0 <= n * r + c < n * n && (n * r + c) % n == c
    ensures c != n - 1 ==> n * r + c + 1 < n * n
    ensures r != 0 <==> n * r + c - n >= 0
    ensures r != n - 1 <==> n * r + c + n < n * n
  {
    assert n * r == r * n;
    IndexInGrid(n, r, c);
    IndexCoords(n, r, c);
    if c != n - 1 {
      IndexInGrid(n, r, c + 1);
    }
    NeighbourAt(n, r, c, Up);
    NeighbourAt(n, r, c, Down);
  }

  /** A neighbour is a cell of the grid, and the step back from it returns to where it started. */
  lemma NeighbourBack(n: int, i: int, d: Direction)
    requires n > 0 && 0 <= i < n * n
    requires Neighbour(n, i, d).Some?
    ensures 0 <= Neighbour(n, i, d).value < n * n
    ensures Neighbour(n, Neighbour(n, i, d).value, Reverse(d)) == Some(i)
  {
    if d == Left {
      LeftAndBack(n, i);
    } else if d == Right {
      RightAndBack(n, i);
    }
  }

  lemma LeftAndBack(n: int, i: int)
    requires n > 0 && 0 <= i < n * n && i % n != 0
    ensures 0 <= i - 1 && Neighbour(n, i - 1, Right) == Some(i)
  {
    ColumnShift(n, i);
  }

  lemma RightAndBack(n: int, i: int)
    requires n > 0 && 0 <= i < n * n && i % n != n - 1
    ensures i + 1 < n * n && Neighbour(n, i + 1, Left) == Some(i)
  {
    ColumnShift(n, i);
    if i + 1 == n * n {
      assert (n - 1) * n + (n - 1) == i;
      IndexCoords(n, n - 1, n - 1);
    }
  }

  /** Steps in two different directions lead to two different cells, neither of them the start. */
  lemma NeighboursDiffer(n: int, i: int, d: Direction, e: Direction)
    requires n > 0 && 0 <= i < n * n
    requires Neighbour(n, i, d).Some? && Neighbour(n, i, e).Some?
    ensures d != e ==> Neighbour(n, i, d).value != Neighbour(n, i, e).value
    ensures Neighbour(n, i, d).value != i
  {
  }

  /** Every neighbour of a member of S is in S. */
  ghost predicate ClosedUnderNeighbours(n: int, s: set<int>)
    requires n > 0
  {
    forall k, d :: k in s && Neighbour(n, k, d).Some? ==> Neighbour(n, k, d).value in s
  }

  function Distance(a: int, b: int): nat
  {
    if a <= b then b - a else a - b
  }

  /** From any cell of a closed set, the walk to any other cell stays inside it. */
  lemma {:induction false} Walk(n: int, s: set<int>, r: int, c: int, r2: int, c2: int)
    requires n > 0 && ClosedUnderNeighbours(n, s)
    requires 0 <= r < n && 0 <= c < n && 0 <= r2 < n && 0 <= c2 < n
    requires r * n + c in s
    ensures r2 * n + c2 in s
    decreases Distance(r, r2) + Distance(c, c2)
  {
    var d :=
      if c < c2 then Right
      else if c > c2 then Left
      else if r < r2 then Down
      else Up;
    if r != r2 || c != c2 {
      NeighbourAt(n, r, c, d);
      var (r1, c1) := Moved(r, c, d);
      assert Neighbour(n, r * n + c, d) == Some(r1 * n + c1);
      Walk(n, s, r1, c1, r2, c2);
    }
  }

  /** The grid is connected: a non-empty set of cells closed under neighbours is the whole grid. */
  lemma ClosedSetIsGrid(n: int, s: set<int>, start: int)
    requires n > 0 && ClosedUnderNeighbours(n, s)
    requires 0 <= start < n * n && start in s
    ensures forall k :: 0 <= k < n * n ==> k in s
  {
    forall k | 0 <= k < n * n
      ensures k in s
    {
      assert start == (start / n) * n + start % n;
      assert k == (k / n) * n + k % n;
      RowInGrid(n, start);
      RowInGrid(n, k);
      Walk(n, s, start / n, start % n, k / n, k % n);
    }
  }

  /** The cell size the maze computes, `imageSize / numberCells` (both positive, so truncation is floor). */
  function CellSize(numberCells: int, imageSize: int): int
    requires numberCells > 0
  {
    imageSize / numberCells
  }

  /** NumberColumns (= NumberRows), `imageSize / cellSize`. */
  function SideLength(imageSize: int, cellSize: int): int
    requires cellSize > 0
  {
    imageSize / cellSize
  }

  /**
   * With 1 <= numberCells <= imageSize the cell size is positive and the grid is at
   * least numberCells wide, so a start index below numberCells squared is a cell of it.
   */
  lemma SideCoversCells(numberCells: int, imageSize: int)
    requires 1 <= numberCells <= imageSize
    ensures CellSize(numberCells, imageSize) >= 1
    ensures SideLength(imageSize, CellSize(numberCells, imageSize)) >= numberCells
    ensures numberCells * numberCells
         <= SideLength(imageSize, CellSize(numberCells, imageSize)) * SideLength(imageSize, CellSize(numberCells, imageSize))
  {
    var cs := imageSize / numberCells;
    assert cs * numberCells + imageSize % numberCells == imageSize;
    var side := imageSize / cs;
    assert side * cs + imageSize % cs == imageSize;
    assert numberCells * cs <= imageSize;
    if side < numberCells {
      MulAtLeast(numberCells - side, cs);
    }
    MulMono(numberCells, side);
  }

  lemma MulMono(a: int, b: int)
    requires 0 <= a <= b
    ensures a * a <= b * b
  {
    assert b * b - a * a == (b - a) * (b + a);
    assert (b - a) * (b + a) >= 0;
  }
}
