/**
 * One square of the maze: its fixed position, its four walls and the
 * Visited/Current flags the carver sets (Cell.cs).
 *
 * The source keeps the walls in a dictionary from the names "topSide",
 * "rightSide", "bottomSide" and "leftSide" to a wall object with an
 * IsVisible flag; here the four names are the constructors of Side and
 * the four flags are four boolean fields.
 */
module Cells {
  import opened Wrappers

  /** The four wall names of the border dictionary. */
  datatype Side = TopSide | RightSide | BottomSide | LeftSide

  /** The wall number of a side: 0 top, 1 right, 2 bottom, 3 left. */
  function SideNumber(s: Side): int
  {
    match s
    case TopSide => 0
    case RightSide => 1
    case BottomSide => 2
    case LeftSide => 3
  }

  /** The switch inside DecodeWalls for one int: a wall number names its side, any other int nothing. */
  function DecodeWall(x: int): (r: Option<Side>)
    ensures r.Some? <==> 0 <= x < 4
    ensures r.Some? ==> SideNumber(r.value) == x
  {
    if x == 0 then Some(TopSide)
    else if x == 1 then Some(RightSide)
    else if x == 2 then Some(BottomSide)
    else if x == 3 then Some(LeftSide)
    else None
  }

  /** DecodeWalls: the names of the numbered walls, in input order, other ints dropped. */
  function DecodeWalls(xs: seq<int>): (r: seq<Side>)
    ensures |r| <= |xs|
    ensures forall s :: s in r <==> SideNumber(s) in xs
  {
    if xs == [] then []
    else
      (match DecodeWall(xs[0]) case Some(s) => [s] case None => []) + DecodeWalls(xs[1..])
  }

  /** Decoding a concatenation decodes each part and keeps them in order. */
  lemma {:induction false} DecodeWallsAppend(a: seq<int>, b: seq<int>)
    ensures DecodeWalls(a + b) == DecodeWalls(a) + DecodeWalls(b)
  {
    if a == [] {
      assert a + b == b;
    } else {
      assert (a + b)[1..] == a[1..] + b;
      DecodeWallsAppend(a[1..], b);
    }
  }

  /** When every int is a wall number, decoding maps them one to one and in order. */
  lemma {:induction false} DecodeWallsInRange(xs: seq<int>)
    requires forall t :: 0 <= t < |xs| ==> 0 <= xs[t] < 4
    ensures |DecodeWalls(xs)| == |xs|
    ensures forall t :: 0 <= t < |xs| ==> SideNumber(DecodeWalls(xs)[t]) == xs[t]
  {
    if xs != [] {
      DecodeWallsInRange(xs[1..]);
      assert DecodeWalls(xs) == [DecodeWall(xs[0]).value] + DecodeWalls(xs[1..]);
      forall t | 0 < t < |xs|
        ensures SideNumber(DecodeWalls(xs)[t]) == xs[t]
      {
        assert xs[1..][t - 1] == xs[t];
      }
    }
  }

  /** The wall across the cell from a side. */
  function Opposite(s: Side): (o: Side)
    ensures SideNumber(o) == (SideNumber(s) + 2) % 4
  {
    match s
    case TopSide => BottomSide
    case RightSide => LeftSide
    case BottomSide => TopSide
    case LeftSide => RightSide
  }

  /** RemoveOpposite's table: wall w in 0..3 is across from wall (w + 2) mod 4, which maps back to w. */
  lemma OppositeInvolution(w: int)
    requires 0 <= w < 4
    ensures DecodeWall((w + 2) % 4) == Some(Opposite(DecodeWall(w).value))
    ensures Opposite(Opposite(DecodeWall(w).value)) == DecodeWall(w).value
  {
  }

  /** What a cell shows of itself: its four walls, then the Visited and Current flags. */
  datatype CellState = CellState(top: bool, right: bool, bottom: bool, left: bool, visited: bool, current: bool)

  /** A new cell: all four walls up, neither visited nor current. */
  const Untouched: CellState := CellState(true, true, true, true, false, false)

  /** The wall on side s is still visible. */
  predicate HasWall(cs: CellState, s: Side)
  {
    match s
    case TopSide => cs.top
    case RightSide => cs.right
    case BottomSide => cs.bottom
    case LeftSide => cs.left
  }

  /** The state with the wall on side s taken down. */
  function Without(cs: CellState, s: Side): (r: CellState)
    ensures forall t :: HasWall(r, t) <==> HasWall(cs, t) && t != s
    ensures r.visited == cs.visited && r.current == cs.current
  {
    match s
    case TopSide => cs.(top := false)
    case RightSide => cs.(right := false)
    case BottomSide => cs.(bottom := false)
    case LeftSide => cs.(left := false)
  }

  /** A state is fixed by its four walls and its two flags. */
  lemma SameState(a: CellState, b: CellState)
    requires forall s :: HasWall(a, s) == HasWall(b, s)
    requires a.visited == b.visited && a.current == b.current
    ensures a == b
  {
    assert HasWall(a, TopSide) == HasWall(b, TopSide);
    assert HasWall(a, RightSide) == HasWall(b, RightSide);
    assert HasWall(a, BottomSide) == HasWall(b, BottomSide);
    assert HasWall(a, LeftSide) == HasWall(b, LeftSide);
  }

  /** The state after taking down the wall of each side in `names`, one after the other. */
  function Cleared(cs: CellState, names: seq<Side>): CellState
    decreases |names|
  {
    if names == [] then cs else Cleared(Without(cs, names[0]), names[1..])
  }

  /** Taking down walls in two batches is taking them down in one. */
  lemma {:induction false} ClearedAppend(cs: CellState, a: seq<Side>, b: seq<Side>)
    ensures Cleared(cs, a + b) == Cleared(Cleared(cs, a), b)
    decreases |a|
  {
    if a == [] {
      assert a + b == b;
    } else {
      assert (a + b)[1..] == a[1..] + b;
      ClearedAppend(Without(cs, a[0]), a[1..], b);
    }
  }

  /** Exactly the named walls come down, and the Visited and Current flags stay as they were. */
  lemma {:induction false} ClearedWalls(cs: CellState, names: seq<Side>)
    ensures forall s :: HasWall(Cleared(cs, names), s) <==> HasWall(cs, s) && s !in names
    ensures Cleared(cs, names).visited == cs.visited && Cleared(cs, names).current == cs.current
    decreases |names|
  {
    if names != [] {
      ClearedWalls(Without(cs, names[0]), names[1..]);
      assert forall s :: s in names <==> s == names[0] || s in names[1..];
    }
  }

  /** The order and the repetitions of the names do not matter. */
  lemma ClearedOrderFree(cs: CellState, a: seq<Side>, b: seq<Side>)
    requires forall s :: s in a <==> s in b
    ensures Cleared(cs, a) == Cleared(cs, b)
  {
    ClearedWalls(cs, a);
    ClearedWalls(cs, b);
    SameState(Cleared(cs, a), Cleared(cs, b));
  }

  /** Taking the same walls down a second time changes nothing. */
  lemma ClearedIdempotent(cs: CellState, names: seq<Side>)
    ensures Cleared(Cleared(cs, names), names) == Cleared(cs, names)
  {
    ClearedWalls(cs, names);
    ClearedWalls(Cleared(cs, names), names);
    SameState(Cleared(Cleared(cs, names), names), Cleared(cs, names));
  }

  class Cell {
    const row: int
    const col: int
    var top: bool
    var right: bool
    var bottom: bool
    var left: bool
    var visited: bool
    var current: bool

    function State(): CellState
      reads this
    {
      CellState(top, right, bottom, left, visited, current)
    }

    /** A new cell at column `columnNumber`, row `rowNumber`: all four walls up, not visited, not current. */
    constructor (columnNumber: int, rowNumber: int)
      ensures col == columnNumber && row == rowNumber
      ensures State() == Untouched
    {
      col := columnNumber;
      row := rowNumber;
      top, right, bottom, left := true, true, true, true;
      visited, current := false, false;
    }

    /** RemoveWalls over wall names: each named wall stops being visible, in turn. */
    method RemoveNamedWalls(names: seq<Side>)
      modifies this
      ensures State() == Cleared(old(State()), names)
    {
      for i := 0 to |names|
        invariant State() == Cleared(old(State()), names[..i])
      {
        ClearedAppend(old(State()), names[..i], [names[i]]);
        assert names[..i + 1] == names[..i] + [names[i]];
        match names[i]
        case TopSide => top := false;
        case RightSide => right := false;
        case BottomSide => bottom := false;
        case LeftSide => left := false;
      }
      assert names[..|names|] == names;
    }

    /**
     * RemoveWalls over wall numbers: takes down the walls the numbers name, ignoring other
     * ints; the flags do not change.
     */
    method RemoveWalls(xs: seq<int>)
      modifies this
      ensures State() == Cleared(old(State()), DecodeWalls(xs))
      ensures forall s :: HasWall(State(), s) <==> HasWall(old(State()), s) && SideNumber(s) !in xs
      ensures visited == old(visited) && current == old(current)
    {
      RemoveNamedWalls(DecodeWalls(xs));
      ClearedWalls(old(State()), DecodeWalls(xs));
    }

    /** RemoveWalls of one wall number: exactly that wall comes down; any other int changes nothing. */
    method RemoveWall(x: int)
      modifies this
      ensures State() == if 0 <= x < 4 then Without(old(State()), DecodeWall(x).value) else old(State())
    {
      RemoveWalls([x]);
      if 0 <= x < 4 {
        SameState(State(), Without(old(State()), DecodeWall(x).value));
      } else {
        SameState(State(), old(State()));
      }
    }

    /** Takes down the wall across from wall number `wall`; any other int changes nothing. */
    method RemoveOpposite(wall: int)
      modifies this
      ensures State() == if 0 <= wall < 4 then Without(old(State()), Opposite(DecodeWall(wall).value)) else old(State())
    {
      if wall == 0 {
        RemoveWall(2);
      } else if wall == 1 {
        RemoveWall(3);
      } else if wall == 2 {
        RemoveWall(0);
      } else if wall == 3 {
        RemoveWall(1);
      }
    }
  }
}
