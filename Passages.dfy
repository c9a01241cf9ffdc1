/**
 * The passages the recursive backtracker carves, as a rooted tree.
 *
 * `order` lists the cells in the order the carver entered them and
 * `parent` maps each of them but the first to the cell it was entered
 * from. A passage is open between two adjacent cells exactly when one of
 * them is the other's parent, and then both cells have the wall between
 * them down (Maze.cs:196-210).
 */
module Passages {
  import opened Wrappers
  import opened Cells
  import opened Grid

  /** u and v share a carved passage: one of them was entered from the other. */
  predicate Linked(parent: map<int, int>, u: int, v: int)
  {
    (v in parent && parent[v] == u) || (u in parent && parent[u] == v)
  }

  ghost predicate Adjacent(n: int, u: int, v: int)
    requires n > 0
  {
    exists d :: Neighbour(n, u, d) == Some(v)
  }

  /**
   * A parent-pointer tree over the entered cells, built the way the carver builds it: the first
   * cell has no parent, and every later cell is a new one entered from an adjacent cell entered
   * before it.
   *
   * This is the name the carver's contracts use. It is only a wrapper: the recursion lives in
   * Tree below, one entered cell per step, and TreeFacts derives from it the all-at-once
   * description TreeShape.
   */
  ghost predicate IsTree(n: int, order: seq<int>, parent: map<int, int>)
  {
    Tree(n, order, parent)
  }

  ghost predicate Tree(n: int, order: seq<int>, parent: map<int, int>)
    decreases |order|
  {
    n > 0 && |order| >= 1 && 0 <= order[|order| - 1] < n * n
    && if |order| == 1 then parent == map[]
       else
         var v, rest := order[|order| - 1], order[..|order| - 1];
         v !in rest && v in parent && parent[v] in rest && Adjacent(n, parent[v], v)
         && Tree(n, rest, parent - {v})
  }

  /** The same tree described all at once: no cell entered twice, each later cell's parent entered before it. */
  ghost predicate TreeShape(n: int, order: seq<int>, parent: map<int, int>)
  {
    n > 0 && |order| >= 1
    && (forall a, b :: 0 <= a < b < |order| ==> order[a] != order[b])
    && (forall a :: 0 <= a < |order| ==> 0 <= order[a] < n * n)
    && (forall v :: v in parent <==> v in order && v != order[0])
    && (forall a :: 1 <= a < |order| ==>
          order[a] in parent && Adjacent(n, parent[order[a]], order[a])
          && exists b :: 0 <= b < a && order[b] == parent[order[a]])
  }

  /** Adding a new cell v, entered from the adjacent entered cell u, keeps the shape. */
  lemma ShapeGrows(n: int, order: seq<int>, parent: map<int, int>, v: int, u: int)
    requires TreeShape(n, order, parent)
    requires v !in order && 0 <= v < n * n && u in order && Adjacent(n, u, v)
    ensures TreeShape(n, order + [v], parent[v := u])
  {
    var order2, parent2 := order + [v], parent[v := u];
    assert order2[0] == order[0] && order2[|order|] == v;
    forall a, b | 0 <= a < b < |order2|
      ensures order2[a] != order2[b]
    {
      assert order2[a] == order[a];
      if b < |order| {
        assert order2[b] == order[b];
      }
    }
    forall a | 0 <= a < |order2|
      ensures 0 <= order2[a] < n * n
    {
      if a < |order| {
        assert order2[a] == order[a];
      }
    }
    forall x
      ensures x in parent2 <==> x in order2 && x != order2[0]
    {
      assert x in order2 <==> x in order || x == v;
    }
    GrownParents(n, order, parent, v, u, order2, parent2);
  }

  /** After adding v entered from u, every later cell still has an adjacent parent entered before it. */
  lemma GrownParents(n: int, order: seq<int>, parent: map<int, int>, v: int, u: int,
                     order2: seq<int>, parent2: map<int, int>)
    requires TreeShape(n, order, parent)
    requires v !in order && u in order && Adjacent(n, u, v)
    requires order2 == order + [v] && parent2 == parent[v := u]
    ensures forall a :: 1 <= a < |order2| ==>
      order2[a] in parent2 && Adjacent(n, parent2[order2[a]], order2[a])
      && exists b :: 0 <= b < a && order2[b] == parent2[order2[a]]
  {
    forall a | 1 <= a < |order2|
      ensures order2[a] in parent2 && Adjacent(n, parent2[order2[a]], order2[a])
      ensures exists b :: 0 <= b < a && order2[b] == parent2[order2[a]]
    {
      if a < |order| {
        assert order2[a] == order[a] && order[a] != v;
        var b :| 0 <= b < a && order[b] == parent[order[a]];
        assert order2[b] == parent2[order2[a]];
      } else {
        var b :| 0 <= b < |order| && order[b] == u;
        assert order2[b] == parent2[order2[a]];
      }
    }
  }

  /** A tree built step by step has the shape described all at once. */
  lemma {:induction false} TreeFacts(n: int, order: seq<int>, parent: map<int, int>)
    requires IsTree(n, order, parent)
    ensures TreeShape(n, order, parent)
    decreases |order|
  {
    if |order| > 1 {
      var v, rest := order[|order| - 1], order[..|order| - 1];
      var p := parent - {v};
      DropLast(order);
      RemoveThenAdd(parent, v);
      TreeFacts(n, rest, p);
      ShapeGrows(n, rest, p, v, parent[v]);
    }
  }

  lemma DropLast(s: seq<int>)
    requires |s| >= 1
    ensures s[..|s| - 1] + [s[|s| - 1]] == s
  {
  }

  /** Taking a key out of a map and entering it again gives back the map. */
  lemma RemoveThenAdd(parent: map<int, int>, v: int)
    requires v in parent
    ensures (parent - {v})[v := parent[v]] == parent
  {
    var p := parent - {v};
    assert p[v := parent[v]].Keys == parent.Keys;
    forall u | u in parent
      ensures p[v := parent[v]][u] == parent[u]
    {
    }
  }

  /** The passage out of cell k in direction d is open. */
  predicate Open(n: int, parent: map<int, int>, k: int, d: Direction)
    requires n > 0
  {
    Neighbour(n, k, d).Some? && Linked(parent, k, Neighbour(n, k, d).value)
  }

  /** Each cell's wall facing d is down exactly when the passage that way is open. */
  ghost predicate WallsAgree(n: int, cells: seq<CellState>, parent: map<int, int>)
  {
    n > 0 && |cells| == n * n
    && forall k, d {:trigger Open(n, parent, k, d)} :: 0 <= k < |cells| ==> (HasWall(cells[k], FacingSide(d)) <==> !Open(n, parent, k, d))
  }

  /** The visited cells are the entered ones, except `pending`, entered but not yet marked. */
  ghost predicate VisitedAgree(cells: seq<CellState>, order: seq<int>, pending: int)
  {
    forall k :: 0 <= k < |cells| ==> (cells[k].visited <==> k in order && k != pending)
  }

  /** Every neighbour of cell k has been entered. */
  ghost predicate AllAround(n: int, order: seq<int>, k: int)
    requires n > 0
  {
    forall d :: Neighbour(n, k, d).Some? ==> Neighbour(n, k, d).value in order
  }

  /** Every neighbour of every entered cell from position `from` on has been entered. */
  ghost predicate Exhausted(n: int, order: seq<int>, from: int)
    requires n > 0
    decreases |order| - from
  {
    0 <= from && (from >= |order| || (AllAround(n, order, order[from]) && Exhausted(n, order, from + 1)))
  }

  /** Exhausted, one position at a time. */
  lemma {:induction false} ExhaustedAt(n: int, order: seq<int>, from: int, t: int)
    requires n > 0 && Exhausted(n, order, from) && from <= t < |order|
    ensures AllAround(n, order, order[t])
    decreases t - from
  {
    if t > from {
      ExhaustedAt(n, order, from + 1, t);
    }
  }

  /** Every neighbour of cell k is a visited cell. */
  ghost predicate Surrounded(n: int, cells: seq<CellState>, k: int)
    requires n > 0
  {
    forall d :: Neighbour(n, k, d).Some? ==> 0 <= Neighbour(n, k, d).value < |cells| && cells[Neighbour(n, k, d).value].visited
  }

  /**
   * When the cells visited are the cells entered, an entered cell whose neighbours are all
   * visited is exhausted, so it extends the exhausted positions after it by one.
   */
  lemma SurroundedExhausts(n: int, cells: seq<CellState>, order: seq<int>, order0: seq<int>, k: int)
    requires n > 0
    ensures Extends(order, order0) && |order0| >= 1 && order0[|order0| - 1] == k
            && VisitedAgree(cells, order, -1) && Surrounded(n, cells, k) && Exhausted(n, order, |order0|) ==>
              Exhausted(n, order, |order0| - 1)
  {
    if Extends(order, order0) && |order0| >= 1 && order0[|order0| - 1] == k
       && VisitedAgree(cells, order, -1) && Surrounded(n, cells, k) && Exhausted(n, order, |order0|) {
      ExtendsAt(order, order0, |order0| - 1);
      forall d | Neighbour(n, k, d).Some?
        ensures Neighbour(n, k, d).value in order
      {
        assert cells[Neighbour(n, k, d).value].visited;
      }
    }
  }

  /** o2 continues o1: the carver only ever appends to the cells it has entered. */
  predicate Extends(o2: seq<int>, o1: seq<int>)
  {
    |o1| <= |o2| && o2[..|o1|] == o1
  }

  lemma ExtendsTrans(o3: seq<int>, o2: seq<int>, o1: seq<int>)
    requires Extends(o3, o2) && Extends(o2, o1)
    ensures Extends(o3, o1)
  {
    assert o3[..|o1|] == o3[..|o2|][..|o1|];
  }

  /**
   * One carve followed by a recursive carve: the entry list grows past its old length, and every
   * parent link from before the carve survives both steps.
   */
  lemma CarveThenRecurse(o0: seq<int>, o1: seq<int>, o2: seq<int>,
                         p0: map<int, int>, p1: map<int, int>, p2: map<int, int>, i: int, u: int)
    requires o1 == o0 + [i] && i !in p0 && p1 == p0[i := u]
    requires Extends(o2, o1) && forall v :: v in p1 ==> v in p2 && p2[v] == p1[v]
    ensures Extends(o2, o0) && |o2| > |o0|
    ensures forall v :: v in p0 ==> v in p2 && p2[v] == p0[v]
  {
    assert Extends(o1, o0) by {
      assert o1[..|o0|] == o0;
    }
    ExtendsTrans(o2, o1, o0);
    forall v | v in p0
      ensures v in p2 && p2[v] == p0[v]
    {
      assert v != i && v in p1 && p1[v] == p0[v];
    }
  }

  /** An extension keeps every earlier entry at its position. */
  lemma ExtendsAt(o2: seq<int>, o1: seq<int>, t: int)
    requires Extends(o2, o1) && 0 <= t < |o1|
    ensures o2[t] == o1[t]
  {
    assert o2[..|o1|][t] == o2[t];
  }

  /**
   * Growing the entered cells keeps every exhausted position exhausted, so positions from f on are
   * exhausted once the old ones were and the ones added since are.
   */
  lemma {:induction false} ExhaustedGrows(n: int, o1: seq<int>, o2: seq<int>, f: int)
    requires n > 0 && 0 <= f <= |o1| && Extends(o2, o1)
    requires Exhausted(n, o1, f) && Exhausted(n, o2, |o1|)
    ensures Exhausted(n, o2, f)
    decreases |o1| - f
  {
    if f < |o1| {
      ExhaustedGrows(n, o1, o2, f + 1);
      ExtendsAt(o2, o1, f);
      forall d | Neighbour(n, o2[f], d).Some?
        ensures Neighbour(n, o2[f], d).value in o2
      {
        var m := Neighbour(n, o1[f], d).value;
        var b :| 0 <= b < |o1| && o1[b] == m;
        ExtendsAt(o2, o1, b);
      }
    }
  }

  /** Parents are entered cells adjacent to their children. */
  lemma ParentEntered(n: int, order: seq<int>, parent: map<int, int>, v: int)
    requires IsTree(n, order, parent) && v in parent
    ensures v in order && parent[v] in order && Adjacent(n, parent[v], v)
  {
    TreeFacts(n, order, parent);
    ParentBefore(n, order, parent, v);
  }

  lemma ParentBefore(n: int, order: seq<int>, parent: map<int, int>, v: int)
    requires TreeShape(n, order, parent) && v in parent
    ensures v in order && parent[v] in order && Adjacent(n, parent[v], v)
  {
    var a :| 0 <= a < |order| && order[a] == v;
    assert a != 0;
    var b :| 0 <= b < a && order[b] == parent[v];
  }

  /** A fresh grid with only the start cell entered and every wall up agrees with the empty tree. */
  lemma StartIsTree(n: int, cells: seq<CellState>, start: int)
    requires n > 0 && 0 <= start < n * n && |cells| == n * n
    requires forall k, s :: 0 <= k < |cells| ==> HasWall(cells[k], s)
    ensures IsTree(n, [start], map[])
    ensures WallsAgree(n, cells, map[])
  {
  }

  /** Entering an unentered neighbour of an entered cell keeps a tree. */
  lemma CarveKeepsTree(n: int, order: seq<int>, parent: map<int, int>, cur: int, d: Direction, next: int)
    requires IsTree(n, order, parent)
    requires cur in order && Neighbour(n, cur, d) == Some(next) && next !in order
    ensures IsTree(n, order + [next], parent[next := cur])
  {
    TreeFacts(n, order, parent);
    var a :| 0 <= a < |order| && order[a] == cur;
    NeighbourBack(n, cur, d);
    var order2 := order + [next];
    assert order2[..|order2| - 1] == order;
    assert next !in parent;
    AddThenRemove(parent, next, cur);
    assert Adjacent(n, cur, next);
  }

  /** Entering a new key and taking it out again gives back the map. */
  lemma AddThenRemove(parent: map<int, int>, v: int, u: int)
    requires v !in parent
    ensures parent[v := u] - {v} == parent
  {
    assert (parent[v := u] - {v}).Keys == parent.Keys;
  }

  /** Entering next from cur, with cur's wall towards next and next's wall back both taken down, keeps the walls in agreement. */
  lemma CarveKeepsWalls(n: int, cells: seq<CellState>, cells2: seq<CellState>, order: seq<int>, parent: map<int, int>,
                        cur: int, d: Direction, next: int)
    requires IsTree(n, order, parent) && WallsAgree(n, cells, parent)
    requires cur in order && Neighbour(n, cur, d) == Some(next) && next !in order
    requires 0 <= cur < n * n && 0 <= next < n * n && |cells2| == |cells|
    requires forall k, s :: 0 <= k < |cells| ==>
               (HasWall(cells2[k], s) <==> HasWall(cells[k], s) && !(k == cur && s == FacingSide(d)) && !(k == next && s == FacingSide(Reverse(d))))
    ensures WallsAgree(n, cells2, parent[next := cur])
  {
    TreeFacts(n, order, parent);
    forall k, e | 0 <= k < |cells2|
      ensures HasWall(cells2[k], FacingSide(e)) <==> !Open(n, parent[next := cur], k, e)
    {
      WallAfterCarve(n, HasWall(cells[k], FacingSide(e)), HasWall(cells2[k], FacingSide(e)), order, parent, cur, d, next, k, e);
    }
  }

  /** One wall of one cell across the carve from cur to next. */
  lemma WallAfterCarve(n: int, had: bool, has: bool, order: seq<int>, parent: map<int, int>,
                       cur: int, d: Direction, next: int, k: int, e: Direction)
    requires TreeShape(n, order, parent) && 0 <= cur < n * n
    requires cur in order && Neighbour(n, cur, d) == Some(next) && next !in order
    requires 0 <= k < n * n
    requires had <==> !Open(n, parent, k, e)
    requires has <==> had && !(k == cur && FacingSide(e) == FacingSide(d)) && !(k == next && FacingSide(e) == FacingSide(Reverse(d)))
    ensures has <==> !Open(n, parent[next := cur], k, e)
  {
    NeighbourBack(n, cur, d);
    OpenAfterCarve(n, order, parent, cur, d, next, k, e);
    if k == cur && Neighbour(n, k, e).Some? {
      NeighboursDiffer(n, cur, d, e);
    } else if k == next && Neighbour(n, k, e).Some? {
      NeighboursDiffer(n, next, Reverse(d), e);
    }
  }

  /** After the carve the open passages are the old ones plus the one between cur and next. */
  lemma OpenAfterCarve(n: int, order: seq<int>, parent: map<int, int>, cur: int, d: Direction, next: int, k: int, e: Direction)
    requires TreeShape(n, order, parent)
    requires cur in order && Neighbour(n, cur, d) == Some(next) && next !in order
    requires 0 <= k < n * n
    ensures Open(n, parent[next := cur], k, e) <==>
              Open(n, parent, k, e)
              || (k == cur && Neighbour(n, k, e) == Some(next))
              || (k == next && Neighbour(n, k, e) == Some(cur))
    ensures k == next ==> !Open(n, parent, k, e)
  {
    assert next !in parent;
    if Neighbour(n, k, e).Some? {
      var m := Neighbour(n, k, e).value;
      if Linked(parent, k, m) && (k == next || m == next) {
        if k == next {
          ParentBefore(n, order, parent, m);
        } else {
          ParentBefore(n, order, parent, k);
        }
      }
    }
  }

  /** The cell states once cur is marked visited and current. */
  function AfterMark(cells: seq<CellState>, cur: int): (r: seq<CellState>)
    requires 0 <= cur < |cells|
    ensures |r| == |cells|
  {
    cells[cur := cells[cur].(visited := true, current := true)]
  }

  /**
   * Marking an entered cell visited, whether it was the one pending or already marked, keeps
   * the walls in agreement and leaves no entered cell unmarked.
   */
  lemma MarkKeepsAll(n: int, cells: seq<CellState>, order: seq<int>, parent: map<int, int>, cur: int, pending: int)
    requires WallsAgree(n, cells, parent) && VisitedAgree(cells, order, pending)
    requires 0 <= cur < |cells| && cur in order && (pending == cur || pending == -1)
    ensures WallsAgree(n, AfterMark(cells, cur), parent)
    ensures VisitedAgree(AfterMark(cells, cur), order, -1)
    ensures (forall k :: 0 <= k < |cells| && k != cur ==> !cells[k].current) ==>
              forall k :: 0 <= k < |cells| && k != cur ==> !AfterMark(cells, cur)[k].current
  {
  }

  /** The cell states once cur stops being current. */
  function AfterLeave(cells: seq<CellState>, cur: int): (r: seq<CellState>)
    requires 0 <= cur < |cells|
    ensures |r| == |cells|
  {
    cells[cur := cells[cur].(current := false)]
  }

  /** Leaving the one possibly current cell keeps the walls and marks and leaves no cell current. */
  lemma LeaveKeepsAll(n: int, cells: seq<CellState>, order: seq<int>, parent: map<int, int>, cur: int)
    requires WallsAgree(n, cells, parent) && VisitedAgree(cells, order, -1) && 0 <= cur < |cells|
    requires forall k :: 0 <= k < |cells| && k != cur ==> !cells[k].current
    ensures WallsAgree(n, AfterLeave(cells, cur), parent)
    ensures VisitedAgree(AfterLeave(cells, cur), order, -1)
    ensures forall k :: 0 <= k < |cells| ==> !AfterLeave(cells, cur)[k].current
  {
  }

  /** The cell states after the carve from cur to next: the two facing walls down, cur no longer current. */
  function AfterCarve(cells: seq<CellState>, cur: int, d: Direction, next: int): (r: seq<CellState>)
    requires 0 <= cur < |cells| && 0 <= next < |cells|
    ensures |r| == |cells|
  {
    cells[cur := Without(cells[cur], FacingSide(d)).(current := false)]
         [next := Without(cells[next], FacingSide(Reverse(d)))]
  }

  /**
   * Carving from an entered cell cur into its unvisited neighbour next and entering next keeps
   * the tree, keeps the walls in agreement with it, and leaves next the one entered cell not yet
   * marked visited; the only current cell, if any, was cur, so afterwards none is.
   */
  lemma CarveKeepsAll(n: int, cells: seq<CellState>, order: seq<int>, parent: map<int, int>, cur: int, d: Direction, next: int)
    requires IsTree(n, order, parent) && WallsAgree(n, cells, parent) && VisitedAgree(cells, order, -1)
    requires cur in order && Neighbour(n, cur, d) == Some(next)
    requires 0 <= cur < |cells| && 0 <= next < |cells| && !cells[next].visited
    requires forall k :: 0 <= k < |cells| && k != cur ==> !cells[k].current
    ensures IsTree(n, order + [next], parent[next := cur])
    ensures WallsAgree(n, AfterCarve(cells, cur, d, next), parent[next := cur])
    ensures VisitedAgree(AfterCarve(cells, cur, d, next), order + [next], next)
    ensures forall k :: 0 <= k < |cells| ==> !AfterCarve(cells, cur, d, next)[k].current
  {
    var cells2 := AfterCarve(cells, cur, d, next);
    NeighboursDiffer(n, cur, d, d);
    CarveKeepsTree(n, order, parent, cur, d, next);
    CarveKeepsWalls(n, cells, cells2, order, parent, cur, d, next);
  }

  /** Both cells beside an open passage have their facing walls down, and both beside a closed one have them up. */
  lemma WallSymmetry(n: int, cells: seq<CellState>, parent: map<int, int>, k: int, d: Direction)
    requires WallsAgree(n, cells, parent) && 0 <= k < n * n && Neighbour(n, k, d).Some?
    ensures 0 <= Neighbour(n, k, d).value < n * n
    ensures HasWall(cells[k], FacingSide(d)) <==> HasWall(cells[Neighbour(n, k, d).value], FacingSide(Reverse(d)))
  {
    NeighbourBack(n, k, d);
    assert Open(n, parent, k, d) <==> Open(n, parent, Neighbour(n, k, d).value, Reverse(d));
  }

  lemma {:induction false} DistinctCount(s: seq<int>)
    requires forall a, b :: 0 <= a < b < |s| ==> s[a] != s[b]
    ensures |set x | x in s| == |s|
  {
    if s != [] {
      DistinctCount(s[1..]);
      assert (set x | x in s) == {s[0]} + (set x | x in s[1..]);
      assert s[0] !in (set x | x in s[1..]);
    }
  }

  /** The indices 0, 1, ..., m - 1. */
  function Below(m: nat): (s: set<int>)
    ensures forall k :: k in s <==> 0 <= k < m
    ensures |s| == m
  {
    if m == 0 then {} else Below(m - 1) + {m - 1}
  }

  /** A tree enters each cell at most once, so it never enters more cells than the grid has. */
  lemma TreeWithinGrid(n: int, order: seq<int>, parent: map<int, int>)
    ensures IsTree(n, order, parent) ==> |order| <= n * n
  {
    if IsTree(n, order, parent) {
      TreeFacts(n, order, parent);
      DistinctCount(order);
      var entered := set x | x in order;
      var all := Below(n * n);
      assert entered <= all;
      assert all == entered + (all - entered);
    }
  }

  /** A tree over |order| cells has |order| - 1 passages, one per entered cell but the first. */
  lemma TreeSize(n: int, order: seq<int>, parent: map<int, int>)
    requires IsTree(n, order, parent)
    ensures |parent| == |order| - 1
  {
    TreeFacts(n, order, parent);
    DistinctCount(order);
    var entered := set x | x in order;
    assert order[0] in entered;
    forall v
      ensures v in parent.Keys <==> v in entered - {order[0]}
    {
    }
    assert parent.Keys == entered - {order[0]};
  }

  /** When every cell is entered the tree spans the grid: n*n cells, n*n - 1 passages. */
  lemma SpanningSize(n: int, order: seq<int>, parent: map<int, int>)
    requires IsTree(n, order, parent)
    requires forall k :: 0 <= k < n * n ==> k in order
    ensures |order| == n * n && |parent| == n * n - 1
  {
    TreeFacts(n, order, parent);
    DistinctCount(order);
    assert (set x | x in order) == Below(n * n);
    TreeSize(n, order, parent);
  }

  /** A chain of open passages. */
  ghost predicate IsPath(parent: map<int, int>, p: seq<int>)
  {
    |p| >= 1 && forall t :: 0 <= t < |p| - 1 ==> Linked(parent, p[t], p[t + 1])
  }

  /** Every entered cell is joined to the start cell by open passages. */
  lemma PathToStart(n: int, order: seq<int>, parent: map<int, int>, a: int) returns (p: seq<int>)
    requires IsTree(n, order, parent) && 0 <= a < |order|
    ensures IsPath(parent, p) && p[0] == order[a] && p[|p| - 1] == order[0]
  {
    TreeFacts(n, order, parent);
    p := PathUp(n, order, parent, a);
  }

  /** The path from order[a] that follows parents back to the start. */
  lemma {:induction false} PathUp(n: int, order: seq<int>, parent: map<int, int>, a: int) returns (p: seq<int>)
    requires TreeShape(n, order, parent) && 0 <= a < |order|
    ensures IsPath(parent, p) && p[0] == order[a] && p[|p| - 1] == order[0]
    decreases a
  {
    if a == 0 {
      p := [order[0]];
    } else {
      var u := parent[order[a]];
      var b :| 0 <= b < a && order[b] == u;
      var q := PathUp(n, order, parent, b);
      p := [order[a]] + q;
      PathPrepend(parent, order[a], q);
    }
  }

  /** A path stays a path when a cell linked to its first cell is put in front. */
  lemma PathPrepend(parent: map<int, int>, x: int, q: seq<int>)
    requires IsPath(parent, q) && Linked(parent, x, q[0])
    ensures IsPath(parent, [x] + q)
  {
    var p := [x] + q;
    forall t | 0 <= t < |p| - 1
      ensures Linked(parent, p[t], p[t + 1])
    {
      if t > 0 {
        assert p[t] == q[t - 1] && p[t + 1] == q[t];
      }
    }
  }

  /**
   * When every entered cell has all its neighbours entered, every cell of the grid was entered:
   * the tree spans the grid, with one passage fewer than cells.
   */
  lemma ExhaustedIsSpanning(n: int, order: seq<int>, parent: map<int, int>)
    requires IsTree(n, order, parent) && Exhausted(n, order, 0)
    ensures forall k :: 0 <= k < n * n ==> k in order
    ensures |order| == n * n && |parent| == n * n - 1
  {
    TreeFacts(n, order, parent);
    var s := set x | x in order;
    assert ClosedUnderNeighbours(n, s) by {
      forall k, d | k in s && Neighbour(n, k, d).Some?
        ensures Neighbour(n, k, d).value in s
      {
        var t :| 0 <= t < |order| && order[t] == k;
        ExhaustedAt(n, order, 0, t);
      }
    }
    ClosedSetIsGrid(n, s, order[0]);
    forall k | 0 <= k < n * n
      ensures k in order
    {
      assert k in s;
    }
    SpanningSize(n, order, parent);
  }
}
