/**
 * The randomised depth-first maze carver of src/algo/randomised_dfs.rs, in
 * its iterative form with an explicit stack: start at cell (0, 0); look at
 * the top of the stack; if it has unvisited neighbours, pick one, open the
 * wall between the two on both sides, mark the neighbour visited and push
 * it; otherwise drop the top. The random pick is a nondeterministic choice,
 * so everything proved holds for every sequence of picks. The stack and the
 * visited set hold (x, y) coordinates, the identity the source records.
 *
 * The result is a perfect maze: every cell is connected to (0, 0) through
 * open passages, there are exactly rows * cols - 1 passages, and the
 * passages contain no cycle. The proof keeps a ghost parent map (the cell
 * each cell was carved from) and depth map, and shows that the open
 * passages are exactly the parent links.
 */
module Dfs {
  import opened Wrappers
  import opened Maze

  /** The directions of the entries strictly follow the order Top, Right, Bottom, Left. */
  predicate AscendingBy<X>(s: seq<(X, Direction)>)
  {
    forall i, j :: 0 <= i < j < |s| ==> WallIndex(s[i].1) < WallIndex(s[j].1)
  }

  /** The `filter_map` stage: the neighbours that exist, each with its direction, in order. */
  function FilterPresent(items: seq<(Option<Cell>, Direction)>): (r: seq<(Cell, Direction)>)
    ensures forall p :: p in r <==> (Some(p.0), p.1) in items
    ensures AscendingBy(items) ==> AscendingBy(r)
  {
    if items == [] then []
    else
      var rest := FilterPresent(items[1..]);
      assert forall p :: p in rest ==> (Some(p.0), p.1) in items[1..];
      match items[0].0
      case Some(c) => [(c, items[0].1)] + rest
      case None => rest
  }

  /** The `filter` stage: drop the neighbours whose identity is already visited, keeping the order. */
  function FilterUnvisited(cells: seq<(Cell, Direction)>, visited: set<Coord>): (r: seq<(Cell, Direction)>)
    ensures forall p :: p in r <==> p in cells && Id(p.0) !in visited
    ensures AscendingBy(cells) ==> AscendingBy(r)
  {
    if cells == [] then []
    else
      var rest := FilterUnvisited(cells[1..], visited);
      assert forall p :: p in rest ==> p in cells[1..];
      if Id(cells[0].0) !in visited then [cells[0]] + rest else rest
  }

  /** The four neighbour lookups, each paired with its direction, in the order Top, Right, Bottom, Left. */
  function NeighborList(g: Grid, cell: Cell): (r: seq<(Option<Cell>, Direction)>)
    requires Shaped(g) && cell.x < g.cols && cell.y < g.rows
    ensures forall x :: x in r <==> x.0 == GetNeighborCell(g, cell, x.1)
    ensures AscendingBy(r)
  {
    var r := [
      (GetNeighborCell(g, cell, Top), Top),
      (GetNeighborCell(g, cell, Right), Right),
      (GetNeighborCell(g, cell, Bottom), Bottom),
      (GetNeighborCell(g, cell, Left), Left)
    ];
    assert forall x: (Option<Cell>, Direction) :: x.0 == GetNeighborCell(g, cell, x.1) ==> x == r[WallIndex(x.1)];
    r
  }

  /** What the two filters leave of the four lookups: the unvisited neighbours inside the grid, in order. */
  lemma NonVisitedFilter(g: Grid, cell: Cell, visited: set<Coord>)
    requires Shaped(g) && cell.x < g.cols && cell.y < g.rows
    ensures var nv := FilterUnvisited(FilterPresent(NeighborList(g, cell)), visited);
            && AscendingBy(nv)
            && (forall p :: p in nv <==> GetNeighborCell(g, cell, p.1) == Some(p.0) && Id(p.0) !in visited)
            && (|nv| == 0 <==> forall d :: GetNeighborCell(g, cell, d).None? || Id(GetNeighborCell(g, cell, d).value) in visited)
  {
    var nl := NeighborList(g, cell);
    var fp := FilterPresent(nl);
    var nv := FilterUnvisited(fp, visited);
    forall p ensures p in nv <==> GetNeighborCell(g, cell, p.1) == Some(p.0) && Id(p.0) !in visited {
      assert p in fp <==> (Some(p.0), p.1) in nl;
    }
    if |nv| > 0 {
      assert nv[0] in nv;
    } else {
      forall d | GetNeighborCell(g, cell, d).Some?
        ensures Id(GetNeighborCell(g, cell, d).value) in visited
      {
        assert (GetNeighborCell(g, cell, d).value, d) !in nv;
      }
    }
  }

  /**
   * `get_non_visited_neighbor_cells`: None when no neighbour inside the grid is
   * unvisited; otherwise the non-empty list of exactly those neighbours, each
   * with the direction that reaches it, in the order Top, Right, Bottom, Left.
   */
  function GetNonVisitedNeighborCells(g: Grid, cell: Cell, visited: set<Coord>): (r: Option<seq<(Cell, Direction)>>)
    requires Shaped(g) && cell.x < g.cols && cell.y < g.rows
    ensures r.None? <==> forall d :: GetNeighborCell(g, cell, d).None? || Id(GetNeighborCell(g, cell, d).value) in visited
    ensures r.Some? ==> |r.value| > 0 && AscendingBy(r.value)
    ensures r.Some? ==> forall p :: p in r.value <==> GetNeighborCell(g, cell, p.1) == Some(p.0) && Id(p.0) !in visited
  {
    var nonVisited := FilterUnvisited(FilterPresent(NeighborList(g, cell)), visited);
    NonVisitedFilter(g, cell, visited);
    if |nonVisited| == 0 then None else Some(nonVisited)
  }

  /** The grid with flag `i` of the cell at `p` cleared: every other flag, cell and coordinate is kept. */
  function ClearWall(g: Grid, p: Coord, i: nat): (r: Grid)
    requires Wf(g) && Inside(g, p) && i < 4
    ensures Wf(r) && r.rows == g.rows && r.cols == g.cols
    ensures !At(r, p).walls[i]
    ensures forall q, j :: Inside(g, q) && 0 <= j < 4 && (q != p || j != i) ==>
              At(r, q).walls[j] == At(g, q).walls[j]
  {
    var cell := At(g, p);
    g.(matrix := g.matrix[p.1 := g.matrix[p.1][p.0 := cell.(walls := cell.walls[i := false])]])
  }

  /** One carving step: open the wall of `p` toward `d` and the wall of that neighbour back toward `p`. */
  function Carve(g: Grid, p: Coord, d: Direction): (r: Grid)
    requires Wf(g) && Inside(g, p) && Inside(g, Move(p, d))
  {
    ClearWall(ClearWall(g, p, WallIndex(d)), Move(p, d), WallIndex(Opposite(d)))
  }

  const Root: Coord := (0, 0)

  ghost function RowSet(cols: nat, y: int): set<Coord>
  {
    set x | 0 <= x < cols :: (x, y)
  }

  ghost function CellSet(cols: nat, rows: nat): set<Coord>
  {
    set x, y | 0 <= x < cols && 0 <= y < rows :: (x, y)
  }

  ghost function AllCells(g: Grid): set<Coord>
  {
    CellSet(g.cols, g.rows)
  }

  /** Every wall on the outer edge of the grid is closed. */
  ghost predicate BoundaryClosed(g: Grid)
    requires Wf(g)
  {
    forall p, d :: Inside(g, p) && !Inside(g, Move(p, d)) ==> Wall(g, p, d)
  }

  /** The open passages, each named once as (cell, its right or bottom neighbour). */
  ghost function Passages(g: Grid): set<(Coord, Coord)>
    requires Wf(g)
  {
    set p, d | p in AllCells(g) && d in {Right, Bottom} && Inside(g, Move(p, d)) && !Wall(g, p, d) :: (p, Move(p, d))
  }

  /** `a` and `b` are neighbouring cells with the passage from `a` toward `b` open. */
  ghost predicate Linked(g: Grid, a: Coord, b: Coord)
    requires Wf(g)
  {
    && Inside(g, a) && Inside(g, b)
    && (|| (b == Move(a, Top) && !Wall(g, a, Top))
        || (b == Move(a, Right) && !Wall(g, a, Right))
        || (b == Move(a, Bottom) && !Wall(g, a, Bottom))
        || (b == Move(a, Left) && !Wall(g, a, Left)))
  }

  /** A walk through open passages. */
  ghost predicate IsPassageWalk(g: Grid, w: seq<Coord>)
    requires Wf(g)
  {
    |w| >= 1 && forall i :: 0 <= i < |w| - 1 ==> Linked(g, w[i], w[i + 1])
  }

  ghost predicate Connected(g: Grid, a: Coord, b: Coord)
    requires Wf(g)
  {
    Inside(g, a) && exists w :: IsPassageWalk(g, w) && w[0] == a && w[|w| - 1] == b
  }

  function Succ(i: nat, n: nat): nat
  {
    if i + 1 < n then i + 1 else 0
  }

  /** At least three distinct cells, each linked to the next and the last to the first. */
  ghost predicate IsCycle(g: Grid, c: seq<Coord>)
    requires Wf(g)
  {
    && |c| >= 3
    && (forall i, j :: 0 <= i < j < |c| ==> c[i] != c[j])
    && forall i :: 0 <= i < |c| ==> Linked(g, c[i], c[Succ(i, |c|)])
  }

  /**
   * A perfect maze: the neighbours agree on every shared wall, the outer
   * boundary is closed, there are rows * cols - 1 passages, every cell is
   * connected to (0, 0), and the passages form no cycle.
   */
  ghost predicate IsPerfectMaze(g: Grid)
    requires Wf(g)
  {
    && Symmetric(g)
    && BoundaryClosed(g)
    && |Passages(g)| == g.rows * g.cols - 1
    && (forall p :: Inside(g, p) ==> Connected(g, p, Root))
    && forall c :: !IsCycle(g, c)
  }

  // ---------------------------------------------------------------------
  // The generator's loop invariant

  predicate Adjacent(a: Coord, b: Coord)
  {
    b == Move(a, Top) || b == Move(a, Right) || b == Move(a, Bottom) || b == Move(a, Left)
  }

  /** `a` and `b` are joined by a parent link, in either direction. */
  ghost predicate TreeEdge(parent: map<Coord, Coord>, a: Coord, b: Coord)
  {
    (a in parent && parent[a] == b) || (b in parent && parent[b] == a)
  }

  /** Parent links over the visited cells, rooted at (0, 0), each one step deeper than its parent. */
  ghost predicate IsTree(g: Grid, visited: set<Coord>, parent: map<Coord, Coord>, depth: map<Coord, nat>)
  {
    && Root in visited && visited <= AllCells(g)
    && parent.Keys == visited - {Root}
    && depth.Keys == visited && depth[Root] == 0
    && forall k :: k in parent ==> parent[k] in visited && Adjacent(k, parent[k]) && depth[k] == depth[parent[k]] + 1
  }

  /** A wall between two cells is open exactly when they are joined by a parent link. */
  ghost predicate OpenIffTreeEdge(g: Grid, parent: map<Coord, Coord>)
    requires Wf(g)
  {
    forall p, d :: Inside(g, p) && Inside(g, Move(p, d)) ==> (!Wall(g, p, d) <==> TreeEdge(parent, p, Move(p, d)))
  }

  /** A visited cell that is not on the stack has no unvisited neighbour. */
  ghost predicate Backtracked(g: Grid, stack: seq<Coord>, visited: set<Coord>)
  {
    forall p, d :: p in visited && p !in stack && Inside(g, Move(p, d)) ==> Move(p, d) in visited
  }

  ghost predicate DfsInv(g: Grid, rows: nat, cols: nat, stack: seq<Coord>, visited: set<Coord>,
                         parent: map<Coord, Coord>, depth: map<Coord, nat>)
  {
    && Wf(g) && g.rows == rows && g.cols == cols
    && (forall i :: 0 <= i < |stack| ==> stack[i] in visited)
    && IsTree(g, visited, parent, depth)
    && OpenIffTreeEdge(g, parent)
    && BoundaryClosed(g)
    && Backtracked(g, stack, visited)
    && |Passages(g)| + 1 == |visited|
  }

  lemma MoveInjective(p: Coord, d: Direction, e: Direction)
    ensures Move(p, d) == Move(p, e) <==> d == e
  {
  }

  /** Under the invariant an unvisited cell still has all four walls closed. */
  lemma UnvisitedClosed(g: Grid, visited: set<Coord>, parent: map<Coord, Coord>, depth: map<Coord, nat>, p: Coord, d: Direction)
    requires Wf(g) && IsTree(g, visited, parent, depth) && OpenIffTreeEdge(g, parent) && BoundaryClosed(g)
    requires Inside(g, p) && p !in visited
    ensures Wall(g, p, d)
  {
    if Inside(g, Move(p, d)) {
      assert !TreeEdge(parent, p, Move(p, d));
    }
  }

  lemma InitialInv(g: Grid)
    requires Wf(g) && g.rows >= 1 && g.cols >= 1 && AllClosed(g)
    ensures DfsInv(g, g.rows, g.cols, [Root], {Root}, map[], map[Root := 0])
  {
    assert Root in AllCells(g);
    forall p, d | Inside(g, p) ensures Wall(g, p, d) {
      assert g.matrix[p.1][p.0].walls[WallIndex(d)];
    }
    assert Passages(g) == {};
  }

  /** Dropping a top cell none of whose neighbours is unvisited keeps the invariant. */
  lemma PopPreserves(g: Grid, rows: nat, cols: nat, rest: seq<Coord>, top: Coord, visited: set<Coord>,
                     parent: map<Coord, Coord>, depth: map<Coord, nat>)
    requires DfsInv(g, rows, cols, rest + [top], visited, parent, depth)
    requires forall d :: Inside(g, Move(top, d)) ==> Move(top, d) in visited
    ensures DfsInv(g, rows, cols, rest, visited, parent, depth)
  {
    forall i | 0 <= i < |rest| ensures rest[i] in visited {
      assert rest[i] == (rest + [top])[i];
    }
    forall p, d | p in visited && p !in rest && Inside(g, Move(p, d)) ensures Move(p, d) in visited {
      if p != top {
        assert p !in rest + [top];
      }
    }
  }

  /** The passage a carve opens, named by its left or upper cell. */
  function CarvedEdge(p: Coord, d: Direction): (Coord, Coord)
  {
    if d == Right || d == Bottom then (p, Move(p, d)) else (Move(p, d), p)
  }

  /** A closed wall is no passage yet. */
  lemma CarvedEdgeIsNew(g: Grid, p: Coord, d: Direction)
    requires Wf(g) && Inside(g, p) && Inside(g, Move(p, d)) && Wall(g, p, d) && Wall(g, Move(p, d), Opposite(d))
    ensures CarvedEdge(p, d) !in Passages(g)
  {
    var n := Move(p, d);
    MoveOpposite(p, d);
    forall q, f | q in AllCells(g) && f in {Right, Bottom} && Inside(g, Move(q, f)) && !Wall(g, q, f)
      ensures (q, Move(q, f)) != CarvedEdge(p, d)
    {
      if d == Right || d == Bottom {
        MoveInjective(p, d, f);
      } else {
        MoveInjective(n, Opposite(d), f);
      }
    }
  }

  /** After a carve every passage is an old one or the carved one. */
  lemma CarvePassagesSub(g: Grid, p: Coord, d: Direction)
    requires Wf(g) && Inside(g, p) && Inside(g, Move(p, d))
    ensures Passages(Carve(g, p, d)) <= Passages(g) + {CarvedEdge(p, d)}
  {
    var n := Move(p, d);
    var g2 := Carve(g, p, d);
    MoveOpposite(p, d);
    CarveWalls(g, p, d);
    forall x | x in Passages(g2) ensures x in Passages(g) || x == CarvedEdge(p, d) {
      var q, f :| q in AllCells(g2) && f in {Right, Bottom} && Inside(g2, Move(q, f)) && !Wall(g2, q, f) && x == (q, Move(q, f));
      if !Wall(g, q, f) {
        assert x in Passages(g);
      }
    }
  }

  /** After a carve every old passage and the carved one are passages. */
  lemma CarvePassagesSup(g: Grid, p: Coord, d: Direction)
    requires Wf(g) && Inside(g, p) && Inside(g, Move(p, d))
    ensures Passages(g) + {CarvedEdge(p, d)} <= Passages(Carve(g, p, d))
  {
    var n := Move(p, d);
    var g2 := Carve(g, p, d);
    MoveOpposite(p, d);
    CarveWalls(g, p, d);
    forall x | x in Passages(g) ensures x in Passages(g2) {
      var q, f :| q in AllCells(g) && f in {Right, Bottom} && Inside(g, Move(q, f)) && !Wall(g, q, f) && x == (q, Move(q, f));
      assert !Wall(g2, q, f);
    }
    if d == Right || d == Bottom {
      assert p in AllCells(g2) && !Wall(g2, p, d);
    } else {
      assert n in AllCells(g2) && Opposite(d) in {Right, Bottom} && Move(n, Opposite(d)) == p && !Wall(g2, n, Opposite(d));
    }
  }

  /** The passages after a carve: the old ones plus the one just opened. */
  lemma CarvePassages(g: Grid, p: Coord, d: Direction)
    requires Wf(g) && Inside(g, p) && Inside(g, Move(p, d)) && Wall(g, p, d) && Wall(g, Move(p, d), Opposite(d))
    ensures Passages(Carve(g, p, d)) == Passages(g) + {CarvedEdge(p, d)} && CarvedEdge(p, d) !in Passages(g)
  {
    CarvedEdgeIsNew(g, p, d);
    CarvePassagesSub(g, p, d);
    CarvePassagesSup(g, p, d);
  }

  /** Carving changes exactly the two flags of the shared wall. */
  lemma CarveWalls(g: Grid, p: Coord, d: Direction)
    requires Wf(g) && Inside(g, p) && Inside(g, Move(p, d))
    ensures Wf(Carve(g, p, d)) && Carve(g, p, d).rows == g.rows && Carve(g, p, d).cols == g.cols
    ensures forall q, f :: Inside(g, q) ==>
              Wall(Carve(g, p, d), q, f) ==
              if (q == p && f == d) || (q == Move(p, d) && f == Opposite(d)) then false else Wall(g, q, f)
  {
    forall q, f | Inside(g, q)
      ensures Wall(Carve(g, p, d), q, f) ==
              if (q == p && f == d) || (q == Move(p, d) && f == Opposite(d)) then false else Wall(g, q, f)
    {
      if q == Move(p, d) && f == Opposite(d) {
      } else if q == p && f == d {
        MoveOpposite(p, d);
      }
    }
  }

  /** The carved cell hangs below its origin in the tree. */
  lemma CarveKeepsTree(g: Grid, visited: set<Coord>, parent: map<Coord, Coord>, depth: map<Coord, nat>, top: Coord, d: Direction)
    requires IsTree(g, visited, parent, depth)
    requires top in visited && Inside(g, Move(top, d)) && Move(top, d) !in visited
    ensures var n := Move(top, d);
            IsTree(g, visited + {n}, parent[n := top], depth[n := depth[top] + 1])
  {
    var n := Move(top, d);
    assert n in AllCells(g);
    assert Adjacent(n, top) by {
      match d
      case Top => assert top == Move(n, Bottom);
      case Right => assert top == Move(n, Left);
      case Bottom => assert top == Move(n, Top);
      case Left => assert top == Move(n, Right);
    }
  }

  /** A parent link that touches an unvisited cell does not exist. */
  lemma NoTreeEdgeToUnvisited(g: Grid, visited: set<Coord>, parent: map<Coord, Coord>, depth: map<Coord, nat>, a: Coord, b: Coord)
    requires IsTree(g, visited, parent, depth)
    requires a !in visited || b !in visited
    ensures !TreeEdge(parent, a, b)
  {
  }

  /** A carve leaves every flag but the two of the carved wall as it was. */
  lemma CarveOtherWall(g: Grid, top: Coord, d: Direction, q: Coord, f: Direction)
    requires Wf(g) && Inside(g, top) && Inside(g, Move(top, d)) && Inside(g, q)
    requires !(q == top && f == d) && !(q == Move(top, d) && f == Opposite(d))
    ensures Wall(Carve(g, top, d), q, f) == Wall(g, q, f)
  {
    CarveWalls(g, top, d);
  }

  /** Linking the unvisited `n` to `top` creates no parent link other than the one between them. */
  lemma LinkKeepsEdges(g: Grid, visited: set<Coord>, parent: map<Coord, Coord>, depth: map<Coord, nat>,
                       top: Coord, n: Coord, q: Coord, m: Coord)
    requires IsTree(g, visited, parent, depth) && top in visited && n !in visited && q != m
    requires !(q == top && m == n) && !(q == n && m == top)
    ensures TreeEdge(parent[n := top], q, m) == TreeEdge(parent, q, m)
  {
    if q == n || m == n {
      NoTreeEdgeToUnvisited(g, visited, parent, depth, q, m);
    }
  }

  /** The wall between `q` and its neighbour toward `f` after the carve. */
  lemma CarveKeepsOpenIffAt(g: Grid, visited: set<Coord>, parent: map<Coord, Coord>, depth: map<Coord, nat>,
                            top: Coord, d: Direction, q: Coord, f: Direction)
    requires Wf(g) && IsTree(g, visited, parent, depth) && OpenIffTreeEdge(g, parent)
    requires top in visited && Inside(g, Move(top, d)) && Move(top, d) !in visited
    requires Inside(g, q) && Inside(g, Move(q, f))
    ensures !Wall(Carve(g, top, d), q, f) <==> TreeEdge(parent[Move(top, d) := top], q, Move(q, f))
  {
    var n := Move(top, d);
    var m := Move(q, f);
    MoveOpposite(top, d);
    if q == top && f == d {
      CarveWalls(g, top, d);
    } else if q == n && f == Opposite(d) {
      CarveWalls(g, top, d);
    } else {
      CarveOtherWall(g, top, d, q, f);
      MoveOpposite(q, f);
      MoveInjective(top, f, d);
      MoveInjective(n, f, Opposite(d));
      LinkKeepsEdges(g, visited, parent, depth, top, n, q, m);
    }
  }

  /** After the carve the open walls are still exactly the parent links. */
  lemma CarveKeepsOpenIff(g: Grid, visited: set<Coord>, parent: map<Coord, Coord>, depth: map<Coord, nat>, top: Coord, d: Direction)
    requires Wf(g) && IsTree(g, visited, parent, depth) && OpenIffTreeEdge(g, parent)
    requires top in visited && Inside(g, Move(top, d)) && Move(top, d) !in visited
    ensures OpenIffTreeEdge(Carve(g, top, d), parent[Move(top, d) := top])
  {
    CarveWalls(g, top, d);
    forall q, f | Inside(Carve(g, top, d), q) && Inside(Carve(g, top, d), Move(q, f))
      ensures !Wall(Carve(g, top, d), q, f) <==> TreeEdge(parent[Move(top, d) := top], q, Move(q, f))
    {
      CarveKeepsOpenIffAt(g, visited, parent, depth, top, d, q, f);
    }
  }

  lemma CarveKeepsBoundary(g: Grid, top: Coord, d: Direction)
    requires Wf(g) && BoundaryClosed(g) && Inside(g, top) && Inside(g, Move(top, d))
    ensures BoundaryClosed(Carve(g, top, d))
  {
    CarveWalls(g, top, d);
    MoveOpposite(top, d);
    forall q, f | Inside(g, q) && !Inside(g, Move(q, f)) ensures Wall(Carve(g, top, d), q, f) {
      assert !(q == top && f == d) && !(q == Move(top, d) && f == Opposite(d));
    }
  }

  /** Pushing the newly visited cell keeps the stack inside the visited set and the backtracking fact. */
  lemma PushKeepsStack(g: Grid, g2: Grid, stack: seq<Coord>, visited: set<Coord>, n: Coord)
    requires g2.rows == g.rows && g2.cols == g.cols
    requires forall i :: 0 <= i < |stack| ==> stack[i] in visited
    requires Backtracked(g, stack, visited)
    ensures forall i :: 0 <= i < |stack + [n]| ==> (stack + [n])[i] in visited + {n}
    ensures Backtracked(g2, stack + [n], visited + {n})
  {
    forall i | 0 <= i < |stack + [n]| ensures (stack + [n])[i] in visited + {n} {
      if i < |stack| {
        assert (stack + [n])[i] == stack[i];
      }
    }
    forall p, e | p in visited + {n} && p !in stack + [n] && Inside(g2, Move(p, e)) ensures Move(p, e) in visited + {n} {
      assert p !in stack;
    }
  }

  /** Carving from a visited cell into an unvisited neighbour keeps the invariant. */
  lemma CarvePreserves(g: Grid, rows: nat, cols: nat, stack: seq<Coord>, visited: set<Coord>,
                       parent: map<Coord, Coord>, depth: map<Coord, nat>, top: Coord, d: Direction)
    requires DfsInv(g, rows, cols, stack, visited, parent, depth)
    requires top in visited && Inside(g, Move(top, d)) && Move(top, d) !in visited
    ensures var n := Move(top, d);
            DfsInv(Carve(g, top, d), rows, cols, stack + [n], visited + {n},
                   parent[n := top], depth[n := depth[top] + 1])
  {
    var n := Move(top, d);
    var g2 := Carve(g, top, d);
    assert top in AllCells(g);
    MoveOpposite(top, d);
    UnvisitedClosed(g, visited, parent, depth, n, Opposite(d));
    NoTreeEdgeToUnvisited(g, visited, parent, depth, top, n);
    assert !Wall(g, top, d) <==> TreeEdge(parent, top, n);
    CarvePassages(g, top, d);
    CarveWalls(g, top, d);
    CarveKeepsTree(g, visited, parent, depth, top, d);
    CarveKeepsOpenIff(g, visited, parent, depth, top, d);
    CarveKeepsBoundary(g, top, d);
    PushKeepsStack(g, g2, stack, visited, n);
  }

  // ---------------------------------------------------------------------
  // From the final invariant to the perfect maze

  lemma {:induction false} RowCells(cols: nat, y: int)
    ensures |RowSet(cols, y)| == cols
  {
    if cols > 0 {
      RowCells(cols - 1, y);
      assert RowSet(cols, y) == RowSet(cols - 1, y) + {(cols - 1, y)};
    }
  }

  /** The cells of `rows` rows are those of the first `rows - 1` rows plus the last row. */
  lemma CellSetSplit(cols: nat, rows: nat)
    requires rows > 0
    ensures CellSet(cols, rows) == CellSet(cols, rows - 1) + RowSet(cols, rows - 1)
    ensures CellSet(cols, rows - 1) !! RowSet(cols, rows - 1)
  {
    forall p | p in CellSet(cols, rows) ensures p in CellSet(cols, rows - 1) + RowSet(cols, rows - 1) {
      if p.1 < rows - 1 {
        assert p in CellSet(cols, rows - 1);
      } else {
        assert p in RowSet(cols, rows - 1);
      }
    }
  }

  lemma MulPred(rows: nat, cols: nat)
    requires rows > 0
    ensures (rows - 1) * cols + cols == rows * cols
  {
  }

  lemma {:induction false} GridCells(cols: nat, rows: nat)
    ensures |CellSet(cols, rows)| == rows * cols
  {
    if rows > 0 {
      GridCells(cols, rows - 1);
      RowCells(cols, rows - 1);
      CellSetSplit(cols, rows);
      var n := |CellSet(cols, rows - 1)|;
      assert |CellSet(cols, rows)| == n + cols;
      assert n == (rows - 1) * cols;
      MulPred(rows, cols);
    }
  }

  lemma AllCellsCount(g: Grid)
    ensures |AllCells(g)| == g.rows * g.cols
  {
    GridCells(g.cols, g.rows);
  }

  /** A set of cells that holds (0, 0) and is closed under stepping to neighbours holds every cell. */
  lemma {:induction false} ReachesCell(g: Grid, visited: set<Coord>, x: nat, y: nat)
    requires Root in visited
    requires forall p, d :: p in visited && Inside(g, Move(p, d)) ==> Move(p, d) in visited
    requires x < g.cols && y < g.rows
    ensures (x, y) in visited
    decreases x + y
  {
    if y > 0 {
      ReachesCell(g, visited, x, y - 1);
      assert Move((x, y - 1), Bottom) == (x, y);
    } else if x > 0 {
      ReachesCell(g, visited, x - 1, y);
      assert Move((x - 1, y), Right) == (x, y);
    }
  }

  /** Parent links give a passage walk from any visited cell to (0, 0). */
  lemma {:induction false} TreeConnected(g: Grid, visited: set<Coord>, parent: map<Coord, Coord>, depth: map<Coord, nat>, p: Coord)
    requires Wf(g) && IsTree(g, visited, parent, depth) && OpenIffTreeEdge(g, parent)
    requires p in visited
    ensures Connected(g, p, Root)
    decreases depth[p]
  {
    assert p in AllCells(g);
    if p == Root {
      assert IsPassageWalk(g, [Root]);
    } else {
      var q := parent[p];
      TreeConnected(g, visited, parent, depth, q);
      var w :| IsPassageWalk(g, w) && w[0] == q && w[|w| - 1] == Root;
      assert q in AllCells(g);
      var d :| Move(p, d) == q by {
        assert Adjacent(p, q);
      }
      assert TreeEdge(parent, p, Move(p, d));
      assert Linked(g, p, q);
      var w2 := [p] + w;
      forall i | 0 <= i < |w2| - 1 ensures Linked(g, w2[i], w2[i + 1]) {
        if i > 0 {
          assert w2[i] == w[i - 1] && w2[i + 1] == w[i];
        }
      }
      assert IsPassageWalk(g, w2);
    }
  }

  /** Linked cells are joined by a parent link. */
  lemma LinkedIsTreeEdge(g: Grid, parent: map<Coord, Coord>, a: Coord, b: Coord)
    requires Wf(g) && OpenIffTreeEdge(g, parent) && Linked(g, a, b)
    ensures TreeEdge(parent, a, b)
  {
    var d :| Move(a, d) == b && !Wall(g, a, d) by {
      if b == Move(a, Top) && !Wall(g, a, Top) {
      } else if b == Move(a, Right) && !Wall(g, a, Right) {
      } else if b == Move(a, Bottom) && !Wall(g, a, Bottom) {
      } else {
        assert b == Move(a, Left) && !Wall(g, a, Left);
      }
    }
  }

  /** An index holding a deepest element of a non-empty sequence. */
  lemma {:induction false} DeepestIndex(c: seq<Coord>, depth: map<Coord, nat>) returns (m: nat)
    requires |c| > 0 && forall i :: 0 <= i < |c| ==> c[i] in depth
    ensures m < |c| && forall i :: 0 <= i < |c| ==> depth[c[i]] <= depth[c[m]]
  {
    if |c| == 1 {
      m := 0;
    } else {
      var k := DeepestIndex(c[..|c| - 1], depth);
      assert forall i :: 0 <= i < |c| - 1 ==> c[..|c| - 1][i] == c[i];
      m := if depth[c[|c| - 1]] > depth[c[k]] then |c| - 1 else k;
    }
  }

  /**
   * Parent links with strictly growing depth admit no cycle: at a deepest
   * cell of a cycle both cycle neighbours would have to be its parent.
   */
  lemma TreeAcyclic(g: Grid, visited: set<Coord>, parent: map<Coord, Coord>, depth: map<Coord, nat>, c: seq<Coord>)
    requires Wf(g) && IsTree(g, visited, parent, depth) && OpenIffTreeEdge(g, parent)
    requires visited == AllCells(g)
    ensures !IsCycle(g, c)
  {
    if IsCycle(g, c) {
      forall i | 0 <= i < |c| ensures c[i] in depth {
        assert Linked(g, c[i], c[Succ(i, |c|)]);
        assert c[i] in AllCells(g);
      }
      var m := DeepestIndex(c, depth);
      var next := Succ(m, |c|);
      var prev := if m == 0 then |c| - 1 else m - 1;
      assert Succ(prev, |c|) == m;
      LinkedIsTreeEdge(g, parent, c[m], c[next]);
      LinkedIsTreeEdge(g, parent, c[prev], c[m]);
    }
  }

  /** The top of the stack is a visited cell of the grid, stored at its own coordinates. */
  lemma TopFacts(g: Grid, rows: nat, cols: nat, stack: seq<Coord>, visited: set<Coord>,
                 parent: map<Coord, Coord>, depth: map<Coord, nat>)
    requires DfsInv(g, rows, cols, stack, visited, parent, depth) && stack != []
    ensures var top := stack[|stack| - 1];
            top in visited && Inside(g, top) && Id(g.matrix[top.1][top.0]) == top
  {
    var top := stack[|stack| - 1];
    assert top in visited;
    assert top in AllCells(g);
  }

  lemma SplitLast(s: seq<Coord>)
    requires s != []
    ensures s == s[..|s| - 1] + [s[|s| - 1]]
  {
  }

  /** Visiting a new cell shrinks what is left to visit. */
  lemma ShrinkBy(cells: set<Coord>, visited: set<Coord>, x: Coord)
    requires x in cells && x !in visited
    ensures cells - (visited + {x}) < cells - visited
  {
    assert x in cells - visited;
  }

  /** One carving iteration, phrased on what the generator sees: the top cell and a listed neighbour. */
  lemma CarveStep(g: Grid, rows: nat, cols: nat, stack: seq<Coord>, visited: set<Coord>,
                  parent: map<Coord, Coord>, depth: map<Coord, nat>, top: Coord, neighbor: Cell, dir: Direction)
    requires DfsInv(g, rows, cols, stack, visited, parent, depth)
    requires top in visited && Inside(g, top)
    requires GetNeighborCell(g, g.matrix[top.1][top.0], dir) == Some(neighbor) && Id(neighbor) !in visited
    ensures Inside(g, Move(top, dir)) && Id(neighbor) == Move(top, dir)
    ensures DfsInv(Carve(g, top, dir), rows, cols, stack + [Id(neighbor)], visited + {Id(neighbor)},
                   parent[Id(neighbor) := top], depth[Id(neighbor) := depth[top] + 1])
  {
    assert Id(g.matrix[top.1][top.0]) == top;
    CarvePreserves(g, rows, cols, stack, visited, parent, depth, top, dir);
  }

  /** One backtracking iteration: the top cell has no unvisited neighbour left. */
  lemma PopStep(g: Grid, rows: nat, cols: nat, rest: seq<Coord>, top: Coord, visited: set<Coord>,
                parent: map<Coord, Coord>, depth: map<Coord, nat>)
    requires DfsInv(g, rows, cols, rest + [top], visited, parent, depth) && Inside(g, top)
    requires GetNonVisitedNeighborCells(g, g.matrix[top.1][top.0], visited).None?
    ensures DfsInv(g, rows, cols, rest, visited, parent, depth)
  {
    var cell := g.matrix[top.1][top.0];
    assert Id(cell) == top;
    forall d | Inside(g, Move(top, d)) ensures Move(top, d) in visited {
      assert GetNeighborCell(g, cell, d).Some?;
    }
    PopPreserves(g, rows, cols, rest, top, visited, parent, depth);
  }

  /** Once the stack is empty the invariant describes a perfect maze. */
  lemma FinalInvIsPerfect(g: Grid, rows: nat, cols: nat, visited: set<Coord>,
                          parent: map<Coord, Coord>, depth: map<Coord, nat>)
    requires DfsInv(g, rows, cols, [], visited, parent, depth)
    ensures visited == AllCells(g)
    ensures IsPerfectMaze(g)
  {
    forall p | p in AllCells(g) ensures p in visited {
      ReachesCell(g, visited, p.0, p.1);
    }
    AllCellsCount(g);
    forall p, d | Inside(g, p) && Inside(g, Move(p, d))
      ensures Wall(g, p, d) == Wall(g, Move(p, d), Opposite(d))
    {
      MoveOpposite(p, d);
      assert TreeEdge(parent, p, Move(p, d)) == TreeEdge(parent, Move(p, d), Move(Move(p, d), Opposite(d)));
    }
    forall p | Inside(g, p) ensures Connected(g, p, Root) {
      assert p in AllCells(g);
      TreeConnected(g, visited, parent, depth, p);
    }
    forall c ensures !IsCycle(g, c) {
      TreeAcyclic(g, visited, parent, depth, c);
    }
  }

  class RandomisedDfs {
    var grid: Grid

    /** `from_grid_size`: a generator over a fresh rows x cols grid with every wall closed. */
    constructor FromGridSize(rows: nat, cols: nat)
      ensures grid.rows == rows && grid.cols == cols && Wf(grid) && AllClosed(grid)
    {
      var g := NewGrid(rows, cols);
      grid := g;
    }

    /** `Default`: a generator over a fresh 10 x 10 grid. */
    constructor Default()
      ensures grid.rows == 10 && grid.cols == 10 && Wf(grid) && AllClosed(grid)
    {
      var g := NewGrid(10, 10);
      grid := g;
    }

    /** `update_cell_walls`: clear the flag for `collapseAt` of the grid's cell at the target's position. */
    method UpdateCellWalls(targetCell: Cell, collapseAt: Direction)
      requires Wf(grid) && targetCell.x < grid.cols && targetCell.y < grid.rows
      modifies this
      ensures grid == ClearWall(old(grid), Id(targetCell), WallIndex(collapseAt))
    {
      var updatedCell := grid.matrix[targetCell.y][targetCell.x];
      match collapseAt {
        case Top => updatedCell := updatedCell.(walls := updatedCell.walls[0 := false]);
        case Right => updatedCell := updatedCell.(walls := updatedCell.walls[1 := false]);
        case Bottom => updatedCell := updatedCell.(walls := updatedCell.walls[2 := false]);
        case Left => updatedCell := updatedCell.(walls := updatedCell.walls[3 := false]);
      }
      grid := grid.(matrix := grid.matrix[targetCell.y := grid.matrix[targetCell.y][targetCell.x := updatedCell]]);
    }

    /** `generate`: carve a perfect maze into a grid whose walls are all closed. */
    method Generate()
      requires Wf(grid) && grid.rows >= 1 && grid.cols >= 1 && AllClosed(grid)
      modifies this
      ensures Wf(grid) && grid.rows == old(grid.rows) && grid.cols == old(grid.cols)
      ensures IsPerfectMaze(grid)
    {
      ghost var rows, cols := grid.rows, grid.cols;
      ghost var cells := AllCells(grid);
      var stack: seq<Coord> := [];
      var visited: set<Coord> := {};
      var startCell := grid.matrix[0][0];
      visited := visited + {Id(startCell)};
      stack := stack + [Id(startCell)];
      ghost var parent: map<Coord, Coord> := map[];
      ghost var depth: map<Coord, nat> := map[Root := 0];
      InitialInv(grid);
      while stack != []
        invariant DfsInv(grid, rows, cols, stack, visited, parent, depth)
        invariant cells == AllCells(grid)
        decreases cells - visited, |stack|
      {
        ghost var before, g0 := stack, grid;
        TopFacts(grid, rows, cols, stack, visited, parent, depth);
        SplitLast(stack);
        var top := stack[|stack| - 1];
        stack := stack[..|stack| - 1];
        var cell := grid.matrix[top.1][top.0];
        var found := GetNonVisitedNeighborCells(grid, cell, visited);
        if found.Some? {
          // the random pick: any entry of the list
          var k :| 0 <= k < |found.value|;
          var (neighbor, dir) := found.value[k];
          assert found.value[k] in found.value;
          CarveStep(g0, rows, cols, before, visited, parent, depth, top, neighbor, dir);
          UpdateCellWalls(cell, dir);
          UpdateCellWalls(neighbor, Opposite(dir));
          stack := stack + [top];
          visited := visited + {Id(neighbor)};
          stack := stack + [Id(neighbor)];
          parent := parent[Id(neighbor) := top];
          depth := depth[Id(neighbor) := depth[top] + 1];
          assert stack == before + [Id(neighbor)];
          assert grid == Carve(g0, top, dir);
          ShrinkBy(cells, visited - {Id(neighbor)}, Id(neighbor));
        } else {
          PopStep(grid, rows, cols, stack, top, visited, parent, depth);
        }
      }
      FinalInvIsPerfect(grid, rows, cols, visited, parent, depth);
    }
  }
}
