/**
 * The grid and cell model of the maze generator: the four directions, a cell
 * with its four wall flags, the row-major grid built with every wall closed,
 * and the bounds-checked neighbour lookup (src/algo/maze.rs).
 */
module Maze {
  import opened Wrappers

  datatype Direction = Top | Right | Bottom | Left

  /** The four directions in the order the generator examines them. */
  const Directions: seq<Direction> := [Top, Right, Bottom, Left]

  /** Position of the flag for `d` in a cell's walls, which are ordered [top, right, bottom, left]. */
  function WallIndex(d: Direction): (i: nat)
    ensures i < 4
    ensures Directions[i] == d
  {
    match d
    case Top => 0
    case Right => 1
    case Bottom => 2
    case Left => 3
  }

  /** The direction pointing back: Top and Bottom swap, Right and Left swap. */
  function Opposite(d: Direction): (r: Direction)
    ensures r != d
    ensures WallIndex(r) == (WallIndex(d) + 2) % 4
  {
    match d
    case Top => Bottom
    case Right => Left
    case Bottom => Top
    case Left => Right
  }

  lemma OppositeInvolutive(d: Direction)
    ensures Opposite(Opposite(d)) == d
  {
  }

  /** A point as (x, y): column first, then row. */
  type Coord = (int, int)

  /** One unit step in direction `d`; rows grow downwards, so Top decreases y. */
  function Move(p: Coord, d: Direction): Coord
  {
    match d
    case Top => (p.0, p.1 - 1)
    case Right => (p.0 + 1, p.1)
    case Bottom => (p.0, p.1 + 1)
    case Left => (p.0 - 1, p.1)
  }

  lemma MoveOpposite(p: Coord, d: Direction)
    ensures Move(Move(p, d), Opposite(d)) == p
    ensures Move(p, d) != p
  {
  }

  /** A cell: its column x, its row y and its wall flags [top, right, bottom, left]; true means closed. */
  datatype Cell = Cell(x: nat, y: nat, walls: seq<bool>)

  /** `Cell::new`: a cell at (x, y) with all four walls closed. */
  function NewCell(x: nat, y: nat): (c: Cell)
    ensures c.x == x && c.y == y
    ensures |c.walls| == 4 && forall i :: 0 <= i < 4 ==> c.walls[i]
  {
    Cell(x, y, [true, true, true, true])
  }

  /** The identity under which the generator records a visited cell. */
  function Id(c: Cell): Coord
  {
    (c.x, c.y)
  }

  /** A grid of `rows` rows of `cols` cells, indexed `matrix[row][col]`. */
  datatype Grid = Grid(cols: nat, rows: nat, matrix: seq<seq<Cell>>)

  /** The matrix has `rows` rows of `cols` cells each. */
  ghost predicate Shaped(g: Grid)
  {
    |g.matrix| == g.rows && forall y :: 0 <= y < g.rows ==> |g.matrix[y]| == g.cols
  }

  /** Shaped, every cell knows its own position, and every cell has four wall flags. */
  ghost predicate Wf(g: Grid)
  {
    && Shaped(g)
    && forall y, x :: 0 <= y < g.rows && 0 <= x < g.cols ==>
         g.matrix[y][x].x == x && g.matrix[y][x].y == y && |g.matrix[y][x].walls| == 4
  }

  predicate Inside(g: Grid, p: Coord)
  {
    0 <= p.0 < g.cols && 0 <= p.1 < g.rows
  }

  function At(g: Grid, p: Coord): Cell
    requires Shaped(g) && Inside(g, p)
  {
    g.matrix[p.1][p.0]
  }

  /** The wall flag of the cell at `p` facing `d` (true means closed). */
  function Wall(g: Grid, p: Coord, d: Direction): bool
    requires Wf(g) && Inside(g, p)
  {
    At(g, p).walls[WallIndex(d)]
  }

  /** Two adjacent cells agree on the wall between them. */
  ghost predicate Symmetric(g: Grid)
    requires Wf(g)
  {
    forall p: Coord, d: Direction :: Inside(g, p) && Inside(g, Move(p, d)) ==>
      Wall(g, p, d) == Wall(g, Move(p, d), Opposite(d))
  }

  /** Every wall of every cell is closed. */
  ghost predicate AllClosed(g: Grid)
    requires Wf(g)
  {
    forall y, x, i :: 0 <= y < g.rows && 0 <= x < g.cols && 0 <= i < 4 ==> g.matrix[y][x].walls[i]
  }

  /** `Grid::build_matrix`: rows pushed one by one, each filled with closed cells. */
  method BuildMatrix(rows: nat, cols: nat) returns (matrix: seq<seq<Cell>>)
    ensures |matrix| == rows
    ensures forall y :: 0 <= y < rows ==> |matrix[y]| == cols
    ensures forall y, x :: 0 <= y < rows && 0 <= x < cols ==> matrix[y][x] == NewCell(x, y)
  {
    matrix := [];
    for y := 0 to rows
      invariant |matrix| == y
      invariant forall j :: 0 <= j < y ==> |matrix[j]| == cols
      invariant forall j, x :: 0 <= j < y && 0 <= x < cols ==> matrix[j][x] == NewCell(x, j)
    {
      var row: seq<Cell> := [];
      for x := 0 to cols
        invariant |row| == x
        invariant forall i :: 0 <= i < x ==> row[i] == NewCell(i, y)
      {
        row := row + [NewCell(x, y)];
      }
      matrix := matrix + [row];
    }
  }

  /** `Grid::new`: a rows x cols grid whose cell at [y][x] is (x, y) with every wall closed. */
  method NewGrid(rows: nat, cols: nat) returns (g: Grid)
    ensures g.rows == rows && g.cols == cols
    ensures Wf(g) && AllClosed(g)
    ensures forall y, x :: 0 <= y < rows && 0 <= x < cols ==> g.matrix[y][x] == NewCell(x, y)
  {
    var matrix := BuildMatrix(rows, cols);
    g := Grid(cols, rows, matrix);
  }

  /** The source's boundary test for `d`: the neighbour would fall outside the grid. */
  predicate OnBoundary(g: Grid, c: Cell, d: Direction)
  {
    match d
    case Top => c.y == 0
    case Right => c.x == g.cols - 1
    case Bottom => c.y == g.rows - 1
    case Left => c.x == 0
  }

  /**
   * `Grid::get_neighbor_cell`: the cell next to `c` in direction `d`, or None
   * when `c` lies on that edge of the grid.
   */
  function GetNeighborCell(g: Grid, c: Cell, d: Direction): (r: Option<Cell>)
    requires Shaped(g) && c.x < g.cols && c.y < g.rows
    ensures r.None? <==> OnBoundary(g, c, d)
    ensures r.None? <==> !Inside(g, Move(Id(c), d))
    ensures r.Some? ==> r.value == At(g, Move(Id(c), d))
  {
    match d
    case Top => if c.y == 0 then None else Some(g.matrix[c.y - 1][c.x])
    case Right => if c.x == g.cols - 1 then None else Some(g.matrix[c.y][c.x + 1])
    case Bottom => if c.y == g.rows - 1 then None else Some(g.matrix[c.y + 1][c.x])
    case Left => if c.x == 0 then None else Some(g.matrix[c.y][c.x - 1])
  }

  /** In a well-formed grid the neighbour found carries the adjacent coordinates. */
  lemma NeighborIsAdjacent(g: Grid, c: Cell, d: Direction)
    requires Wf(g) && c.x < g.cols && c.y < g.rows
    ensures GetNeighborCell(g, c, d).Some? ==>
              Id(GetNeighborCell(g, c, d).value) == Move(Id(c), d)
  {
  }

  /** Looking back from the neighbour in the opposite direction finds the cell at `c`'s position. */
  lemma NeighborSymmetric(g: Grid, c: Cell, d: Direction)
    requires Wf(g) && c.x < g.cols && c.y < g.rows
    ensures GetNeighborCell(g, c, d).Some? ==>
              GetNeighborCell(g, GetNeighborCell(g, c, d).value, Opposite(d)) == Some(g.matrix[c.y][c.x])
  {
    var r := GetNeighborCell(g, c, d);
    if r.Some? {
      MoveOpposite(Id(c), d);
    }
  }
}
