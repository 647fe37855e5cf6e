/**
 * The boundary-aware step function of src/util.rs. `build_offset_getter` captures
 * a (min, max) box and returns a closure that steps a point one unit in a
 * direction, answering None at the edge of the box. The coordinate type is
 * `u32`, the only primitive type that meets the closure's `Sub<u32>` and
 * `Add<u32>` bounds, so the model uses a 32-bit unsigned newtype and the
 * arithmetic that would underflow or overflow is excluded by the requires.
 * The result is in (row, col) order: (y', x').
 */
module Util {
  import opened Wrappers
  import opened Maze

  newtype u32 = v: int | 0 <= v < 0x1_0000_0000

  /** The closure's arithmetic for `d` stays within `u32`. */
  predicate Computable(min: (u32, u32), max: (u32, u32), x: u32, y: u32, d: Direction)
  {
    match d
    case Top => y != min.1 ==> y >= 1
    case Right => max.0 >= 1 && (x != max.0 - 1 ==> x as int + 1 < 0x1_0000_0000)
    case Bottom => max.1 >= 1 && (y != max.1 - 1 ==> y as int + 1 < 0x1_0000_0000)
    case Left => x != min.0 ==> x >= 1
  }

  /** The box test: min is inclusive, max exclusive. */
  predicate InBox(min: (u32, u32), max: (u32, u32), x: u32, y: u32)
  {
    min.0 <= x < max.0 && min.1 <= y < max.1
  }

  /** The body of the closure returned by `build_offset_getter(min, max)`, applied to (x, y, d). */
  function Offset(min: (u32, u32), max: (u32, u32), x: u32, y: u32, d: Direction): (r: Option<(u32, u32)>)
    requires Computable(min, max, x, y, d)
    ensures r.None? <==> match d
                         case Top => y == min.1
                         case Right => x == max.0 - 1
                         case Bottom => y == max.1 - 1
                         case Left => x == min.0
    ensures r.Some? ==> (r.value.1 as int, r.value.0 as int) == Move((x as int, y as int), d)
  {
    match d
    case Top => if y == min.1 then None else Some((y - 1, x))
    case Right => if x == max.0 - 1 then None else Some((y, x + 1))
    case Bottom => if y == max.1 - 1 then None else Some((y + 1, x))
    case Left => if x == min.0 then None else Some((y, x - 1))
  }

  /** `build_offset_getter`: the closure over the captured box. */
  function BuildOffsetGetter(min: (u32, u32), max: (u32, u32)): (getter: (u32, u32, Direction) --> Option<(u32, u32)>)
    ensures forall x, y, d | Computable(min, max, x, y, d) ::
              getter.requires(x, y, d) && getter(x, y, d) == Offset(min, max, x, y, d)
  {
    (x: u32, y: u32, d: Direction) requires Computable(min, max, x, y, d) => Offset(min, max, x, y, d)
  }

  /** Inside the box nothing underflows, and every step that is answered lands inside the box again. */
  lemma OffsetStaysInBox(min: (u32, u32), max: (u32, u32), x: u32, y: u32, d: Direction)
    requires InBox(min, max, x, y)
    ensures Computable(min, max, x, y, d)
    ensures Offset(min, max, x, y, d).Some? ==>
              InBox(min, max, Offset(min, max, x, y, d).value.1, Offset(min, max, x, y, d).value.0)
  {
  }

  /**
   * Stepping in `d`, swapping the (row, col) answer back to (x, y) and stepping
   * in the opposite direction returns to the start.
   */
  lemma OffsetRoundTrip(min: (u32, u32), max: (u32, u32), x: u32, y: u32, d: Direction)
    requires InBox(min, max, x, y)
    ensures Computable(min, max, x, y, d)
    ensures Offset(min, max, x, y, d).Some? ==>
              var (ny, nx) := Offset(min, max, x, y, d).value;
              Computable(min, max, nx, ny, Opposite(d)) &&
              Offset(min, max, nx, ny, Opposite(d)) == Some((y, x))
  {
  }

  /**
   * Over the box (0, 0) to (cols, rows) the offset getter agrees with the grid's
   * neighbour lookup: the same None answers, and a Some names the cell found.
   */
  lemma OffsetAgreesWithGrid(g: Grid, c: Cell, d: Direction)
    requires Wf(g) && c.x < g.cols && c.y < g.rows
    requires g.cols < 0x1_0000_0000 && g.rows < 0x1_0000_0000
    ensures Computable((0, 0), (g.cols as u32, g.rows as u32), c.x as u32, c.y as u32, d)
    ensures var r := Offset((0, 0), (g.cols as u32, g.rows as u32), c.x as u32, c.y as u32, d);
            && (r.None? <==> GetNeighborCell(g, c, d).None?)
            && (r.Some? ==> GetNeighborCell(g, c, d) == Some(g.matrix[r.value.0][r.value.1])
                            && Id(GetNeighborCell(g, c, d).value) == (r.value.1 as int, r.value.0 as int))
  {
  }
}
