/**
 * The rasteriser of src/algo/grid.rs (`impl Into<ImageBuffer> for Grid`): it
 * paints a grid into a single-channel image. With the cell size, gap and
 * border all fixed at one pixel, the cell at (col, row) owns the pixel
 * (2*col+1, 2*row+1), and the gap pixel one step from it in a direction is
 * lit when that wall is open. Everything else keeps the value 0 that a new
 * image starts with. The image is an `array2` indexed [x, y] like
 * `get_pixel_mut(x, y)`: Length0 is the width, Length1 the height.
 */
module GridImage {
  import opened Maze

  const BORDER_WIDTH: nat := 1
  const GAP: nat := 1
  const SIZE: nat := 1

  /** Intensity of a lit pixel; unlit pixels are 0. */
  const LIT: int := 255

  /** The source's u32 arithmetic on the image size neither underflows nor wraps. */
  ghost predicate Paintable(g: Grid)
  {
    Wf(g) && g.rows >= 1 && g.cols >= 1 && 2 * g.cols + 1 < 0x1_0000_0000 && 2 * g.rows + 1 < 0x1_0000_0000
  }

  /** image_width / image_height: n cells, two borders and n - 1 gaps. */
  function ImageExtent(n: nat): (e: nat)
    requires n >= 1
    ensures e == 2 * n + 1
  {
    n * SIZE + BORDER_WIDTH * 2 + (n - 1) * GAP
  }

  predicate InImage(g: Grid, q: Coord)
  {
    0 <= q.0 < 2 * g.cols + 1 && 0 <= q.1 < 2 * g.rows + 1
  }

  /** The interior pixel of the cell at `p`. */
  function CellPixel(p: Coord): Coord
  {
    (2 * p.0 + 1, 2 * p.1 + 1)
  }

  /** Lit by the first k walls of the cell at `p` (in wall-index order) that are open. */
  ghost predicate LitByWallsBelow(g: Grid, p: Coord, q: Coord, k: nat)
    requires Wf(g) && Inside(g, p) && k <= 4
  {
    k > 0 && (LitByWallsBelow(g, p, q, k - 1) ||
              (!At(g, p).walls[k - 1] && q == Move(CellPixel(p), Directions[k - 1])))
  }

  /** The cell at `p` paints `q`: its own pixel, or the gap pixel toward an open wall. */
  ghost predicate LitByCell(g: Grid, p: Coord, q: Coord)
    requires Wf(g) && Inside(g, p)
  {
    q == CellPixel(p) || LitByWallsBelow(g, p, q, 4)
  }

  /**
   * The reference picture, by pixel geometry alone: odd/odd pixels are cells,
   * a pixel with one even coordinate is the gap between the two cells on
   * either side of it and is lit when either of them has that wall open, and
   * even/even pixels (the corners between gaps) are never lit.
   */
  ghost predicate Lit(g: Grid, q: Coord)
    requires Wf(g)
  {
    InImage(g, q) &&
    var c, r := q.0 / 2, q.1 / 2;
    if q.0 % 2 == 1 && q.1 % 2 == 1 then true
    else if q.0 % 2 == 0 && q.1 % 2 == 1 then
      (1 <= c && !Wall(g, (c - 1, r), Right)) || (c < g.cols && !Wall(g, (c, r), Left))
    else if q.0 % 2 == 1 && q.1 % 2 == 0 then
      (1 <= r && !Wall(g, (c, r - 1), Bottom)) || (r < g.rows && !Wall(g, (c, r), Top))
    else
      false
  }

  ghost function Pixel(g: Grid, q: Coord): int
    requires Wf(g)
  {
    if Lit(g, q) then LIT else 0
  }

  /** Cell `p` comes before the cursor `k` in row-major order. */
  predicate Before(p: Coord, k: Coord)
  {
    p.1 < k.1 || (p.1 == k.1 && p.0 < k.0)
  }

  /** `Lit`, counting only the cells painted before the cursor `k`. */
  ghost predicate LitBefore(g: Grid, q: Coord, k: Coord)
    requires Wf(g)
  {
    InImage(g, q) &&
    var c, r := q.0 / 2, q.1 / 2;
    if q.0 % 2 == 1 && q.1 % 2 == 1 then Before((c, r), k)
    else if q.0 % 2 == 0 && q.1 % 2 == 1 then
      (1 <= c && Before((c - 1, r), k) && !Wall(g, (c - 1, r), Right)) ||
      (c < g.cols && Before((c, r), k) && !Wall(g, (c, r), Left))
    else if q.0 % 2 == 1 && q.1 % 2 == 0 then
      (1 <= r && Before((c, r - 1), k) && !Wall(g, (c, r - 1), Bottom)) ||
      (r < g.rows && Before((c, r), k) && !Wall(g, (c, r), Top))
    else
      false
  }

  lemma LitByCellCases(g: Grid, p: Coord, q: Coord)
    requires Wf(g) && Inside(g, p)
    ensures LitByCell(g, p, q) <==>
              || q == CellPixel(p)
              || (!Wall(g, p, Top) && q == Move(CellPixel(p), Top))
              || (!Wall(g, p, Right) && q == Move(CellPixel(p), Right))
              || (!Wall(g, p, Bottom) && q == Move(CellPixel(p), Bottom))
              || (!Wall(g, p, Left) && q == Move(CellPixel(p), Left))
  {
    var cp := CellPixel(p);
    var w := At(g, p).walls;
    assert LitByWallsBelow(g, p, q, 1) <==> !w[0] && q == Move(cp, Top);
    assert LitByWallsBelow(g, p, q, 2) <==> LitByWallsBelow(g, p, q, 1) || (!w[1] && q == Move(cp, Right));
    assert LitByWallsBelow(g, p, q, 3) <==> LitByWallsBelow(g, p, q, 2) || (!w[2] && q == Move(cp, Bottom));
    assert LitByWallsBelow(g, p, q, 4) <==> LitByWallsBelow(g, p, q, 3) || (!w[3] && q == Move(cp, Left));
  }

  /** Painting the cell at the cursor moves the cursor one cell on. */
  lemma LitBeforeStep(g: Grid, k: Coord, q: Coord)
    requires Wf(g) && Inside(g, k)
    ensures LitBefore(g, q, (k.0 + 1, k.1)) <==> LitBefore(g, q, k) || (InImage(g, q) && LitByCell(g, k, q))
  {
    LitByCellCases(g, k, q);
  }

  /** The cursor past the end of a row is the start of the next one. */
  lemma LitBeforeRowEnd(g: Grid, r: int, q: Coord)
    requires Wf(g)
    ensures LitBefore(g, q, (g.cols, r)) <==> LitBefore(g, q, (0, r + 1))
  {
  }

  /** With every cell painted the picture is the reference one. */
  lemma LitBeforeAll(g: Grid, q: Coord)
    requires Wf(g)
    ensures LitBefore(g, q, (0, g.rows)) <==> Lit(g, q)
  {
  }

  /** Every cell's own pixel lies in the image and is lit. */
  lemma CellPixelLit(g: Grid, p: Coord)
    requires Wf(g) && Inside(g, p)
    ensures InImage(g, CellPixel(p)) && Lit(g, CellPixel(p))
  {
    var q := CellPixel(p);
    assert q.0 / 2 == p.0 && q.1 / 2 == p.1;
  }

  /**
   * The gap pixel toward a wall lies in the image whatever the wall's state,
   * border cells included, and it is lit when the wall is open.
   */
  lemma GapPixelLit(g: Grid, p: Coord, d: Direction)
    requires Wf(g) && Inside(g, p)
    ensures InImage(g, Move(CellPixel(p), d))
    ensures !Wall(g, p, d) ==> Lit(g, Move(CellPixel(p), d))
  {
    var q := Move(CellPixel(p), d);
    match d
    case Top => assert q.0 / 2 == p.0 && q.1 / 2 == p.1;
    case Right => assert q.0 / 2 == p.0 + 1 && q.1 / 2 == p.1;
    case Bottom => assert q.0 / 2 == p.0 && q.1 / 2 == p.1 + 1;
    case Left => assert q.0 / 2 == p.0 && q.1 / 2 == p.1;
  }

  /** A pixel is lit exactly when some cell paints it: nothing else leaves 0. */
  lemma LitIffPaintedByACell(g: Grid, q: Coord)
    requires Wf(g) && InImage(g, q)
    ensures Lit(g, q) <==> exists p :: Inside(g, p) && LitByCell(g, p, q)
  {
    var c, r := q.0 / 2, q.1 / 2;
    if Lit(g, q) {
      var p: Coord;
      if q.0 % 2 == 1 && q.1 % 2 == 1 {
        p := (c, r);
      } else if q.0 % 2 == 0 && q.1 % 2 == 1 {
        p := if 1 <= c && !Wall(g, (c - 1, r), Right) then (c - 1, r) else (c, r);
      } else {
        p := if 1 <= r && !Wall(g, (c, r - 1), Bottom) then (c, r - 1) else (c, r);
      }
      LitByCellCases(g, p, q);
      assert Inside(g, p) && LitByCell(g, p, q);
    }
    forall p | Inside(g, p) && LitByCell(g, p, q)
      ensures Lit(g, q)
    {
      LitByCellCases(g, p, q);
      if q == CellPixel(p) {
        CellPixelLit(g, p);
      } else {
        var d :| !Wall(g, p, d) && q == Move(CellPixel(p), d);
        GapPixelLit(g, p, d);
      }
    }
  }

  /** Corner pixels, both of whose coordinates are even, are never lit. */
  lemma CornerNeverLit(g: Grid, q: Coord)
    requires Wf(g) && q.0 % 2 == 0 && q.1 % 2 == 0
    ensures !Lit(g, q)
  {
  }

  /**
   * In a grid whose neighbours agree on their shared walls, the gap pixel
   * between a cell and its neighbour is one pixel (the right gap of one cell is
   * the left gap of the next, the bottom gap the top gap of the one below), and
   * it is lit exactly when the passage between them is open.
   */
  lemma GapShowsPassage(g: Grid, p: Coord, d: Direction)
    requires Wf(g) && Symmetric(g) && Inside(g, p)
    ensures Inside(g, Move(p, d)) ==> Move(CellPixel(p), d) == Move(CellPixel(Move(p, d)), Opposite(d))
    ensures Lit(g, Move(CellPixel(p), d)) <==> !Wall(g, p, d)
  {
    var q := Move(CellPixel(p), d);
    GapPixelLit(g, p, d);
    if Inside(g, Move(p, d)) {
      assert Wall(g, p, d) == Wall(g, Move(p, d), Opposite(d));
    }
    match d
    case Top => assert q.0 / 2 == p.0 && q.1 / 2 == p.1;
    case Right => assert q.0 / 2 == p.0 + 1 && q.1 / 2 == p.1;
    case Bottom => assert q.0 / 2 == p.0 && q.1 / 2 == p.1 + 1;
    case Left => assert q.0 / 2 == p.0 && q.1 / 2 == p.1;
  }

  /** Paint the cell at [row][col]: its pixel and, for each open wall, the gap next to it. */
  method PaintCell(img: array2<int>, g: Grid, row: nat, col: nat)
    requires Paintable(g) && row < g.rows && col < g.cols
    requires img.Length0 == 2 * g.cols + 1 && img.Length1 == 2 * g.rows + 1
    modifies img
    ensures forall x, y :: 0 <= x < img.Length0 && 0 <= y < img.Length1 ==>
              img[x, y] == if LitByCell(g, (col, row), (x, y)) then LIT else old(img[x, y])
  {
    var cell := g.matrix[row][col];
    var topLeftX := cell.x + BORDER_WIDTH + GAP * col + (SIZE - 1) * col;
    var topLeftY := cell.y + BORDER_WIDTH + GAP * row + (SIZE - 1) * row;
    assert (topLeftX, topLeftY) == CellPixel((col, row));
    // The pixel loops `for x in 0..SIZE` and `for y in 0..SIZE` run once, with x = y = 0.
    img[topLeftX, topLeftY] := LIT;
    var s := 0;
    var wallIdx := 0;
    while wallIdx < 4
      invariant 0 <= wallIdx <= 4
      invariant forall x, y :: 0 <= x < img.Length0 && 0 <= y < img.Length1 ==>
                  img[x, y] == if (x, y) == CellPixel((col, row)) || LitByWallsBelow(g, (col, row), (x, y), wallIdx)
                               then LIT else old(img[x, y])
    {
      if !cell.walls[wallIdx] {
        // The gap loop `for g in 0..GAP` runs once, with g = 0.
        var gg := 0;
        var px, py;
        if wallIdx == 0 {
          var offsetY := 1 + gg;
          var offsetX := s;
          px, py := topLeftX + offsetX, topLeftY - offsetY;
        } else if wallIdx == 1 {
          var offsetX := s + (gg - s);
          var offsetY := s;
          px, py := topLeftX + offsetX + SIZE, topLeftY + offsetY;
        } else if wallIdx == 2 {
          var offsetY := gg;
          var offsetX := s;
          px, py := topLeftX + offsetX, topLeftY + offsetY + SIZE;
        } else {
          var offsetX := 1 + s + (gg - s);
          var offsetY := s;
          px, py := topLeftX - offsetX, topLeftY + offsetY;
        }
        assert (px, py) == Move(CellPixel((col, row)), Directions[wallIdx]);
        img[px, py] := LIT;
      }
      wallIdx := wallIdx + 1;
    }
  }

  /** Paint every cell of one row, moving the cursor from the row's start to the next row's start. */
  method PaintRow(img: array2<int>, g: Grid, row: nat)
    requires Paintable(g) && row < g.rows
    requires img.Length0 == 2 * g.cols + 1 && img.Length1 == 2 * g.rows + 1
    requires forall x, y :: 0 <= x < img.Length0 && 0 <= y < img.Length1 ==>
               img[x, y] == if LitBefore(g, (x, y), (0, row)) then LIT else 0
    modifies img
    ensures forall x, y :: 0 <= x < img.Length0 && 0 <= y < img.Length1 ==>
              img[x, y] == if LitBefore(g, (x, y), (0, row + 1)) then LIT else 0
  {
    var col := 0;
    while col < |g.matrix[row]|
      invariant 0 <= col <= g.cols
      invariant forall x, y :: 0 <= x < img.Length0 && 0 <= y < img.Length1 ==>
                  img[x, y] == if LitBefore(g, (x, y), (col, row)) then LIT else 0
    {
      PaintCell(img, g, row, col);
      forall x, y | 0 <= x < img.Length0 && 0 <= y < img.Length1
        ensures img[x, y] == if LitBefore(g, (x, y), (col + 1, row)) then LIT else 0
      {
        LitBeforeStep(g, (col, row), (x, y));
      }
      col := col + 1;
    }
    forall x, y | 0 <= x < img.Length0 && 0 <= y < img.Length1
      ensures img[x, y] == if LitBefore(g, (x, y), (0, row + 1)) then LIT else 0
    {
      LitBeforeRowEnd(g, row, (x, y));
    }
  }

  /** `Grid::into`: a fresh zero image of (2*cols+1) x (2*rows+1) pixels with every cell painted. */
  method Into(g: Grid) returns (img: array2<int>)
    requires Paintable(g)
    ensures fresh(img)
    ensures img.Length0 == 2 * g.cols + 1 && img.Length1 == 2 * g.rows + 1
    ensures forall x, y :: 0 <= x < img.Length0 && 0 <= y < img.Length1 ==> img[x, y] == Pixel(g, (x, y))
  {
    var imageWidth := ImageExtent(g.cols);
    var imageHeight := ImageExtent(g.rows);
    img := new int[imageWidth, imageHeight]((x, y) => 0);
    var row := 0;
    while row < |g.matrix|
      invariant 0 <= row <= g.rows
      invariant forall x, y :: 0 <= x < img.Length0 && 0 <= y < img.Length1 ==>
                  img[x, y] == if LitBefore(g, (x, y), (0, row)) then LIT else 0
    {
      PaintRow(img, g, row);
      row := row + 1;
    }
    forall x, y | 0 <= x < img.Length0 && 0 <= y < img.Length1
      ensures img[x, y] == Pixel(g, (x, y))
    {
      LitBeforeAll(g, (x, y));
    }
  }
}
