/** The 1-bit raster of the e-ink frame and its drawing primitives. Every
    primitive paints a rectangle clipped to the canvas through a brush that
    says, pixel by pixel, which colour (if any) goes there; pixels outside
    the rectangle or the canvas are never touched. */
module Canvas {
  import opened Types

  const WIDTH := 800
  const HEIGHT := 480

  datatype Color = Black | White

  /** Rows of pixels, top to bottom; `c[y][x]` is the pixel in column x of row y. */
  type Raster = seq<seq<Color>>

  predicate IsCanvas(c: Raster)
  {
    |c| == HEIGHT && forall y :: 0 <= y < HEIGHT ==> |c[y]| == WIDTH
  }

  predicate OnCanvas(x: int, y: int)
  {
    0 <= x < WIDTH && 0 <= y < HEIGHT
  }

  /** A canvas of one colour, as a fresh image is created. */
  function Blank(color: Color): (c: Raster)
    ensures IsCanvas(c)
    ensures forall y, x :: OnCanvas(x, y) ==> c[y][x] == color
  {
    seq(HEIGHT, _ => seq(WIDTH, _ => color))
  }

  datatype LineStyle =
    | Solid
    | Dashed   // rows alternate in runs of four: drawn, skipped, drawn, ...
    | Dotted   // every third row, the light grid line

  /** What a primitive paints at each pixel of its rectangle. */
  datatype Brush =
    | Fill(color: Color)
      /** A 1-pixel checkerboard inside a black border on the edges of the
          (unclipped) rectangle [x1, x2) x [y1, y2). */
    | Checker(x1: int, y1: int, x2: int, y2: int)
    | Line(color: Color, style: LineStyle)
      /** The set pixels of a glyph matrix, each blown up to a `scale` by
          `scale` block whose top-left corner is at (ox, oy). */
    | Ink(pixels: seq<seq<bool>>, ox: int, oy: int, scale: int, color: Color)

  /** The glyph pixel that covers canvas pixel (x, y), if any is set there. */
  predicate InkAt(pixels: seq<seq<bool>>, ox: int, oy: int, scale: int, x: int, y: int)
  {
    && scale >= 1 && x >= ox && y >= oy
    && (y - oy) / scale < |pixels|
    && (x - ox) / scale < |pixels[(y - oy) / scale]|
    && pixels[(y - oy) / scale][(x - ox) / scale]
  }

  /** The colour a brush puts at (x, y), or None where it leaves the pixel as it was. */
  function Paint(b: Brush, x: int, y: int): Option<Color>
  {
    match b
    case Fill(color) => Some(color)
    case Checker(x1, y1, x2, y2) =>
      if y == y1 || y == y2 - 1 || x == x1 || x == x2 - 1 then Some(Black)
      else if (x + y) % 2 == 0 then Some(Black)
      else Some(White)
    case Line(color, style) =>
      (match style
       case Solid => Some(color)
       case Dashed => if (y / 4) % 2 == 1 then None else Some(color)
       case Dotted => if y % 3 == 0 then Some(color) else None)
    case Ink(pixels, ox, oy, scale, color) =>
      if InkAt(pixels, ox, oy, scale, x, y) then Some(color) else None
  }

  function Over(prev: Color, p: Option<Color>): Color
  {
    if p.Some? then p.value else prev
  }

  /** The pixel at (x, y) once `b` has been applied to the rectangle
      [x1, x2) x [y1, y2). */
  function Painted(c: Raster, b: Brush, x1: int, y1: int, x2: int, y2: int, x: int, y: int): Color
    requires IsCanvas(c) && OnCanvas(x, y)
  {
    if x1 <= x < x2 && y1 <= y < y2 then Over(c[y][x], Paint(b, x, y)) else c[y][x]
  }

  /** Paints columns [px, xEnd) of `row`, which is row y of the canvas. */
  function FillSpan(row: seq<Color>, y: int, px: int, xEnd: int, b: Brush): (r: seq<Color>)
    requires |row| == WIDTH && 0 <= px && xEnd <= WIDTH
    ensures |r| == WIDTH
    ensures forall x :: 0 <= x < WIDTH ==>
      r[x] == if px <= x < xEnd then Over(row[x], Paint(b, x, y)) else row[x]
    decreases xEnd - px
  {
    if px >= xEnd then row
    else FillSpan(row[px := Over(row[px], Paint(b, px, y))], y, px + 1, xEnd, b)
  }

  /** Paints rows [py, yEnd) of the canvas, columns [xStart, xEnd) of each. */
  function FillRows(c: Raster, py: int, yEnd: int, xStart: int, xEnd: int, b: Brush): (r: Raster)
    requires IsCanvas(c) && 0 <= py && yEnd <= HEIGHT && 0 <= xStart && xEnd <= WIDTH
    ensures IsCanvas(r)
    ensures forall y, x :: OnCanvas(x, y) ==>
      r[y][x] == if py <= y < yEnd && xStart <= x < xEnd then Over(c[y][x], Paint(b, x, y)) else c[y][x]
    decreases yEnd - py
  {
    if py >= yEnd then c
    else FillRows(c[py := FillSpan(c[py], py, xStart, xEnd, b)], py + 1, yEnd, xStart, xEnd, b)
  }

  /** The loop shared by every primitive: rows max(0, y1) .. min(HEIGHT, y2),
      and in each the columns max(0, x1) .. min(WIDTH, x2). */
  function FillRegion(c: Raster, x1: int, y1: int, x2: int, y2: int, b: Brush): (r: Raster)
    requires IsCanvas(c)
    ensures IsCanvas(r)
    ensures forall y, x :: OnCanvas(x, y) ==> r[y][x] == Painted(c, b, x1, y1, x2, y2, x, y)
  {
    FillRows(c, Max(0, y1), Min(HEIGHT, y2), Max(0, x1), Min(WIDTH, x2), b)
  }

  /** A filled rectangle [x1, x2) x [y1, y2). */
  function DrawRect(c: Raster, x1: int, y1: int, x2: int, y2: int, color: Color): (r: Raster)
    requires IsCanvas(c)
    ensures IsCanvas(r)
    ensures forall y, x :: OnCanvas(x, y) ==>
      r[y][x] == if x1 <= x < x2 && y1 <= y < y2 then color else c[y][x]
  {
    FillRegion(c, x1, y1, x2, y2, Fill(color))
  }

  /** A checkerboard of [x1, x2) x [y1, y2): black on the rectangle's own edge
      rows and columns, inside black exactly where x + y is even. */
  function DrawCheckerboard(c: Raster, x1: int, y1: int, x2: int, y2: int): (r: Raster)
    requires IsCanvas(c)
    ensures IsCanvas(r)
    ensures forall y, x :: OnCanvas(x, y) && !(x1 <= x < x2 && y1 <= y < y2) ==> r[y][x] == c[y][x]
    ensures forall y, x :: OnCanvas(x, y) && x1 <= x < x2 && y1 <= y < y2 ==>
      (r[y][x] == Black <==> x == x1 || x == x2 - 1 || y == y1 || y == y2 - 1 || (x + y) % 2 == 0)
  {
    FillRegion(c, x1, y1, x2, y2, Checker(x1, y1, x2, y2))
  }

  /** A horizontal line on row y from column x1 up to, not including, x2. */
  function DrawHLine(c: Raster, x1: int, x2: int, y: int, color: Color): (r: Raster)
    requires IsCanvas(c)
    ensures IsCanvas(r)
    ensures forall py, px :: OnCanvas(px, py) ==>
      r[py][px] == if py == y && x1 <= px < x2 then color else c[py][px]
  {
    if 0 <= y < HEIGHT then FillRegion(c, x1, y, x2, y + 1, Line(color, Solid)) else c
  }

  /** A vertical line in column x from row y1 up to, not including, y2; a
      dashed line leaves out the rows whose index divided by 4 is odd. */
  function DrawVLine(c: Raster, x: int, y1: int, y2: int, color: Color, dashed: bool): (r: Raster)
    requires IsCanvas(c)
    ensures IsCanvas(r)
    ensures forall py, px :: OnCanvas(px, py) ==>
      r[py][px] == if px == x && y1 <= py < y2 && !(dashed && (py / 4) % 2 == 1) then color else c[py][px]
  {
    if 0 <= x < WIDTH then FillRegion(c, x, y1, x + 1, y2, Line(color, if dashed then Dashed else Solid)) else c
  }

  /** The light grid line: column x, every third row in [y1, y2). */
  function DrawGridLine(c: Raster, x: int, y1: int, y2: int): (r: Raster)
    requires IsCanvas(c)
    ensures IsCanvas(r)
    ensures forall py, px :: OnCanvas(px, py) ==>
      r[py][px] == if px == x && y1 <= py < y2 && py % 3 == 0 then Black else c[py][px]
  {
    FillRegion(c, x, y1, x + 1, y2, Line(Black, Dotted))
  }

  /** A glyph matrix drawn with its top-left corner at (x, y), each set pixel
      as a scale x scale block, clipped to the canvas. */
  function DrawGlyph(c: Raster, pixels: seq<seq<bool>>, x: int, y: int, scale: int, color: Color): (r: Raster)
    requires IsCanvas(c)
    ensures IsCanvas(r)
    ensures forall py, px :: OnCanvas(px, py) ==>
      r[py][px] == if InkAt(pixels, x, y, scale, px, py) then color else c[py][px]
  {
    InkPainted(c, pixels, x, y, scale, color);
    FillRegion(c, x, y, WIDTH, HEIGHT, Ink(pixels, x, y, scale, color))
  }

  lemma InkPainted(c: Raster, pixels: seq<seq<bool>>, x: int, y: int, scale: int, color: Color)
    requires IsCanvas(c)
    ensures var r := FillRegion(c, x, y, WIDTH, HEIGHT, Ink(pixels, x, y, scale, color));
      forall py, px :: OnCanvas(px, py) ==>
        r[py][px] == if InkAt(pixels, x, y, scale, px, py) then color else c[py][px]
  {
    forall py, px | OnCanvas(px, py)
      ensures FillRegion(c, x, y, WIDTH, HEIGHT, Ink(pixels, x, y, scale, color))[py][px]
              == if InkAt(pixels, x, y, scale, px, py) then color else c[py][px]
    {
      InkPaintedAt(c, pixels, x, y, scale, color, px, py);
    }
  }

  lemma InkPaintedAt(c: Raster, pixels: seq<seq<bool>>, x: int, y: int, scale: int, color: Color, px: int, py: int)
    requires IsCanvas(c) && OnCanvas(px, py)
    ensures FillRegion(c, x, y, WIDTH, HEIGHT, Ink(pixels, x, y, scale, color))[py][px]
            == if InkAt(pixels, x, y, scale, px, py) then color else c[py][px]
  {
    var b := Ink(pixels, x, y, scale, color);
    assert FillRegion(c, x, y, WIDTH, HEIGHT, b)[py][px] == Painted(c, b, x, y, WIDTH, HEIGHT, px, py);
  }

  /** Canvas pixel (px, py) lies in the scale x scale block of the set glyph
      pixel in row `row`, column `col`. */
  predicate InBlock(pixels: seq<seq<bool>>, x: int, y: int, scale: int, row: int, col: int, px: int, py: int)
  {
    && 0 <= row < |pixels| && 0 <= col < |pixels[row]| && pixels[row][col]
    && x + col * scale <= px < x + col * scale + scale
    && y + row * scale <= py < y + row * scale + scale
  }

  /** The ink of a glyph is exactly the union of the blocks of its set pixels:
      a pixel is painted iff some set glyph pixel's block covers it. */
  lemma InkIsUnionOfBlocks(pixels: seq<seq<bool>>, x: int, y: int, scale: int, px: int, py: int)
    requires scale >= 1
    ensures InkAt(pixels, x, y, scale, px, py) <==>
      exists row, col :: InBlock(pixels, x, y, scale, row, col, px, py)
  {
    if InkAt(pixels, x, y, scale, px, py) {
      var row, col := (py - y) / scale, (px - x) / scale;
      DivBounds(px - x, scale);
      DivBounds(py - y, scale);
      assert InBlock(pixels, x, y, scale, row, col, px, py);
    }
    if exists row, col :: InBlock(pixels, x, y, scale, row, col, px, py) {
      var row, col :| InBlock(pixels, x, y, scale, row, col, px, py);
      DivOfBlock(px - x, col, scale);
      DivOfBlock(py - y, row, scale);
    }
  }

  lemma DivBounds(d: int, s: int)
    requires s >= 1
    ensures (d / s) * s <= d < (d / s) * s + s
  {
  }

  /** An offset inside the k-th block of size s divides back to k. */
  lemma DivOfBlock(d: int, k: int, s: int)
    requires s >= 1 && k >= 0 && k * s <= d < k * s + s
    ensures d >= 0 && d / s == k
  {
    var q := d / s;
    DivBounds(d, s);
    if q < k {
      assert q * s + s <= k * s by { MulMono(q + 1, k, s); }
    } else if q > k {
      assert (k + 1) * s <= q * s by { MulMono(k + 1, q, s); }
    }
  }

  lemma MulMono(a: int, b: int, s: int)
    requires a <= b && s >= 0
    ensures a * s <= b * s
  {
  }
}
