/**
 * The painter of generate-icons.js (createPNGData): it fills a square RGBA
 * buffer with a blue background, nine lighter cells of a 3×3 grid and white
 * grid lines. Each pixel's final colour is described by IconColour, which
 * says which region the pixel lies in; the painting loops are proved against it.
 */
module IconPixels {
  import opened PngIcon
  import opened Wrappers

  // ---------------------------------------------------------------------------
  // Colours and geometry

  const Background: seq<Byte> := [25, 118, 210, 255]
  const GridLine: seq<Byte> := [255, 255, 255, 255]
  const CellFill: seq<Byte> := [33, 150, 243, 255]

  /** Side of the grid: what is left of the icon after the padding on both sides. */
  function GridSize(size: nat, padding: nat): int {
    size - padding * 2
  }

  /** Math.floor(gridSize / 3): Dafny's division by a positive divisor rounds down, as Math.floor does. */
  function CellSize(size: nat, padding: nat): int {
    GridSize(size, padding) / 3
  }

  /** Math.max(1, Math.floor(size / 50)). */
  function LineWidth(size: nat): nat {
    if size / 50 < 1 then 1 else size / 50
  }

  /** The pixel (px, py) is in the w×h rectangle whose top-left corner is (x, y). */
  predicate InRect(px: int, py: int, x: int, y: int, w: int, h: int) {
    x <= px < x + w && y <= py < y + h
  }

  /** The cell in row row and column col: its square of the grid, inset 2 pixels on every side. */
  predicate InCell(size: nat, padding: nat, row: int, col: int, px: int, py: int) {
    var cs := CellSize(size, padding);
    InRect(px, py, padding + col * cs + 2, padding + row * cs + 2, cs - 4, cs - 4)
  }

  /** Vertical grid line i: lineWidth pixels wide, from the top of the grid to its bottom. */
  predicate OnVertical(size: nat, padding: nat, i: int, px: int, py: int) {
    InRect(px, py, padding + i * CellSize(size, padding), padding, LineWidth(size), GridSize(size, padding))
  }

  /** Horizontal grid line i: lineWidth pixels high, from the left of the grid to its right. */
  predicate OnHorizontal(size: nat, padding: nat, i: int, px: int, py: int) {
    InRect(px, py, padding, padding + i * CellSize(size, padding), GridSize(size, padding), LineWidth(size))
  }

  /** The pixel is in one of the cells that come before (row, col) in row-major order. */
  predicate CellBefore(size: nat, padding: nat, row: int, col: int, px: int, py: int) {
    exists r, c :: 0 <= r < 3 && 0 <= c < 3 && (r < row || (r == row && c < col)) && InCell(size, padding, r, c, px, py)
  }

  /** The pixel is on one of the vertical lines 0 .. n - 1. */
  predicate VerticalBefore(size: nat, padding: nat, n: int, px: int, py: int) {
    exists i :: 0 <= i < n && OnVertical(size, padding, i, px, py)
  }

  /** The pixel is on one of the horizontal lines 0 .. n - 1. */
  predicate HorizontalBefore(size: nat, padding: nat, n: int, px: int, py: int) {
    exists i :: 0 <= i < n && OnHorizontal(size, padding, i, px, py)
  }

  predicate InSomeCell(size: nat, padding: nat, px: int, py: int) {
    exists r, c :: 0 <= r < 3 && 0 <= c < 3 && InCell(size, padding, r, c, px, py)
  }

  /** One of the four vertical or four horizontal lines (i = 0 .. 3) passes through the pixel. */
  predicate OnSomeLine(size: nat, padding: nat, px: int, py: int) {
    VerticalBefore(size, padding, 4, px, py) || HorizontalBefore(size, padding, 4, px, py)
  }

  /** The colour the icon shows at (px, py): lines are drawn over cells, cells over the background. */
  function IconColour(size: nat, padding: nat, px: int, py: int): seq<Byte> {
    if OnSomeLine(size, padding, px, py) then GridLine
    else if InSomeCell(size, padding, px, py) then CellFill
    else Background
  }

  // ---------------------------------------------------------------------------
  // Properties of the picture

  /** Every pixel is opaque and has one of the three colours. */
  lemma IconColours(size: nat, padding: nat, px: int, py: int)
    ensures IconColour(size, padding, px, py) in {Background, GridLine, CellFill}
    ensures IconColour(size, padding, px, py)[3] == 255
  {
  }

  /** The padding strip on the left and at the top is background: lines start at padding, cells 2 pixels further in. */
  lemma MarginIsBackground(size: nat, padding: nat, px: int, py: int)
    requires padding * 2 <= size
    requires px < padding || py < padding
    ensures IconColour(size, padding, px, py) == Background
  {
    var cs := CellSize(size, padding);
    assert cs >= 0;
    forall r, c | 0 <= r < 3 && 0 <= c < 3
      ensures !InCell(size, padding, r, c, px, py)
    {
      assert r * cs >= 0 && c * cs >= 0;
    }
    forall i | 0 <= i < 4
      ensures !OnVertical(size, padding, i, px, py) && !OnHorizontal(size, padding, i, px, py)
    {
      assert i * cs >= 0;
    }
  }

  /** Past the last vertical line on the right, and below the last horizontal line, the icon is background. */
  lemma FarMarginIsBackground(size: nat, padding: nat, px: int, py: int)
    requires padding * 2 <= size
    requires px >= size - padding + LineWidth(size) || py >= size - padding + LineWidth(size)
    ensures IconColour(size, padding, px, py) == Background
  {
    var cs := CellSize(size, padding);
    assert 0 <= 3 * cs <= GridSize(size, padding);
    forall k | 0 <= k < 4
      ensures k * cs <= 3 * cs
    {
      MulMono(k, 3, cs);
    }
  }

  /** The picture is symmetric about its main diagonal: the grid is the same read by rows or by columns. */
  lemma IconSymmetric(size: nat, padding: nat, px: int, py: int)
    ensures IconColour(size, padding, px, py) == IconColour(size, padding, py, px)
  {
    assert InSomeCell(size, padding, px, py) <==> InSomeCell(size, padding, py, px) by {
      if InSomeCell(size, padding, px, py) {
        var r, c :| 0 <= r < 3 && 0 <= c < 3 && InCell(size, padding, r, c, px, py);
        assert InCell(size, padding, c, r, py, px);
      }
      if InSomeCell(size, padding, py, px) {
        var r, c :| 0 <= r < 3 && 0 <= c < 3 && InCell(size, padding, r, c, py, px);
        assert InCell(size, padding, c, r, px, py);
      }
    }
    forall i | 0 <= i < 4
      ensures OnVertical(size, padding, i, px, py) <==> OnHorizontal(size, padding, i, py, px)
      ensures OnHorizontal(size, padding, i, px, py) <==> OnVertical(size, padding, i, py, px)
    {
    }
  }

  /** No pixel lies in two cells, so the order in which the source paints the cells does not matter. */
  lemma CellsDisjoint(size: nat, padding: nat, r: int, c: int, r2: int, c2: int, px: int, py: int)
    requires padding * 2 <= size
    requires 0 <= r < 3 && 0 <= c < 3 && 0 <= r2 < 3 && 0 <= c2 < 3
    requires InCell(size, padding, r, c, px, py) && InCell(size, padding, r2, c2, px, py)
    ensures r == r2 && c == c2
  {
    var cs := CellSize(size, padding);
    if c < c2 {
      MulSucc(c, cs);
      MulMono(c + 1, c2, cs);
    } else if c2 < c {
      MulSucc(c2, cs);
      MulMono(c2 + 1, c, cs);
    }
    if r < r2 {
      MulSucc(r, cs);
      MulMono(r + 1, r2, cs);
    } else if r2 < r {
      MulSucc(r2, cs);
      MulMono(r2 + 1, r, cs);
    }
  }

  // ---------------------------------------------------------------------------
  // The pixel buffer: four bytes per pixel, row by row

  /** Pixel number n of the buffer (the source's index i * 4 .. i * 4 + 3). */
  function PixelAt(s: seq<Byte>, n: nat): (r: seq<Byte>)
    requires 4 * n + 4 <= |s|
    ensures |r| == 4
  {
    s[4 * n..4 * n + 4]
  }

  /** Pixel (px, py) is pixel number py * size + px, inside a size×size buffer. */
  lemma PixelBound(size: nat, px: nat, py: nat)
    requires px < size && py < size
    ensures 4 * (py * size + px) + 4 <= size * size * 4
  {
    MulSucc(py, size);
    MulMono(py + 1, size, size);
  }

  /** Two different pixels of a row-major buffer have different numbers. */
  lemma PixelsDistinct(size: nat, px: nat, py: nat, qx: nat, qy: nat)
    requires px < size && qx < size
    requires px != qx || py != qy
    ensures py * size + px != qy * size + qx
  {
    if py < qy {
      MulSucc(py, size);
      MulMono(py + 1, qy, size);
    } else if qy < py {
      MulSucc(qy, size);
      MulMono(qy + 1, py, size);
    }
  }

  /** The colour of pixel (px, py) of a size×size buffer. */
  function Pixel(s: seq<Byte>, size: nat, px: int, py: int): (r: seq<Byte>)
    requires |s| == size * size * 4
    requires 0 <= px < size && 0 <= py < size
    ensures |r| == 4
  {
    PixelBound(size, px, py);
    PixelAt(s, py * size + px)
  }

  // ---------------------------------------------------------------------------
  // Painting

  /** The four assignments of one pixel: data[idx], ..., data[idx + 3] := r, g, b, a. */
  method SetPixel(data: array<Byte>, n: nat, colour: seq<Byte>)
    requires 4 * n + 4 <= data.Length && |colour| == 4
    modifies data
    ensures PixelAt(data[..], n) == colour
    ensures forall m: nat :: 4 * m + 4 <= data.Length && m != n ==> PixelAt(data[..], m) == PixelAt(old(data[..]), m)
  {
    data[4 * n] := colour[0];
    data[4 * n + 1] := colour[1];
    data[4 * n + 2] := colour[2];
    data[4 * n + 3] := colour[3];
  }

  /** Paints pixel (px, py) and leaves every other pixel as it was. */
  method PaintPixel(data: array<Byte>, size: nat, px: nat, py: nat, colour: seq<Byte>)
    requires data.Length == size * size * 4 && |colour| == 4
    requires px < size && py < size
    modifies data
    ensures Pixel(data[..], size, px, py) == colour
    ensures forall qx, qy :: 0 <= qx < size && 0 <= qy < size && (qx != px || qy != py) ==>
      Pixel(data[..], size, qx, qy) == Pixel(old(data[..]), size, qx, qy)
  {
    PixelBound(size, px, py);
    SetPixel(data, py * size + px, colour);
    forall qx, qy | 0 <= qx < size && 0 <= qy < size && (qx != px || qy != py)
      ensures Pixel(data[..], size, qx, qy) == Pixel(old(data[..]), size, qx, qy)
    {
      PixelBound(size, qx, qy);
      PixelsDistinct(size, px, py, qx, qy);
    }
  }

  /**
   * The nested loops of the source that paint a w×h rectangle from (x, y),
   * row by row, stopping at the right and bottom edges of the icon.
   */
  method FillRect(data: array<Byte>, size: nat, x: int, y: int, w: int, h: int, colour: seq<Byte>)
    requires data.Length == size * size * 4 && |colour| == 4
    requires 0 <= x && 0 <= y
    modifies data
    ensures forall px, py :: 0 <= px < size && 0 <= py < size ==>
      Pixel(data[..], size, px, py) == if InRect(px, py, x, y, w, h) then colour else Pixel(old(data[..]), size, px, py)
  {
    var py := y;
    while py < y + h && py < size
      invariant y <= py && (py == y || py <= y + h)
      invariant forall qx, qy :: 0 <= qx < size && 0 <= qy < size ==>
        Pixel(data[..], size, qx, qy) == if InRect(qx, qy, x, y, w, py - y) then colour else Pixel(old(data[..]), size, qx, qy)
      decreases size - py
    {
      var px := x;
      while px < x + w && px < size
        invariant x <= px && (px == x || px <= x + w)
        invariant forall qx, qy :: 0 <= qx < size && 0 <= qy < size ==>
          Pixel(data[..], size, qx, qy) ==
            if InRect(qx, qy, x, y, w, py - y) || (qy == py && x <= qx < px) then colour else Pixel(old(data[..]), size, qx, qy)
        decreases size - px
      {
        PaintPixel(data, size, px, py, colour);
        px := px + 1;
      }
      py := py + 1;
    }
  }

  /** The background loop: every pixel number i < size * size gets the background colour. */
  method FillBackground(data: array<Byte>, size: nat)
    requires data.Length == size * size * 4
    modifies data
    ensures forall px, py :: 0 <= px < size && 0 <= py < size ==> Pixel(data[..], size, px, py) == Background
  {
    for i := 0 to size * size
      invariant forall j: nat :: j < i ==> PixelAt(data[..], j) == Background
    {
      SetPixel(data, i, Background);
    }
    forall px, py | 0 <= px < size && 0 <= py < size
      ensures Pixel(data[..], size, px, py) == Background
    {
      PixelBound(size, px, py);
    }
  }

  lemma CellStep(size: nat, padding: nat, row: int, col: int, px: int, py: int)
    requires 0 <= row < 3 && 0 <= col < 3
    ensures CellBefore(size, padding, row, col + 1, px, py) == (CellBefore(size, padding, row, col, px, py) || InCell(size, padding, row, col, px, py))
  {
    if CellBefore(size, padding, row, col + 1, px, py) {
      var r, c :| 0 <= r < 3 && 0 <= c < 3 && (r < row || (r == row && c < col + 1)) && InCell(size, padding, r, c, px, py);
      if r != row || c != col {
        assert CellBefore(size, padding, row, col, px, py);
      }
    }
  }

  lemma RowStep(size: nat, padding: nat, row: int, px: int, py: int)
    requires 0 <= row < 3
    ensures CellBefore(size, padding, row, 3, px, py) == CellBefore(size, padding, row + 1, 0, px, py)
  {
    if CellBefore(size, padding, row + 1, 0, px, py) {
      var r, c :| 0 <= r < 3 && 0 <= c < 3 && (r < row + 1 || (r == row + 1 && c < 0)) && InCell(size, padding, r, c, px, py);
      assert r < row || (r == row && c < 3);
    }
  }

  /** The 3×3 loop over rows and columns that fills the cells. */
  method PaintCells(data: array<Byte>, size: nat, padding: nat)
    requires data.Length == size * size * 4 && padding * 2 <= size
    modifies data
    ensures forall px, py :: 0 <= px < size && 0 <= py < size ==>
      Pixel(data[..], size, px, py) == if InSomeCell(size, padding, px, py) then CellFill else Pixel(old(data[..]), size, px, py)
  {
    var gridSize := size - padding * 2;
    var cellSize := gridSize / 3;
    for row := 0 to 3
      invariant forall px, py :: 0 <= px < size && 0 <= py < size ==>
        Pixel(data[..], size, px, py) == if CellBefore(size, padding, row, 0, px, py) then CellFill else Pixel(old(data[..]), size, px, py)
    {
      for col := 0 to 3
        invariant forall px, py :: 0 <= px < size && 0 <= py < size ==>
          Pixel(data[..], size, px, py) == if CellBefore(size, padding, row, col, px, py) then CellFill else Pixel(old(data[..]), size, px, py)
      {
        var x := padding + col * cellSize + 2;
        var y := padding + row * cellSize + 2;
        var w := cellSize - 4;
        var h := cellSize - 4;
        FillRect(data, size, x, y, w, h, CellFill);
        forall px, py | 0 <= px < size && 0 <= py < size
          ensures CellBefore(size, padding, row, col + 1, px, py) == (CellBefore(size, padding, row, col, px, py) || InCell(size, padding, row, col, px, py))
        {
          CellStep(size, padding, row, col, px, py);
        }
      }
      forall px, py | 0 <= px < size && 0 <= py < size
        ensures CellBefore(size, padding, row, 3, px, py) == CellBefore(size, padding, row + 1, 0, px, py)
      {
        RowStep(size, padding, row, px, py);
      }
    }
  }

  lemma VerticalStep(size: nat, padding: nat, i: int, px: int, py: int)
    requires 0 <= i
    ensures VerticalBefore(size, padding, i + 1, px, py) == (VerticalBefore(size, padding, i, px, py) || OnVertical(size, padding, i, px, py))
  {
    if VerticalBefore(size, padding, i + 1, px, py) && !OnVertical(size, padding, i, px, py) {
      var j :| 0 <= j < i + 1 && OnVertical(size, padding, j, px, py);
      assert j < i;
    }
  }

  lemma HorizontalStep(size: nat, padding: nat, i: int, px: int, py: int)
    requires 0 <= i
    ensures HorizontalBefore(size, padding, i + 1, px, py) == (HorizontalBefore(size, padding, i, px, py) || OnHorizontal(size, padding, i, px, py))
  {
    if HorizontalBefore(size, padding, i + 1, px, py) && !OnHorizontal(size, padding, i, px, py) {
      var j :| 0 <= j < i + 1 && OnHorizontal(size, padding, j, px, py);
      assert j < i;
    }
  }

  /** The loop that draws the vertical lines i = 0 .. 3. */
  method PaintVerticals(data: array<Byte>, size: nat, padding: nat)
    requires data.Length == size * size * 4 && padding * 2 <= size
    modifies data
    ensures forall px, py :: 0 <= px < size && 0 <= py < size ==>
      Pixel(data[..], size, px, py) == if VerticalBefore(size, padding, 4, px, py) then GridLine else Pixel(old(data[..]), size, px, py)
  {
    var gridSize := size - padding * 2;
    var cellSize := gridSize / 3;
    var lineWidth := if size / 50 < 1 then 1 else size / 50;
    for i := 0 to 4
      invariant forall px, py :: 0 <= px < size && 0 <= py < size ==>
        Pixel(data[..], size, px, py) == if VerticalBefore(size, padding, i, px, py) then GridLine else Pixel(old(data[..]), size, px, py)
    {
      var x := padding + i * cellSize;
      FillRect(data, size, x, padding, lineWidth, gridSize, GridLine);
      forall px, py | 0 <= px < size && 0 <= py < size
        ensures VerticalBefore(size, padding, i + 1, px, py) == (VerticalBefore(size, padding, i, px, py) || OnVertical(size, padding, i, px, py))
      {
        VerticalStep(size, padding, i, px, py);
      }
    }
  }

  /** The loop that draws the horizontal lines i = 0 .. 3. */
  method PaintHorizontals(data: array<Byte>, size: nat, padding: nat)
    requires data.Length == size * size * 4 && padding * 2 <= size
    modifies data
    ensures forall px, py :: 0 <= px < size && 0 <= py < size ==>
      Pixel(data[..], size, px, py) == if HorizontalBefore(size, padding, 4, px, py) then GridLine else Pixel(old(data[..]), size, px, py)
  {
    var gridSize := size - padding * 2;
    var cellSize := gridSize / 3;
    var lineWidth := if size / 50 < 1 then 1 else size / 50;
    for i := 0 to 4
      invariant forall px, py :: 0 <= px < size && 0 <= py < size ==>
        Pixel(data[..], size, px, py) == if HorizontalBefore(size, padding, i, px, py) then GridLine else Pixel(old(data[..]), size, px, py)
    {
      var y := padding + i * cellSize;
      FillRect(data, size, padding, y, gridSize, lineWidth, GridLine);
      forall px, py | 0 <= px < size && 0 <= py < size
        ensures HorizontalBefore(size, padding, i + 1, px, py) == (HorizontalBefore(size, padding, i, px, py) || OnHorizontal(size, padding, i, px, py))
      {
        HorizontalStep(size, padding, i, px, py);
      }
    }
  }

  /**
   * createPNGData: a size×size RGBA buffer whose every pixel has the colour
   * IconColour gives it. padding is the source's Math.floor(size * 0.15).
   */
  method CreatePngData(size: nat, padding: nat) returns (data: array<Byte>)
    requires padding * 2 <= size
    ensures data.Length == size * size * 4
    ensures forall px, py :: 0 <= px < size && 0 <= py < size ==> Pixel(data[..], size, px, py) == IconColour(size, padding, px, py)
  {
    data := new Byte[size * size * 4];
    FillBackground(data, size);
    PaintCells(data, size, padding);
    PaintVerticals(data, size, padding);
    PaintHorizontals(data, size, padding);
  }

  /**
   * generateIcon without the file write: the painted pixels and the PNG file
   * that encodes them. For a non-empty icon whose zlib stream fits the 32-bit
   * length field, the file decodes back to exactly those pixels.
   */
  method GenerateIcon(size: nat, padding: nat) returns (png: seq<Byte>, pixels: seq<Byte>)
    requires padding * 2 <= size
    ensures |pixels| == size * size * 4
    ensures forall px, py :: 0 <= px < size && 0 <= py < size ==> Pixel(pixels, size, px, py) == IconColour(size, padding, px, py)
    ensures png == Png(size, size, pixels)
    ensures 0 < size < 0x1_0000_0000 && |ZlibStream(Scanlines(pixels, size, size, 0))| < 0x1_0000_0000 ==>
      ParsePng(png) == Some(Image(size, size, pixels))
  {
    var data := CreatePngData(size, padding);
    pixels := data[..];
    SquareBytes(size);
    png := EncodePng(size, size, pixels);
    if 0 < size < 0x1_0000_0000 && |ZlibStream(Scanlines(pixels, size, size, 0))| < 0x1_0000_0000 {
      PngRoundTrip(size, size, pixels);
    }
  }

  lemma SquareBytes(size: nat)
    ensures size * (4 * size) == size * size * 4
  {
  }
}
