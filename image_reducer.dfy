/**
 * The deterministic part of processImage (src/components/NonogramGenerator.tsx):
 * choosing the grid dimensions from the image's aspect ratio, and turning the
 * downscaled RGBA pixels into a solution grid by alpha and brightness.
 * The downscaling itself is done by the browser canvas; its output buffer is
 * an input here.
 */
module ImageReducer {
  import opened NonogramUtils

  /** One 8-bit channel of an RGBA sample. */
  type Byte = x: int | 0 <= x < 256

  datatype Size = Size(width: nat, height: nat)

  function Max(a: int, b: int): int { if a < b then b else a }

  /** Math.round: the nearest integer, with halves rounded up. */
  function Round(v: real): int { (v + 0.5).Floor }

  /** round(n / d) for a non-negative fraction, computed in integers. */
  function RoundDiv(n: nat, d: nat): (q: nat)
    requires d > 0
    ensures q == Round(n as real / d as real)
    ensures 2 * n - d < 2 * d * q <= 2 * n + d
  {
    var q := (2 * n + d) / (2 * d);
    RoundDivIsRound(n, d, q);
    q
  }

  lemma RoundDivIsRound(n: nat, d: nat, q: int)
    requires d > 0 && q == (2 * n + d) / (2 * d)
    ensures q == Round(n as real / d as real)
    ensures 2 * n - d < 2 * d * q <= 2 * n + d
  {
    var rem := (2 * n + d) % (2 * d);
    assert 2 * n + d == 2 * d * q + rem;
    var x := n as real / d as real;
    DivMulReal(n as real, d as real);
    var v := x + 0.5;
    var dd := (2 * d) as real;
    assert v * dd == 2.0 * (x * d as real) + d as real;
    assert (2 * d * q) as real == dd * q as real;
    Bracket(v, dd, q as real, rem as real);
  }

  /** If v * dd == q * dd + r with 0 <= r < dd, then q is the floor of v. */
  lemma Bracket(v: real, dd: real, q: real, r: real)
    requires dd > 0.0 && v * dd == q * dd + r && 0.0 <= r < dd
    ensures q <= v < q + 1.0
  {
    assert (v - q) * dd == r;
    if v < q {
      MulPos(q - v, dd);
    }
    if v >= q + 1.0 {
      MulNonNeg(v - q - 1.0, dd);
    }
  }

  lemma DivMulReal(n: real, d: real)
    requires d > 0.0
    ensures (n / d) * d == n
  {
  }

  lemma MulNonNeg(a: real, b: real)
    requires a >= 0.0 && b >= 0.0
    ensures a * b >= 0.0
  {
  }

  lemma MulPos(a: real, b: real)
    requires a > 0.0 && b > 0.0
    ensures a * b > 0.0
  {
  }

  lemma DivPos(n: real, d: real)
    requires n > 0.0 && d > 0.0
    ensures n / d > 0.0
  {
    DivMulReal(n, d);
    if n / d <= 0.0 {
      MulNonNeg(-(n / d), d);
    }
  }

  lemma ZeroProduct(a: real, b: real)
    requires b > 0.0 && a * b == 0.0
    ensures a == 0.0
  {
    if a > 0.0 { MulPos(a, b); }
    if a < 0.0 { MulPos(-a, b); }
  }

  lemma MulLe(a: int, b: int, c: nat)
    requires a <= b
    ensures a * c <= b * c
  {
  }

  /**
   * The grid dimensions: the longer side of the image gets gridSize cells and
   * the other side keeps the aspect ratio, rounded, and at least one cell.
   */
  function TargetSize(imgWidth: nat, imgHeight: nat, gridSize: nat): (s: Size)
    requires imgWidth >= 1 && imgHeight >= 1
    ensures var aspectRatio := imgWidth as real / imgHeight as real;
      if aspectRatio > 1.0 then
        s.width == gridSize && s.height == Max(1, Round(gridSize as real / aspectRatio))
      else
        s.height == gridSize && s.width == Max(1, Round(gridSize as real * aspectRatio))
  {
    if imgWidth > imgHeight then
      RatioQuotient(gridSize, imgWidth, imgHeight);
      Size(gridSize, Max(1, RoundDiv(gridSize * imgHeight, imgWidth)))
    else
      RatioProduct(gridSize, imgWidth, imgHeight);
      Size(Max(1, RoundDiv(gridSize * imgWidth, imgHeight)), gridSize)
  }

  /** gridSize / aspectRatio is the exact fraction gridSize * h / w, and the image is landscape iff w > h. */
  lemma RatioQuotient(g: nat, w: nat, h: nat)
    requires w >= 1 && h >= 1
    ensures g as real / (w as real / h as real) == (g * h) as real / w as real
    ensures (w as real / h as real > 1.0) <==> w > h
  {
    var r := w as real / h as real;
    DivMulReal(w as real, h as real);
    DivPos(w as real, h as real);
    var a := g as real / r;
    DivMulReal(g as real, r);
    var b := (g * h) as real / w as real;
    DivMulReal((g * h) as real, w as real);
    assert a * w as real == (a * r) * h as real;
    ZeroProduct(a - b, w as real);
    RatioAbove(w, h);
  }

  /** gridSize * aspectRatio is the exact fraction gridSize * w / h. */
  lemma RatioProduct(g: nat, w: nat, h: nat)
    requires w >= 1 && h >= 1
    ensures g as real * (w as real / h as real) == (g * w) as real / h as real
    ensures (w as real / h as real > 1.0) <==> w > h
  {
    var r := w as real / h as real;
    DivMulReal(w as real, h as real);
    var b := (g * w) as real / h as real;
    DivMulReal((g * w) as real, h as real);
    assert (g as real * r) * h as real == g as real * w as real;
    ZeroProduct(g as real * r - b, h as real);
    RatioAbove(w, h);
  }

  lemma RatioAbove(w: nat, h: nat)
    requires w >= 1 && h >= 1
    ensures (w as real / h as real > 1.0) <==> w > h
  {
    var r := w as real / h as real;
    DivMulReal(w as real, h as real);
    if r > 1.0 { MulPos(r - 1.0, h as real); }
    else { MulNonNeg(1.0 - r, h as real); }
  }

  /**
   * The longer side is exactly gridSize, the shorter one between 1 and
   * gridSize, and the shorter one is the nearest integer to the exact ratio
   * unless it was raised to 1.
   */
  lemma {:induction false} TargetSizeBounds(imgWidth: nat, imgHeight: nat, gridSize: nat)
    requires imgWidth >= 1 && imgHeight >= 1 && gridSize >= 1
    ensures var s := TargetSize(imgWidth, imgHeight, gridSize);
      && 1 <= s.width <= gridSize && 1 <= s.height <= gridSize
      && Max(s.width, s.height) == gridSize
      && (imgWidth > imgHeight ==> s.height == 1 || 2 * (gridSize * imgHeight) - imgWidth < 2 * imgWidth * s.height <= 2 * (gridSize * imgHeight) + imgWidth)
      && (imgWidth <= imgHeight ==> s.width == 1 || 2 * (gridSize * imgWidth) - imgHeight < 2 * imgHeight * s.width <= 2 * (gridSize * imgWidth) + imgHeight)
  {
    var s := TargetSize(imgWidth, imgHeight, gridSize);
    if imgWidth > imgHeight {
      var q := RoundDiv(gridSize * imgHeight, imgWidth);
      assert s == Size(gridSize, Max(1, q));
      ShortSideFits(gridSize, imgHeight, imgWidth);
    } else {
      var q := RoundDiv(gridSize * imgWidth, imgHeight);
      assert s == Size(Max(1, q), gridSize);
      ShortSideFits(gridSize, imgWidth, imgHeight);
    }
  }

  /** round(g * short / long) never exceeds g when short <= long. */
  lemma ShortSideFits(g: nat, short: nat, long: nat)
    requires 1 <= short <= long
    ensures RoundDiv(g * short, long) <= g
  {
    var n := g * short;
    var q := RoundDiv(n, long);
    MulLe(short, long, g);
    assert n <= g * long by {
      assert n == short * g && long * g == g * long;
    }
    assert 2 * long * (g + 1) == 2 * (g * long) + 2 * long;
    MulLtCancel(q, g + 1, 2 * long);
  }

  lemma MulLtCancel(a: int, b: int, c: int)
    requires c > 0 && c * a < c * b
    ensures a < b
  {
    if a >= b {
      MulLe(b, a, c);
    }
  }

  /** Brightness of a pixel: the mean of its three colour channels. */
  function Brightness(r: Byte, g: Byte, b: Byte): real {
    (r + g + b) as real / 3.0
  }

  /**
   * Whether a pixel becomes a filled cell: a pixel with alpha below 128 is
   * always empty; an opaque one is filled when darker than the threshold.
   */
  function IsInk(r: Byte, g: Byte, b: Byte, a: Byte, threshold: int): (ink: bool)
    ensures a < 128 ==> !ink
    ensures a >= 128 ==> (ink <==> r + g + b < 3 * threshold)
    ensures threshold <= 0 ==> !ink
    ensures r == 255 && g == 255 && b == 255 && threshold <= 255 ==> !ink
  {
    if a < 128 then false else Brightness(r, g, b) < threshold as real
  }

  /** Every sample index of the pixel (y, x) lies inside the buffer. */
  lemma PixelIndexInBounds(width: nat, height: nat, y: nat, x: nat)
    requires y < height && x < width
    ensures (y * width + x) * 4 + 3 < 4 * width * height
  {
    MulLe(y + 1, height, width);
    assert (y + 1) * width == y * width + width;
    assert height * width == width * height;
  }

  /** The classification of pixel (y, x) of a width x height RGBA buffer. */
  function PixelIsInk(data: seq<Byte>, width: nat, height: nat, y: nat, x: nat, threshold: int): bool
    requires |data| == 4 * width * height && y < height && x < width
  {
    PixelIndexInBounds(width, height, y, x);
    var i := (y * width + x) * 4;
    IsInk(data[i], data[i + 1], data[i + 2], data[i + 3], threshold)
  }

  /** The solution grid of a downscaled buffer: one row per pixel row. */
  function ReducedGrid(size: Size, data: seq<Byte>, threshold: int): (grid: seq<seq<bool>>)
    requires |data| == 4 * size.width * size.height
  {
    seq(size.height, y requires 0 <= y < size.height =>
      seq(size.width, x requires 0 <= x < size.width =>
        PixelIsInk(data, size.width, size.height, y, x, threshold)))
  }

  function Contents(grid: array2<bool>): seq<seq<bool>>
    reads grid
  {
    seq(grid.Length0, y requires 0 <= y < grid.Length0 reads grid =>
      seq(grid.Length1, x requires 0 <= x < grid.Length1 reads grid => grid[y, x]))
  }

  /** The nested loops of processImage that fill the grid in place, row by row. */
  method Classify(grid: array2<bool>, data: seq<Byte>, threshold: int)
    requires |data| == 4 * grid.Length1 * grid.Length0
    modifies grid
    ensures forall y, x :: 0 <= y < grid.Length0 && 0 <= x < grid.Length1 ==>
      grid[y, x] == PixelIsInk(data, grid.Length1, grid.Length0, y, x, threshold)
  {
    var targetHeight, targetWidth := grid.Length0, grid.Length1;
    for y := 0 to targetHeight
      invariant forall j, i :: 0 <= j < y && 0 <= i < targetWidth ==>
        grid[j, i] == PixelIsInk(data, targetWidth, targetHeight, j, i, threshold)
    {
      for x := 0 to targetWidth
        invariant forall j, i :: 0 <= j < y && 0 <= i < targetWidth ==>
          grid[j, i] == PixelIsInk(data, targetWidth, targetHeight, j, i, threshold)
        invariant forall i :: 0 <= i < x ==>
          grid[y, i] == PixelIsInk(data, targetWidth, targetHeight, y, i, threshold)
      {
        PixelIndexInBounds(targetWidth, targetHeight, y, x);
        var i := (y * targetWidth + x) * 4;
        var r: int, g: int, b: int, a: int := data[i], data[i + 1], data[i + 2], data[i + 3];
        if a < 128 {
          grid[y, x] := false;
        } else {
          var brightness := (r + g + b) as real / 3.0;
          grid[y, x] := brightness < threshold as real;
        }
      }
    }
  }

  lemma ClassifiedContents(grid: array2<bool>, size: Size, data: seq<Byte>, threshold: int)
    requires grid.Length0 == size.height && grid.Length1 == size.width
    requires |data| == 4 * size.width * size.height
    requires forall y, x :: 0 <= y < grid.Length0 && 0 <= x < grid.Length1 ==>
      grid[y, x] == PixelIsInk(data, size.width, size.height, y, x, threshold)
    ensures Contents(grid) == ReducedGrid(size, data, threshold)
    ensures Rectangular(Contents(grid))
    ensures forall y :: 0 <= y < |Contents(grid)| ==> |Contents(grid)[y]| == size.width
  {
    var cells, spec := Contents(grid), ReducedGrid(size, data, threshold);
    assert |cells| == |spec|;
    forall y | 0 <= y < |cells|
      ensures cells[y] == spec[y]
    {
      assert |cells[y]| == |spec[y]|;
    }
  }

  /**
   * processImage from the moment the downscaled pixels are available: the
   * grid has the target dimensions, every cell is classified from its pixel,
   * and the hints are those of generateNonogram.
   */
  method ProcessImage(imgWidth: nat, imgHeight: nat, gridSize: nat, threshold: int, data: seq<Byte>)
    returns (puzzle: NonogramData)
    requires imgWidth >= 1 && imgHeight >= 1 && gridSize >= 1
    requires |data| == 4 * TargetSize(imgWidth, imgHeight, gridSize).width * TargetSize(imgWidth, imgHeight, gridSize).height
    ensures var size := TargetSize(imgWidth, imgHeight, gridSize);
      && puzzle == Nonogram(ReducedGrid(size, data, threshold))
      && |puzzle.grid| == size.height && |puzzle.rows| == size.height && |puzzle.cols| == size.width
      && Rectangular(puzzle.grid) && |puzzle.grid[0]| == size.width
  {
    var size := TargetSize(imgWidth, imgHeight, gridSize);
    TargetSizeBounds(imgWidth, imgHeight, gridSize);
    var grid := new bool[size.height, size.width]((y, x) => false);
    Classify(grid, data, threshold);
    var cells := Contents(grid);
    ClassifiedContents(grid, size, data, threshold);
    puzzle := GenerateNonogram(cells);
  }

  /** A 2 x 2 opaque image, black and white on the diagonals, with threshold 128. */
  lemma CheckerboardExample()
    ensures var data := [0, 0, 0, 255,  255, 255, 255, 255,
                         255, 255, 255, 255,  0, 0, 0, 255];
      && ReducedGrid(Size(2, 2), data, 128) == [[true, false], [false, true]]
      && Nonogram([[true, false], [false, true]]) == NonogramData([[1], [1]], [[1], [1]], [[true, false], [false, true]])
  {
    CheckerboardPixels();
    CheckerboardHints();
  }

  lemma CheckerboardPixels()
    ensures var data := [0, 0, 0, 255,  255, 255, 255, 255,
                         255, 255, 255, 255,  0, 0, 0, 255];
      ReducedGrid(Size(2, 2), data, 128) == [[true, false], [false, true]]
  {
    var data: seq<Byte> := [0, 0, 0, 255,  255, 255, 255, 255,
                            255, 255, 255, 255,  0, 0, 0, 255];
    var cells := ReducedGrid(Size(2, 2), data, 128);
    assert cells[0][0] == IsInk(0, 0, 0, 255, 128);
    assert cells[0][1] == IsInk(255, 255, 255, 255, 128);
    assert cells[1][0] == IsInk(255, 255, 255, 255, 128);
    assert cells[1][1] == IsInk(0, 0, 0, 255, 128);
    assert cells[0] == [true, false];
    assert cells[1] == [false, true];
  }

  lemma CheckerboardHints()
    ensures Nonogram([[true, false], [false, true]]) == NonogramData([[1], [1]], [[1], [1]], [[true, false], [false, true]])
  {
    var grid := [[true, false], [false, true]];
    assert RowLine(grid, 0) == [true, false];
    assert RowLine(grid, 1) == [false, true];
    assert ColumnLine(grid, 0) == [true, false];
    assert ColumnLine(grid, 1) == [false, true];
    HintsOfSingle();
  }

  lemma HintsOfSingle()
    ensures LineHints([true, false]) == [1]
    ensures LineHints([false, true]) == [1]
  {
  }

  /** With alpha below 128 everywhere, every cell is empty whatever the threshold. */
  lemma TransparentImageIsEmpty(size: Size, data: seq<Byte>, threshold: int)
    requires |data| == 4 * size.width * size.height
    requires forall i :: 0 <= i < |data| && i % 4 == 3 ==> data[i] < 128
    ensures forall y, x :: 0 <= y < size.height && 0 <= x < size.width ==> !ReducedGrid(size, data, threshold)[y][x]
  {
    forall y, x | 0 <= y < size.height && 0 <= x < size.width
      ensures !ReducedGrid(size, data, threshold)[y][x]
    {
      PixelIndexInBounds(size.width, size.height, y, x);
      assert ((y * size.width + x) * 4 + 3) % 4 == 3;
    }
  }
}
