/**
 * generateSVG (src/components/NonogramGenerator.tsx): the vector export of a
 * puzzle. The encoder emits, in order, one rectangle and its border lines per
 * cell, then the row hints, then the column hints; each `svg +=` of the
 * source is one drawing element here, and a separate serializer turns the
 * element list into markup.
 */
module SvgExport {
  import opened NonogramUtils

  /** Side of one cell, in SVG user units. */
  const CellSize: int := 30

  /** cellSize / 2, exact for cellSize = 30. */
  const HalfCell: int := 15

  /** The hint text baseline sits 4 units below the middle of its slot. */
  const BaselineShift: int := 4

  datatype Color = Black | White

  /** One drawing element of the vector document. */
  datatype Element =
    | Rect(x: int, y: int, fill: Color)                        // a CellSize square, class "cell"
    | Line(x1: int, y1: int, x2: int, y2: int, thick: bool)    // class "thick-border" or "cell-border"
    | Text(x: int, y: int, hint: nat)                          // a hint, centred on (x, y)

  /** Margins in hint slots, and the canvas size in units. */
  datatype Layout = Layout(rowSlots: nat, colSlots: nat, width: int, height: int)

  /** Math.max over the lengths of the hint lists. */
  function MaxLength(lists: seq<seq<nat>>): (m: nat)
    requires |lists| >= 1
    ensures forall i :: 0 <= i < |lists| ==> |lists[i]| <= m
    ensures exists i :: 0 <= i < |lists| && |lists[i]| == m
  {
    if |lists| == 1 then |lists[0]|
    else
      var rest := MaxLength(lists[1..]);
      assert forall i :: 1 <= i < |lists| ==> lists[i] == lists[1..][i - 1];
      if |lists[0]| > rest then |lists[0]| else rest
  }

  /**
   * What generateSVG needs: a first grid row to read the width from, and at
   * least one hint list on each side for Math.max to return a number.
   */
  predicate Drawable(d: NonogramData) {
    |d.grid| >= 1 && |d.rows| >= 1 && |d.cols| >= 1
  }

  /** A puzzle as generateNonogram builds it: rectangular, with one hint list per row and per column. */
  predicate WellFormed(d: NonogramData) {
    && Drawable(d)
    && Rectangular(d.grid)
    && |d.rows| == |d.grid|
    && |d.cols| == |d.grid[0]|
  }

  /**
   * The margins hold the longest row hint list on the left and the longest
   * column hint list on top; the canvas is the margins plus the grid.
   */
  function LayoutOf(d: NonogramData): (l: Layout)
    requires Drawable(d)
    ensures forall i :: 0 <= i < |d.rows| ==> |d.rows[i]| <= l.rowSlots
    ensures exists i :: 0 <= i < |d.rows| && |d.rows[i]| == l.rowSlots
    ensures forall i :: 0 <= i < |d.cols| ==> |d.cols[i]| <= l.colSlots
    ensures exists i :: 0 <= i < |d.cols| && |d.cols[i]| == l.colSlots
    ensures l.width == (l.rowSlots + |d.grid[0]|) * CellSize
    ensures l.height == (l.colSlots + |d.grid|) * CellSize
  {
    var rowSlots := MaxLength(d.rows);
    var colSlots := MaxLength(d.cols);
    Layout(rowSlots, colSlots, (rowSlots + |d.grid[0]|) * CellSize, (colSlots + |d.grid|) * CellSize)
  }

  /**
   * Margin slot of hint i in a list of `count` hints: the lists are pushed
   * against the grid, so the last hint is always in the slot next to it.
   */
  function HintSlot(slots: nat, count: nat, i: nat): (slot: int)
    ensures count <= slots && i < count ==> 0 <= slot < slots
    ensures count <= slots && count > 0 ==> (i == count - 1 <==> slot == slots - 1)
  {
    slots - count + i
  }

  // ---------------------------------------------------------------------
  // The elements, cell by cell and hint by hint, in the encoder's order
  // ---------------------------------------------------------------------

  function CellColor(show: bool, cell: bool): Color {
    if show && cell then Black else White
  }

  /**
   * The elements of cell (y, x): its rectangle, its left and top lines, its
   * right line when it is the last of its row or before a multiple of five,
   * its bottom line when it is in the last row or above a multiple of five.
   */
  function CellElements(l: Layout, grid: seq<seq<bool>>, show: bool, y: nat, x: nat): seq<Element>
    requires y < |grid| && x < |grid[y]|
  {
    CellCore(l, grid, show, y, x) + RightLine(l, |grid[y]|, y, x) + BottomLine(l, |grid|, y, x)
  }

  function CellCore(l: Layout, grid: seq<seq<bool>>, show: bool, y: nat, x: nat): seq<Element>
    requires y < |grid| && x < |grid[y]|
  {
    var px, py := (l.rowSlots + x) * CellSize, (l.colSlots + y) * CellSize;
    [Rect(px, py, CellColor(show, grid[y][x])),
     Line(px, py, px, py + CellSize, x % 5 == 0),
     Line(px, py, px + CellSize, py, y % 5 == 0)]
  }

  function RightLine(l: Layout, width: nat, y: nat, x: nat): seq<Element> {
    var px, py := (l.rowSlots + x) * CellSize, (l.colSlots + y) * CellSize;
    if x == width - 1 || (x + 1) % 5 == 0 then [Line(px + CellSize, py, px + CellSize, py + CellSize, (x + 1) % 5 == 0)]
    else []
  }

  function BottomLine(l: Layout, height: nat, y: nat, x: nat): seq<Element> {
    var px, py := (l.rowSlots + x) * CellSize, (l.colSlots + y) * CellSize;
    if y == height - 1 || (y + 1) % 5 == 0 then [Line(px, py + CellSize, px + CellSize, py + CellSize, (y + 1) % 5 == 0)]
    else []
  }

  /** The elements of the first n cells of row y. */
  function RowCells(l: Layout, grid: seq<seq<bool>>, show: bool, y: nat, n: nat): seq<Element>
    requires y < |grid| && n <= |grid[y]|
  {
    if n == 0 then [] else RowCells(l, grid, show, y, n - 1) + CellElements(l, grid, show, y, n - 1)
  }

  /** The elements of all cells of the first n rows. */
  function GridCells(l: Layout, grid: seq<seq<bool>>, show: bool, n: nat): seq<Element>
    requires n <= |grid|
  {
    if n == 0 then [] else GridCells(l, grid, show, n - 1) + RowCells(l, grid, show, n - 1, |grid[n - 1]|)
  }

  /** Hint i of row y, in the left margin, on the row's middle line. */
  function RowHintText(l: Layout, rows: seq<seq<nat>>, y: nat, i: nat): Element
    requires y < |rows| && i < |rows[y]|
  {
    Text(HintSlot(l.rowSlots, |rows[y]|, i) * CellSize + HalfCell,
         (l.colSlots + y) * CellSize + HalfCell + BaselineShift,
         rows[y][i])
  }

  /** Hint i of column x, in the top margin, on the column's middle line. */
  function ColHintText(l: Layout, cols: seq<seq<nat>>, x: nat, i: nat): Element
    requires x < |cols| && i < |cols[x]|
  {
    Text((l.rowSlots + x) * CellSize + HalfCell,
         HintSlot(l.colSlots, |cols[x]|, i) * CellSize + HalfCell + BaselineShift,
         cols[x][i])
  }

  function RowHintTexts(l: Layout, rows: seq<seq<nat>>, y: nat, n: nat): seq<Element>
    requires y < |rows| && n <= |rows[y]|
  {
    if n == 0 then [] else RowHintTexts(l, rows, y, n - 1) + [RowHintText(l, rows, y, n - 1)]
  }

  function AllRowHints(l: Layout, rows: seq<seq<nat>>, n: nat): seq<Element>
    requires n <= |rows|
  {
    if n == 0 then [] else AllRowHints(l, rows, n - 1) + RowHintTexts(l, rows, n - 1, |rows[n - 1]|)
  }

  function ColHintTexts(l: Layout, cols: seq<seq<nat>>, x: nat, n: nat): seq<Element>
    requires x < |cols| && n <= |cols[x]|
  {
    if n == 0 then [] else ColHintTexts(l, cols, x, n - 1) + [ColHintText(l, cols, x, n - 1)]
  }

  function AllColHints(l: Layout, cols: seq<seq<nat>>, n: nat): seq<Element>
    requires n <= |cols|
  {
    if n == 0 then [] else AllColHints(l, cols, n - 1) + ColHintTexts(l, cols, n - 1, |cols[n - 1]|)
  }

  /** Every element of the document body, in the order the encoder appends them. */
  function Drawing(d: NonogramData, show: bool): seq<Element>
    requires Drawable(d)
  {
    var l := LayoutOf(d);
    GridCells(l, d.grid, show, |d.grid|) + AllRowHints(l, d.rows, |d.rows|) + AllColHints(l, d.cols, |d.cols|)
  }

  // ---------------------------------------------------------------------
  // The encoder's loops
  // ---------------------------------------------------------------------

  /** The first forEach pass of generateSVG: every cell with its borders, row by row. */
  method DrawCells(l: Layout, grid: seq<seq<bool>>, showSolution: bool) returns (els: seq<Element>)
    ensures els == GridCells(l, grid, showSolution, |grid|)
  {
    els := [];
    var rowIndex := 0;
    while rowIndex < |grid|
      invariant 0 <= rowIndex <= |grid|
      invariant els == GridCells(l, grid, showSolution, rowIndex)
    {
      var row := DrawRow(l, grid, showSolution, rowIndex);
      els := els + row;
      rowIndex := rowIndex + 1;
    }
  }

  /** The inner forEach over the cells of one row. */
  method DrawRow(l: Layout, grid: seq<seq<bool>>, showSolution: bool, rowIndex: nat) returns (els: seq<Element>)
    requires rowIndex < |grid|
    ensures els == RowCells(l, grid, showSolution, rowIndex, |grid[rowIndex]|)
  {
    els := [];
    var colIndex := 0;
    while colIndex < |grid[rowIndex]|
      invariant 0 <= colIndex <= |grid[rowIndex]|
      invariant els == RowCells(l, grid, showSolution, rowIndex, colIndex)
    {
      var cell := DrawCell(l, grid, showSolution, rowIndex, colIndex);
      els := els + cell;
      colIndex := colIndex + 1;
    }
  }

  /** The body of the cell loop: the rectangle, then the lines the cell owns. */
  method DrawCell(l: Layout, grid: seq<seq<bool>>, showSolution: bool, rowIndex: nat, colIndex: nat) returns (cell: seq<Element>)
    requires rowIndex < |grid| && colIndex < |grid[rowIndex]|
    ensures cell == CellElements(l, grid, showSolution, rowIndex, colIndex)
  {
    var row := grid[rowIndex];
    var x := (l.rowSlots + colIndex) * CellSize;
    var y := (l.colSlots + rowIndex) * CellSize;
    var isThickLeft := colIndex % 5 == 0;
    var isThickTop := rowIndex % 5 == 0;
    var isThickRight := (colIndex + 1) % 5 == 0;
    var isThickBottom := (rowIndex + 1) % 5 == 0;
    cell := [Rect(x, y, if showSolution && row[colIndex] then Black else White),
             Line(x, y, x, y + CellSize, isThickLeft),
             Line(x, y, x + CellSize, y, isThickTop)];
    assert cell == CellCore(l, grid, showSolution, rowIndex, colIndex);
    var right: seq<Element> := [];
    if colIndex == |row| - 1 || isThickRight {
      right := [Line(x + CellSize, y, x + CellSize, y + CellSize, isThickRight)];
    }
    assert right == RightLine(l, |row|, rowIndex, colIndex);
    var bottom: seq<Element> := [];
    if rowIndex == |grid| - 1 || isThickBottom {
      bottom := [Line(x, y + CellSize, x + CellSize, y + CellSize, isThickBottom)];
    }
    assert bottom == BottomLine(l, |grid|, rowIndex, colIndex);
    cell := cell + right + bottom;
  }

  /** The second forEach pass: each row's hints, right-aligned against the grid. */
  method DrawRowHints(l: Layout, rows: seq<seq<nat>>) returns (els: seq<Element>)
    ensures els == AllRowHints(l, rows, |rows|)
  {
    els := [];
    var rowIndex := 0;
    while rowIndex < |rows|
      invariant 0 <= rowIndex <= |rows|
      invariant els == AllRowHints(l, rows, rowIndex)
    {
      var hints := rows[rowIndex];
      var hintIndex := 0;
      while hintIndex < |hints|
        invariant 0 <= hintIndex <= |hints|
        invariant els == AllRowHints(l, rows, rowIndex) + RowHintTexts(l, rows, rowIndex, hintIndex)
      {
        var x := (l.rowSlots - |hints| + hintIndex) * CellSize + HalfCell;
        var y := (l.colSlots + rowIndex) * CellSize + HalfCell + BaselineShift;
        els := els + [Text(x, y, hints[hintIndex])];
        hintIndex := hintIndex + 1;
      }
      rowIndex := rowIndex + 1;
    }
  }

  /** The third forEach pass: each column's hints, bottom-aligned against the grid. */
  method DrawColHints(l: Layout, cols: seq<seq<nat>>) returns (els: seq<Element>)
    ensures els == AllColHints(l, cols, |cols|)
  {
    els := [];
    var colIndex := 0;
    while colIndex < |cols|
      invariant 0 <= colIndex <= |cols|
      invariant els == AllColHints(l, cols, colIndex)
    {
      var hints := cols[colIndex];
      var hintIndex := 0;
      while hintIndex < |hints|
        invariant 0 <= hintIndex <= |hints|
        invariant els == AllColHints(l, cols, colIndex) + ColHintTexts(l, cols, colIndex, hintIndex)
      {
        var x := (l.rowSlots + colIndex) * CellSize + HalfCell;
        var y := (l.colSlots - |hints| + hintIndex) * CellSize + HalfCell + BaselineShift;
        els := els + [Text(x, y, hints[hintIndex])];
        hintIndex := hintIndex + 1;
      }
      colIndex := colIndex + 1;
    }
  }

  /** The body of generateSVG: the three passes, one after the other. */
  method DrawPuzzle(d: NonogramData, showSolution: bool) returns (els: seq<Element>)
    requires Drawable(d)
    ensures els == Drawing(d, showSolution)
  {
    var l := LayoutOf(d);
    var cells := DrawCells(l, d.grid, showSolution);
    var rowHints := DrawRowHints(l, d.rows);
    var colHints := DrawColHints(l, d.cols);
    els := cells + rowHints + colHints;
  }

  /** generateSVG: the document header, every element in order, and the closing tag. */
  method GenerateSvg(d: NonogramData, showSolution: bool) returns (svg: string)
    requires Drawable(d)
    ensures svg == Document(LayoutOf(d), Drawing(d, showSolution))
    ensures |svg| >= |SvgOpen| + |SvgClose|
    ensures svg[..|SvgOpen|] == SvgOpen && svg[|svg| - |SvgClose|..] == SvgClose
  {
    var els := DrawPuzzle(d, showSolution);
    svg := Document(LayoutOf(d), els);
  }

  // ---------------------------------------------------------------------
  // Geometry: what the drawing is made of
  // ---------------------------------------------------------------------

  /** The square of cell (y, x), black only when the solution is shown and the cell is filled. */
  function CellSquare(l: Layout, grid: seq<seq<bool>>, show: bool, y: nat, x: nat): Element
    requires y < |grid| && x < |grid[y]|
  {
    Rect((l.rowSlots + x) * CellSize, (l.colSlots + y) * CellSize, CellColor(show, grid[y][x]))
  }

  /** The piece of vertical grid line k (0 at the left edge) beside row y; every fifth line is thick. */
  function VerticalSegment(l: Layout, k: nat, y: nat): Element {
    Line((l.rowSlots + k) * CellSize, (l.colSlots + y) * CellSize,
         (l.rowSlots + k) * CellSize, (l.colSlots + y + 1) * CellSize, k % 5 == 0)
  }

  /** The piece of horizontal grid line k (0 at the top edge) above column x; every fifth line is thick. */
  function HorizontalSegment(l: Layout, x: nat, k: nat): Element {
    Line((l.rowSlots + x) * CellSize, (l.colSlots + k) * CellSize,
         (l.rowSlots + x + 1) * CellSize, (l.colSlots + k) * CellSize, k % 5 == 0)
  }

  /** e is one of the parts a puzzle picture consists of. */
  ghost predicate Placed(d: NonogramData, show: bool, e: Element)
    requires WellFormed(d)
  {
    var l, h, w := LayoutOf(d), |d.grid|, |d.grid[0]|;
    || (exists y: nat, x: nat :: y < h && x < w && e == CellSquare(l, d.grid, show, y, x))
    || (exists k: nat, y: nat :: k <= w && y < h && e == VerticalSegment(l, k, y))
    || (exists x: nat, k: nat :: x < w && k <= h && e == HorizontalSegment(l, x, k))
    || (exists y: nat, i: nat :: y < h && i < |d.rows[y]| && e == RowHintText(l, d.rows, y, i))
    || (exists x: nat, i: nat :: x < w && i < |d.cols[x]| && e == ColHintText(l, d.cols, x, i))
  }

  /**
   * Squares and lines stay on the grid, below and right of the margins; row
   * hints stay in the left margin beside the grid rows, column hints in the
   * top margin above the grid columns.
   */
  predicate InFrame(l: Layout, e: Element) {
    var gridLeft, gridTop := l.rowSlots * CellSize, l.colSlots * CellSize;
    match e
    case Rect(x, y, _) => gridLeft <= x && x + CellSize <= l.width && gridTop <= y && y + CellSize <= l.height
    case Line(x1, y1, x2, y2, _) => gridLeft <= x1 <= x2 <= l.width && gridTop <= y1 <= y2 <= l.height
    case Text(x, y, _) =>
      || (0 < x < gridLeft && gridTop < y < l.height)
      || (gridLeft < x < l.width && 0 < y < gridTop)
  }

  // ---------------------------------------------------------------------
  // Every element drawn is a part of the picture
  // ---------------------------------------------------------------------

  lemma CellPlaced(d: NonogramData, show: bool, y: nat, x: nat)
    requires WellFormed(d) && y < |d.grid| && x < |d.grid[0]|
    ensures forall e :: e in CellElements(LayoutOf(d), d.grid, show, y, x) ==> Placed(d, show, e)
  {
    var l, h, w := LayoutOf(d), |d.grid|, |d.grid[0]|;
    var els := CellElements(l, d.grid, show, y, x);
    assert els[0] == CellSquare(l, d.grid, show, y, x);
    assert els[1] == VerticalSegment(l, x, y);
    assert els[2] == HorizontalSegment(l, x, y);
    if x == |d.grid[y]| - 1 || (x + 1) % 5 == 0 {
      assert els[3] == VerticalSegment(l, x + 1, y);
    }
    if y == h - 1 || (y + 1) % 5 == 0 {
      assert els[|els| - 1] == HorizontalSegment(l, x, y + 1);
    }
  }

  lemma {:induction false} RowCellsPlaced(d: NonogramData, show: bool, y: nat, n: nat)
    requires WellFormed(d) && y < |d.grid| && n <= |d.grid[0]|
    ensures forall e :: e in RowCells(LayoutOf(d), d.grid, show, y, n) ==> Placed(d, show, e)
  {
    if n > 0 {
      RowCellsPlaced(d, show, y, n - 1);
      CellPlaced(d, show, y, n - 1);
    }
  }

  lemma {:induction false} GridCellsPlaced(d: NonogramData, show: bool, n: nat)
    requires WellFormed(d) && n <= |d.grid|
    ensures forall e :: e in GridCells(LayoutOf(d), d.grid, show, n) ==> Placed(d, show, e)
  {
    if n > 0 {
      GridCellsPlaced(d, show, n - 1);
      RowCellsPlaced(d, show, n - 1, |d.grid[n - 1]|);
    }
  }

  lemma {:induction false} RowHintsPlaced(d: NonogramData, show: bool, n: nat)
    requires WellFormed(d) && n <= |d.rows|
    ensures forall e :: e in AllRowHints(LayoutOf(d), d.rows, n) ==> Placed(d, show, e)
  {
    if n > 0 {
      RowHintsPlaced(d, show, n - 1);
      RowHintTextsAre(LayoutOf(d), d.rows, n - 1, |d.rows[n - 1]|);
    }
  }

  lemma {:induction false} RowHintTextsAre(l: Layout, rows: seq<seq<nat>>, y: nat, n: nat)
    requires y < |rows| && n <= |rows[y]|
    ensures forall e :: e in RowHintTexts(l, rows, y, n) ==> exists i: nat :: i < n && e == RowHintText(l, rows, y, i)
  {
    if n > 0 {
      RowHintTextsAre(l, rows, y, n - 1);
    }
  }

  lemma {:induction false} ColHintsPlaced(d: NonogramData, show: bool, n: nat)
    requires WellFormed(d) && n <= |d.cols|
    ensures forall e :: e in AllColHints(LayoutOf(d), d.cols, n) ==> Placed(d, show, e)
  {
    if n > 0 {
      ColHintsPlaced(d, show, n - 1);
      ColHintTextsAre(LayoutOf(d), d.cols, n - 1, |d.cols[n - 1]|);
    }
  }

  lemma {:induction false} ColHintTextsAre(l: Layout, cols: seq<seq<nat>>, x: nat, n: nat)
    requires x < |cols| && n <= |cols[x]|
    ensures forall e :: e in ColHintTexts(l, cols, x, n) ==> exists i: nat :: i < n && e == ColHintText(l, cols, x, i)
  {
    if n > 0 {
      ColHintTextsAre(l, cols, x, n - 1);
    }
  }

  // ---------------------------------------------------------------------
  // Every part of the picture is drawn
  // ---------------------------------------------------------------------

  lemma {:induction false} CellInRow(l: Layout, grid: seq<seq<bool>>, show: bool, y: nat, n: nat, x: nat)
    requires y < |grid| && x < n <= |grid[y]|
    ensures forall e :: e in CellElements(l, grid, show, y, x) ==> e in RowCells(l, grid, show, y, n)
  {
    if x < n - 1 {
      CellInRow(l, grid, show, y, n - 1, x);
    }
  }

  lemma {:induction false} RowInGrid(l: Layout, grid: seq<seq<bool>>, show: bool, n: nat, y: nat)
    requires y < n <= |grid|
    ensures forall e :: e in RowCells(l, grid, show, y, |grid[y]|) ==> e in GridCells(l, grid, show, n)
  {
    if y < n - 1 {
      RowInGrid(l, grid, show, n - 1, y);
    }
  }

  lemma CellDrawn(d: NonogramData, show: bool, y: nat, x: nat)
    requires Drawable(d) && y < |d.grid| && x < |d.grid[y]|
    ensures forall e :: e in CellElements(LayoutOf(d), d.grid, show, y, x) ==> e in Drawing(d, show)
  {
    var l := LayoutOf(d);
    CellInRow(l, d.grid, show, y, |d.grid[y]|, x);
    RowInGrid(l, d.grid, show, |d.grid|, y);
  }

  lemma {:induction false} HintInRow(l: Layout, rows: seq<seq<nat>>, y: nat, n: nat, i: nat)
    requires y < |rows| && i < n <= |rows[y]|
    ensures RowHintText(l, rows, y, i) in RowHintTexts(l, rows, y, n)
  {
    if i < n - 1 {
      HintInRow(l, rows, y, n - 1, i);
    }
  }

  lemma {:induction false} RowInRowHints(l: Layout, rows: seq<seq<nat>>, n: nat, y: nat)
    requires y < n <= |rows|
    ensures forall e :: e in RowHintTexts(l, rows, y, |rows[y]|) ==> e in AllRowHints(l, rows, n)
  {
    if y < n - 1 {
      RowInRowHints(l, rows, n - 1, y);
    }
  }

  lemma {:induction false} HintInCol(l: Layout, cols: seq<seq<nat>>, x: nat, n: nat, i: nat)
    requires x < |cols| && i < n <= |cols[x]|
    ensures ColHintText(l, cols, x, i) in ColHintTexts(l, cols, x, n)
  {
    if i < n - 1 {
      HintInCol(l, cols, x, n - 1, i);
    }
  }

  lemma {:induction false} ColInColHints(l: Layout, cols: seq<seq<nat>>, n: nat, x: nat)
    requires x < n <= |cols|
    ensures forall e :: e in ColHintTexts(l, cols, x, |cols[x]|) ==> e in AllColHints(l, cols, n)
  {
    if x < n - 1 {
      ColInColHints(l, cols, n - 1, x);
    }
  }

  /** Each cell's square and the four line pieces around it are drawn. */
  lemma CellFramed(d: NonogramData, show: bool, y: nat, x: nat)
    requires WellFormed(d) && y < |d.grid| && x < |d.grid[0]|
    ensures var l := LayoutOf(d);
      && CellSquare(l, d.grid, show, y, x) in Drawing(d, show)
      && VerticalSegment(l, x, y) in Drawing(d, show)
      && VerticalSegment(l, x + 1, y) in Drawing(d, show)
      && HorizontalSegment(l, x, y) in Drawing(d, show)
      && HorizontalSegment(l, x, y + 1) in Drawing(d, show)
  {
    var l := LayoutOf(d);
    var els := CellElements(l, d.grid, show, y, x);
    CellDrawn(d, show, y, x);
    assert els[0] == CellSquare(l, d.grid, show, y, x);
    assert els[1] == VerticalSegment(l, x, y);
    assert els[2] == HorizontalSegment(l, x, y);
    RightEdgeDrawn(d, show, y, x);
    BottomEdgeDrawn(d, show, y, x);
  }

  /** The line right of a cell is drawn by the cell itself or, as its left line, by the next one. */
  lemma RightEdgeDrawn(d: NonogramData, show: bool, y: nat, x: nat)
    requires WellFormed(d) && y < |d.grid| && x < |d.grid[0]|
    ensures VerticalSegment(LayoutOf(d), x + 1, y) in Drawing(d, show)
  {
    var l, w := LayoutOf(d), |d.grid[0]|;
    if x == w - 1 || (x + 1) % 5 == 0 {
      CellDrawn(d, show, y, x);
      assert CellElements(l, d.grid, show, y, x)[3] == VerticalSegment(l, x + 1, y);
    } else {
      CellDrawn(d, show, y, x + 1);
      assert CellElements(l, d.grid, show, y, x + 1)[1] == VerticalSegment(l, x + 1, y);
    }
  }

  /** The line below a cell is drawn by the cell itself or, as its top line, by the one below. */
  lemma BottomEdgeDrawn(d: NonogramData, show: bool, y: nat, x: nat)
    requires WellFormed(d) && y < |d.grid| && x < |d.grid[0]|
    ensures HorizontalSegment(LayoutOf(d), x, y + 1) in Drawing(d, show)
  {
    var l, h := LayoutOf(d), |d.grid|;
    if y == h - 1 || (y + 1) % 5 == 0 {
      CellDrawn(d, show, y, x);
      var els := CellElements(l, d.grid, show, y, x);
      assert els[|els| - 1] == HorizontalSegment(l, x, y + 1);
    } else {
      CellDrawn(d, show, y + 1, x);
      assert CellElements(l, d.grid, show, y + 1, x)[2] == HorizontalSegment(l, x, y + 1);
    }
  }

  lemma HintDrawn(d: NonogramData, show: bool)
    requires Drawable(d)
    ensures forall y: nat, i: nat :: y < |d.rows| && i < |d.rows[y]| ==> RowHintText(LayoutOf(d), d.rows, y, i) in Drawing(d, show)
    ensures forall x: nat, i: nat :: x < |d.cols| && i < |d.cols[x]| ==> ColHintText(LayoutOf(d), d.cols, x, i) in Drawing(d, show)
  {
    var l := LayoutOf(d);
    forall y: nat, i: nat | y < |d.rows| && i < |d.rows[y]|
      ensures RowHintText(l, d.rows, y, i) in Drawing(d, show)
    {
      HintInRow(l, d.rows, y, |d.rows[y]|, i);
      RowInRowHints(l, d.rows, |d.rows|, y);
    }
    forall x: nat, i: nat | x < |d.cols| && i < |d.cols[x]|
      ensures ColHintText(l, d.cols, x, i) in Drawing(d, show)
    {
      HintInCol(l, d.cols, x, |d.cols[x]|, i);
      ColInColHints(l, d.cols, |d.cols|, x);
    }
  }

  /** Every cell square and every piece of every grid line is drawn. */
  lemma SquaresDrawn(d: NonogramData, show: bool)
    requires WellFormed(d)
    ensures forall y: nat, x: nat :: y < |d.grid| && x < |d.grid[0]| ==> CellSquare(LayoutOf(d), d.grid, show, y, x) in Drawing(d, show)
  {
    forall y: nat, x: nat | y < |d.grid| && x < |d.grid[0]|
      ensures CellSquare(LayoutOf(d), d.grid, show, y, x) in Drawing(d, show)
    {
      CellFramed(d, show, y, x);
    }
  }

  lemma VerticalsDrawn(d: NonogramData, show: bool)
    requires WellFormed(d)
    ensures forall k: nat, y: nat :: k <= |d.grid[0]| && y < |d.grid| ==> VerticalSegment(LayoutOf(d), k, y) in Drawing(d, show)
  {
    forall k: nat, y: nat | k <= |d.grid[0]| && y < |d.grid|
      ensures VerticalSegment(LayoutOf(d), k, y) in Drawing(d, show)
    {
      if k < |d.grid[0]| {
        CellFramed(d, show, y, k);
      } else {
        RightEdgeDrawn(d, show, y, k - 1);
      }
    }
  }

  lemma HorizontalsDrawn(d: NonogramData, show: bool)
    requires WellFormed(d)
    ensures forall x: nat, k: nat :: x < |d.grid[0]| && k <= |d.grid| ==> HorizontalSegment(LayoutOf(d), x, k) in Drawing(d, show)
  {
    forall x: nat, k: nat | x < |d.grid[0]| && k <= |d.grid|
      ensures HorizontalSegment(LayoutOf(d), x, k) in Drawing(d, show)
    {
      if k < |d.grid| {
        CellFramed(d, show, k, x);
      } else {
        BottomEdgeDrawn(d, show, k - 1, x);
      }
    }
  }

  /**
   * The drawing consists exactly of the parts of the picture: every element
   * drawn is a cell square, a grid line piece or a hint, and every one of
   * those is drawn.
   */
  lemma DrawingIsPicture(d: NonogramData, show: bool)
    requires WellFormed(d)
    ensures forall e :: e in Drawing(d, show) <==> Placed(d, show, e)
  {
    GridCellsPlaced(d, show, |d.grid|);
    RowHintsPlaced(d, show, |d.rows|);
    ColHintsPlaced(d, show, |d.cols|);
    SquaresDrawn(d, show);
    VerticalsDrawn(d, show);
    HorizontalsDrawn(d, show);
    HintDrawn(d, show);
  }

  // ---------------------------------------------------------------------
  // Where the parts sit
  // ---------------------------------------------------------------------

  /** Squares and grid lines lie on the grid area. */
  lemma GridPartsInFrame(d: NonogramData, show: bool)
    requires WellFormed(d)
    ensures var l, h, w := LayoutOf(d), |d.grid|, |d.grid[0]|;
      && (forall y: nat, x: nat :: y < h && x < w ==> InFrame(l, CellSquare(l, d.grid, show, y, x)))
      && (forall k: nat, y: nat :: k <= w && y < h ==> InFrame(l, VerticalSegment(l, k, y)))
      && (forall x: nat, k: nat :: x < w && k <= h ==> InFrame(l, HorizontalSegment(l, x, k)))
  {
  }

  /** Hints lie in their margin: HintSlot keeps every hint inside the longest list's width. */
  lemma HintsInFrame(d: NonogramData)
    requires WellFormed(d)
    ensures var l := LayoutOf(d);
      && (forall y: nat, i: nat :: y < |d.rows| && i < |d.rows[y]| ==> InFrame(l, RowHintText(l, d.rows, y, i)))
      && (forall x: nat, i: nat :: x < |d.cols| && i < |d.cols[x]| ==> InFrame(l, ColHintText(l, d.cols, x, i)))
  {
    var l := LayoutOf(d);
    forall y: nat, i: nat | y < |d.rows| && i < |d.rows[y]|
      ensures InFrame(l, RowHintText(l, d.rows, y, i))
    {
      var slot := HintSlot(l.rowSlots, |d.rows[y]|, i);
      assert 0 <= slot < l.rowSlots;
    }
    forall x: nat, i: nat | x < |d.cols| && i < |d.cols[x]|
      ensures InFrame(l, ColHintText(l, d.cols, x, i))
    {
      var slot := HintSlot(l.colSlots, |d.cols[x]|, i);
      assert 0 <= slot < l.colSlots;
    }
  }

  /** Nothing is drawn outside the canvas, and hints never overlap the grid or each other's margin. */
  lemma DrawingInFrame(d: NonogramData, show: bool)
    requires WellFormed(d)
    ensures forall e :: e in Drawing(d, show) ==> InFrame(LayoutOf(d), e)
  {
    DrawingIsPicture(d, show);
    GridPartsInFrame(d, show);
    HintsInFrame(d);
  }

  /** Without the solution every square is white; with it, a square is black exactly over a filled cell. */
  lemma SolutionShading(d: NonogramData)
    requires WellFormed(d)
    ensures forall e :: e in Drawing(d, false) && e.Rect? ==> e.fill == White
    ensures var l := LayoutOf(d);
      forall e, y: nat, x: nat ::
        e in Drawing(d, true) && e.Rect? && y < |d.grid| && x < |d.grid[0]|
        && e.x == (l.rowSlots + x) * CellSize && e.y == (l.colSlots + y) * CellSize
        ==> (e.fill == Black <==> d.grid[y][x])
  {
    DrawingIsPicture(d, false);
    ShadingWithSolution(d);
  }

  /** With the solution shown, the square drawn over cell (y, x) is black iff the cell is filled. */
  lemma ShadingWithSolution(d: NonogramData)
    requires WellFormed(d)
    ensures var l := LayoutOf(d);
      forall e, y: nat, x: nat ::
        e in Drawing(d, true) && e.Rect? && y < |d.grid| && x < |d.grid[0]|
        && e.x == (l.rowSlots + x) * CellSize && e.y == (l.colSlots + y) * CellSize
        ==> (e.fill == Black <==> d.grid[y][x])
  {
    var l, h, w := LayoutOf(d), |d.grid|, |d.grid[0]|;
    DrawingIsPicture(d, true);
    forall e, y: nat, x: nat |
      e in Drawing(d, true) && e.Rect? && y < h && x < w
      && e.x == (l.rowSlots + x) * CellSize && e.y == (l.colSlots + y) * CellSize
      ensures e.fill == Black <==> d.grid[y][x]
    {
      assert Placed(d, true, e);
      var y': nat, x': nat :| y' < h && x' < w && e == CellSquare(l, d.grid, true, y', x');
    }
  }

  /**
   * Each row's hints end in the margin slot next to the grid, one cell
   * apart; each column's hints likewise end just above the grid.
   */
  lemma HintsAgainstGrid(d: NonogramData)
    requires WellFormed(d)
    ensures var l := LayoutOf(d);
      forall y: nat :: y < |d.rows| && |d.rows[y]| > 0 ==>
        RowHintText(l, d.rows, y, |d.rows[y]| - 1).x + HalfCell == l.rowSlots * CellSize
    ensures var l := LayoutOf(d);
      forall y: nat, i: nat :: y < |d.rows| && i + 1 < |d.rows[y]| ==>
        RowHintText(l, d.rows, y, i + 1).x == RowHintText(l, d.rows, y, i).x + CellSize
    ensures var l := LayoutOf(d);
      forall x: nat :: x < |d.cols| && |d.cols[x]| > 0 ==>
        ColHintText(l, d.cols, x, |d.cols[x]| - 1).y + HalfCell - BaselineShift == l.colSlots * CellSize
    ensures var l := LayoutOf(d);
      forall x: nat, i: nat :: x < |d.cols| && i + 1 < |d.cols[x]| ==>
        ColHintText(l, d.cols, x, i + 1).y == ColHintText(l, d.cols, x, i).y + CellSize
  {
  }

  // ---------------------------------------------------------------------
  // Serialization
  // ---------------------------------------------------------------------

  function DigitChar(n: nat): char
    requires n < 10
  {
    "0123456789"[n]
  }

  function DigitValue(c: char): nat {
    if '0' <= c <= '9' then c as int - '0' as int else 0
  }

  /** The decimal numeral of n, as `${n}` prints it. */
  function Decimal(n: nat): (s: string)
    ensures |s| >= 1
    ensures forall i :: 0 <= i < |s| ==> '0' <= s[i] <= '9'
  {
    if n < 10 then [DigitChar(n)] else Decimal(n / 10) + [DigitChar(n % 10)]
  }

  /** Reading a numeral back, most significant digit first. */
  function ParseDecimal(s: string): nat {
    if s == [] then 0 else ParseDecimal(s[..|s| - 1]) * 10 + DigitValue(s[|s| - 1])
  }

  /** Decimal numerals read back as the numbers they print. */
  lemma {:induction false} DecimalRoundTrip(n: nat)
    ensures ParseDecimal(Decimal(n)) == n
    decreases n
  {
    var s := Decimal(n);
    if n < 10 {
      assert s[..0] == [];
    } else {
      DecimalRoundTrip(n / 10);
      assert s[..|s| - 1] == Decimal(n / 10);
    }
  }

  function IntText(i: int): string {
    if i < 0 then "-" + Decimal(-i) else Decimal(i)
  }

  function Quoted(name: string, value: string): string {
    " " + name + "=\"" + value + "\""
  }

  function ElementMarkup(e: Element): string {
    match e
    case Rect(x, y, fill) =>
      "<rect" + Quoted("x", IntText(x)) + Quoted("y", IntText(y))
      + Quoted("width", IntText(CellSize)) + Quoted("height", IntText(CellSize))
      + Quoted("class", "cell") + Quoted("fill", if fill == Black then "black" else "white") + "/>"
    case Line(x1, y1, x2, y2, thick) =>
      "<line" + Quoted("x1", IntText(x1)) + Quoted("y1", IntText(y1))
      + Quoted("x2", IntText(x2)) + Quoted("y2", IntText(y2))
      + Quoted("class", if thick then "cell thick-border" else "cell cell-border") + "/>"
    case Text(x, y, hint) =>
      "<text" + Quoted("x", IntText(x)) + Quoted("y", IntText(y))
      + Quoted("class", "hint") + Quoted("text-anchor", "middle") + ">" + Decimal(hint) + "</text>"
  }

  function Markup(els: seq<Element>): string {
    if els == [] then "" else Markup(els[..|els| - 1]) + ElementMarkup(els[|els| - 1])
  }

  /** The fixed part of the header: namespace, style rules and the white background. */
  const HeaderTail: string :=
    " xmlns=\"http://www.w3.org/2000/svg\">"
    + "<style>.cell { stroke: #ccc; } .cell-border { stroke-width: 1; } "
    + ".thick-border { stroke-width: 2; } "
    + ".hint { font-family: Arial; font-size: 12px; font-weight: bold; }</style>"
    + "<rect width=\"100%\" height=\"100%\" fill=\"white\"/>"

  /** Everything after "<svg" in the header: the canvas size, then the fixed part. */
  function HeaderRest(l: Layout): string {
    Quoted("width", IntText(l.width)) + Quoted("height", IntText(l.height)) + HeaderTail
  }

  const SvgOpen: string := "<svg"
  const SvgClose: string := "</svg>"

  /** The whole document: the header, the elements' markup in order, and the closing tag. */
  function Document(l: Layout, els: seq<Element>): (svg: string)
    ensures |svg| >= |SvgOpen| + |SvgClose|
    ensures svg[..|SvgOpen|] == SvgOpen && svg[|svg| - |SvgClose|..] == SvgClose
  {
    Enclosed(SvgOpen, HeaderRest(l) + Markup(els), SvgClose);
    SvgOpen + (HeaderRest(l) + Markup(els)) + SvgClose
  }

  lemma Enclosed(open: string, body: string, close: string)
    ensures var s := open + body + close;
      && |s| >= |open| + |close| && s[..|open|] == open && s[|s| - |close|..] == close
  {
  }
}
