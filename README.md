# Nonogram generator: a verified model of its core

The nonogram generator turns a picture into a nonogram puzzle. It shrinks the
picture to a grid, marks every dark, opaque pixel as a filled cell, and
describes every row and column by the lengths of its runs of filled cells.
It can export the puzzle as an SVG document, with or without the solution.
Its page header also announces a favicon type, which it derives from the
favicon URL.

This project models four parts of that code in Dafny and proves what each
part promises.

- `nonogram_utils.dfy` (module `NonogramUtils`) models `generateNonogram`.
  - The scanning loops are methods: `ScanRow`, `ScanColumn` and `GenerateNonogram`.
  - They are proved equal to a recursive specification. `Runs` gives the maximal runs of a line, and `LineHints` adds the `[0]` sentinel for a line with no filled cell.
  - Lemmas state what the hints mean:
    - the hints add up to the number of filled cells;
    - they fit in the line;
    - the sentinel appears exactly when the line is empty;
    - every line is a placement of its own hints, and reading back a placement returns its hints;
    - the columns are the rows of the transposed grid.
  - A short row is read over the width of the first row, and its missing cells count as empty. That is what `row[x]` being `undefined` does in the source.
- `image_reducer.dfy` (module `ImageReducer`) models the deterministic part of `processImage`.
  - `TargetSize` computes the grid dimensions from the aspect ratio. It uses the source's formula over exact reals, with `Math.round` and the clamp to at least one cell. Integer arithmetic computes the same values.
  - `IsInk` classifies one pixel from its alpha and brightness.
  - `Classify` fills a two-dimensional array in place with nested loops.
  - `ProcessImage` chains these steps into `generateNonogram`.
- `svg_export.dfy` (module `SvgExport`) models `generateSVG`.
  - The three `forEach` passes are methods: `DrawCells`/`DrawRow`/`DrawCell`, `DrawRowHints` and `DrawColHints`.
  - They append drawing elements, and are proved equal to a specification `Drawing`.
  - A serializer turns the elements into markup.
  - Lemmas show that the drawing consists exactly of:
    - every cell's square;
    - every piece of every grid line, with every fifth line thick;
    - every hint.
  - Further lemmas show that every part lies inside the canvas, that hints stay in their margin, and that squares are black only when the solution is shown.
- `meta_tags.dfy` (module `MetaTags`) models `getFaviconType`.
  - It uses `split` and `join` on one-character separators, proved inverse to each other.
  - The extension is the text after the last `.`.
  - ASCII lower-casing is modelled.
  - The favicon type is characterised both for `data:` URLs and for extensions.

For a `data:` URL the code takes `url.split(';')[0].split(':')[1]`: the text
after `data:` up to the first `:` or `;`. `MetaTags.FaviconType` states
exactly that.

## Model

| member | source | states |
|---|---|---|
| NonogramUtils.LeadingFilled | src/utils/nonogramUtils.ts:16-18 | the count a run reaches before the loop meets an empty cell: every cell before it is filled and the next one is empty or past the end |
| NonogramUtils.ScanExtend | src/utils/nonogramUtils.ts:17-18 | a filled cell lengthens the pending run and keeps the scan invariant |
| NonogramUtils.ScanFlush | src/utils/nonogramUtils.ts:19-21 | an empty cell or the end of the line pushes the pending count, which is exactly the next maximal run, and resets it |
| NonogramUtils.ScanSkip | src/utils/nonogramUtils.ts:16-22 | an empty cell with no pending run adds no hint; at the end the hints are all the runs of the line |
| NonogramUtils.ScanRow | src/utils/nonogramUtils.ts:12-26 | the row loop returns the maximal runs of row y, read over the first row's width, or [0] when it has none |
| NonogramUtils.ScanColumn | src/utils/nonogramUtils.ts:29-43 | the column loop returns the maximal runs of column x read top to bottom, or [0] when it has none |
| NonogramUtils.GenerateNonogram | src/utils/nonogramUtils.ts:7-46 | one hint list per row and per column of the first row's width, each the hints of that line; the grid is returned unchanged |
| NonogramUtils.RunsAppend | src/utils/nonogramUtils.ts:19-22 | a run ends at an empty cell: the runs of two pieces that meet at an empty cell are the runs of each piece, in order |
| NonogramUtils.RunsPositive | src/utils/nonogramUtils.ts:19-20 | only positive counts are pushed: every hint of a non-empty line is at least 1 |
| NonogramUtils.RunsEmptyIff | src/utils/nonogramUtils.ts:25 | a line has no runs exactly when it has no filled cell |
| NonogramUtils.LineHintsSentinel | src/utils/nonogramUtils.ts:25 | every hint list is non-empty; it is [0] iff the line has no filled cell, and otherwise holds only positive hints |
| NonogramUtils.RunsSum | src/utils/nonogramUtils.ts:16-23 | the hints add up to the number of filled cells of the line |
| NonogramUtils.RunsFit | src/utils/nonogramUtils.ts:16-23 | the runs plus one empty cell between neighbours fit in the line |
| NonogramUtils.LineHintsFit | src/utils/nonogramUtils.ts:16-25 | with the sentinel included, the hints still sum to the filled cells and fit in the line |
| NonogramUtils.FullAndEmptyLines | src/utils/nonogramUtils.ts:16-25 | a full line of n cells has hints [n]; an empty line has hints [0] |
| NonogramUtils.Example | src/utils/nonogramUtils.ts:16-25 | the line filled-empty-filled-filled-empty has hints [1, 2] |
| NonogramUtils.RunsOfPlace | src/utils/nonogramUtils.ts:16-23 | any line built from positive runs separated by at least one empty cell scans back to exactly those runs |
| NonogramUtils.PlaceOfRuns | src/utils/nonogramUtils.ts:16-23 | every line is such a placement of its own runs, so the hints determine the line up to the gaps |
| NonogramUtils.ColumnsAreTransposedRows | src/utils/nonogramUtils.ts:29-43 | the column hints are the row hints of the transposed grid, for short rows too (their missing cells are empty) |
| NonogramUtils.RowLineOfRectangular | src/utils/nonogramUtils.ts:12-17 | in a rectangular grid the row the loop reads is the stored row itself |
| ImageReducer.RoundDiv | src/components/NonogramGenerator.tsx:56 | Math.round of the exact quotient n / d, bracketed as 2n - d < 2dq <= 2n + d |
| ImageReducer.RatioAbove | src/components/NonogramGenerator.tsx:51-54 | the aspect ratio exceeds 1 exactly when the image is wider than tall |
| ImageReducer.TargetSize | src/components/NonogramGenerator.tsx:51-60 | a landscape image gets gridSize columns and max(1, round(gridSize / ratio)) rows; otherwise gridSize rows and max(1, round(gridSize * ratio)) columns |
| ImageReducer.TargetSizeBounds | src/components/NonogramGenerator.tsx:50-60 | the longer side is exactly gridSize; the shorter is between 1 and gridSize and is the nearest integer to the exact ratio unless clamped to 1 |
| ImageReducer.IsInk | src/components/NonogramGenerator.tsx:94-98 | alpha below 128 gives an empty cell; otherwise filled iff r + g + b < 3 * threshold; nothing is filled for threshold <= 0, and white never is |
| ImageReducer.PixelIndexInBounds | src/components/NonogramGenerator.tsx:88-92 | the four sample indices of pixel (y, x) lie inside the width * height * 4 buffer |
| ImageReducer.Classify | src/components/NonogramGenerator.tsx:83-101 | the nested loops set every cell of the grid array to the classification of its own pixel |
| ImageReducer.ProcessImage | src/components/NonogramGenerator.tsx:51-104 | the puzzle is generateNonogram of the classified grid, with the target dimensions, one hint list per row and per column |
| ImageReducer.TransparentImageIsEmpty | src/components/NonogramGenerator.tsx:94-95 | a fully transparent image gives an all-empty grid whatever the threshold |
| ImageReducer.CheckerboardExample | src/components/NonogramGenerator.tsx:86-103 | an opaque 2 x 2 black/white diagonal with threshold 128 gives that diagonal, with hints [1] on every row and column |
| MetaTags.Split | src/components/MetaTags.tsx:31 | split yields at least one piece, no piece contains the separator, and there are several pieces iff the separator occurs |
| MetaTags.JoinSplit | src/components/MetaTags.tsx:31 | joining the pieces of a split with the separator gives the string back |
| MetaTags.SplitJoin | src/components/MetaTags.tsx:34 | splitting separator-free pieces joined by the separator gives the pieces back |
| MetaTags.Extension | src/components/MetaTags.tsx:34 | split('.').pop() is the dot-free suffix of the URL that follows its last '.', or the whole URL when it has none |
| MetaTags.Lower | src/components/MetaTags.tsx:34 | toLowerCase keeps the length and lower-cases each letter in place |
| MetaTags.FaviconType | src/components/MetaTags.tsx:29-48 | a data: URL announces the text after "data:" up to the first ':' or ';'; otherwise svg, png and jpg/jpeg (any case) map to their MIME types and every other extension to image/x-icon |
| MetaTags.DataUrlType | src/components/MetaTags.tsx:30-33 | split(';')[0].split(':')[1] always exists for a data: URL and is the text after "data:" up to the first ':' or ';' |
| MetaTags.UpperCaseExample | src/components/MetaTags.tsx:34-37 | ICON.SVG is announced as image/svg+xml |
| MetaTags.JpegExample | src/components/MetaTags.tsx:42-44 | logo.jpeg is announced as image/jpeg |
| SvgExport.MaxLength | src/components/NonogramGenerator.tsx:182-183 | Math.max over the hint list lengths: at least every length and equal to one of them |
| SvgExport.LayoutOf | src/components/NonogramGenerator.tsx:181-185 | the margins are the longest row and column hint lists, and the canvas is margins plus grid, 30 units per cell |
| SvgExport.HintSlot | src/components/NonogramGenerator.tsx:244 | every hint of a list no longer than the margin falls inside the margin, and the last hint is in the slot next to the grid |
| SvgExport.DrawCell | src/components/NonogramGenerator.tsx:199-237 | one cell yields its square, its left and top lines, and its right and bottom lines only at the grid's edge or before a multiple of five |
| SvgExport.DrawRow | src/components/NonogramGenerator.tsx:198-238 | the inner loop yields the elements of every cell of the row, in order |
| SvgExport.DrawCells | src/components/NonogramGenerator.tsx:197-239 | the cell pass yields the elements of every cell, row by row |
| SvgExport.DrawRowHints | src/components/NonogramGenerator.tsx:242-248 | the row hint pass yields every row hint at its slot, on its row's middle line |
| SvgExport.DrawColHints | src/components/NonogramGenerator.tsx:251-257 | the column hint pass yields every column hint at its slot, above its column |
| SvgExport.DrawPuzzle | src/components/NonogramGenerator.tsx:196-257 | the three passes together yield the whole drawing, in the source's order |
| SvgExport.Document | src/components/NonogramGenerator.tsx:187-260 | whatever the elements, the document begins with "<svg" (the header follows) and ends with "</svg>" |
| SvgExport.GenerateSvg | src/components/NonogramGenerator.tsx:180-261 | the returned markup is the header, the drawing's elements in order and the closing tag |
| SvgExport.DecimalRoundTrip | src/components/NonogramGenerator.tsx:246 | a hint printed in decimal reads back as the same number |
| SvgExport.CellFramed | src/components/NonogramGenerator.tsx:208-237 | each cell's square and the four line pieces around it are drawn |
| SvgExport.RightEdgeDrawn | src/components/NonogramGenerator.tsx:215-230 | the line right of a cell is drawn, by that cell or as the left line of the next |
| SvgExport.BottomEdgeDrawn | src/components/NonogramGenerator.tsx:220-237 | the line below a cell is drawn, by that cell or as the top line of the one below |
| SvgExport.HintDrawn | src/components/NonogramGenerator.tsx:242-257 | every row hint and every column hint is drawn |
| SvgExport.DrawingIsPicture | src/components/NonogramGenerator.tsx:197-257 | an element is drawn iff it is a cell square, a grid line piece (thick iff its line index is a multiple of five) or a hint |
| SvgExport.DrawingInFrame | src/components/NonogramGenerator.tsx:184-257 | squares and lines lie on the grid area; row hints lie in the left margin and column hints in the top margin, all inside the canvas |
| SvgExport.SolutionShading | src/components/NonogramGenerator.tsx:209-212 | without the solution every drawn square is white; with it, the square drawn over a cell is black iff the cell is filled |
| SvgExport.HintsAgainstGrid | src/components/NonogramGenerator.tsx:242-257 | each row's hints end next to the grid and each column's hints just above it, consecutive hints one cell apart |

## Left out

- Loading the picture is not modelled: file upload, `FileReader`, `Image` decoding and the error messages are browser I/O.
- The browser canvas downscaling is not modelled (`drawImage` with high-quality smoothing). The resampled RGBA buffer is an input of `ImageReducer.ProcessImage`.
- React state, the page layout, the sliders, `html2canvas`, and the PNG and PDF downloads are outside the core.
- The page's other meta tags are not modelled.
- ImageReducer.TargetSize: the aspect ratio and `Math.round` are computed on exact reals. IEEE-754 rounding of `gridSize / aspectRatio` is not modelled; it can differ only when the exact quotient is within one ulp of a half.
- ImageReducer.IsInk: the threshold is an integer, as the slider gives, and the brightness is the exact real mean.
- ImageReducer.Classify: the source builds the grid as an array of row arrays. The model uses one two-dimensional array, so the rows cannot alias.
- SvgExport.GenerateSvg: the line breaks and indentation inside the source's template literals are not reproduced byte for byte. The markup has the same elements, attributes and values, in the same order.
- SvgExport.Drawable: a puzzle with no row or no column hint lists gives `Math.max()` = -Infinity and a meaningless canvas. The model requires at least one list on each side.
- MetaTags.Lower: `toLowerCase` is modelled on the ASCII letters only. Unicode case mapping is not modelled.
- NonogramUtils.GenerateNonogram: requires at least one grid row. On an empty grid the source throws at `grid[0].length`. The grid-size slider's minimum of 5 (src/components/NonogramGenerator.tsx:301) means an empty grid never reaches this code.
- ImageReducer.TargetSize: requires a non-zero image width and height. A zero-size image would make the aspect ratio NaN or Infinity. Image decoding, which produces those dimensions, is not modelled.
