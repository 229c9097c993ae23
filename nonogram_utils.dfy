/**
 * Hint derivation for a nonogram (src/utils/nonogramUtils.ts).
 *
 * A line of the solution grid (a row, or a column read top to bottom) is
 * described by the lengths of its maximal runs of filled cells, in order.
 * A line without filled cells is described by the sentinel [0].
 */
module NonogramUtils {

  /** The puzzle: row hints, column hints and the solution grid itself. */
  datatype NonogramData = NonogramData(rows: seq<seq<nat>>, cols: seq<seq<nat>>, grid: seq<seq<bool>>)

  function Trues(n: nat): seq<bool> { seq(n, _ => true) }

  function Falses(n: nat): seq<bool> { seq(n, _ => false) }

  function Sum(s: seq<nat>): nat {
    if s == [] then 0 else s[0] + Sum(s[1..])
  }

  /** Number of filled cells of a line. */
  function CountFilled(line: seq<bool>): nat {
    if line == [] then 0 else (if line[0] then 1 else 0) + CountFilled(line[1..])
  }

  /** Length of the run of filled cells that starts the line. */
  function LeadingFilled(line: seq<bool>): (k: nat)
    ensures k <= |line|
    ensures forall i :: 0 <= i < k ==> line[i]
    ensures k < |line| ==> !line[k]
  {
    if line == [] || !line[0] then 0 else 1 + LeadingFilled(line[1..])
  }

  /** The lengths of the maximal runs of filled cells, left to right. */
  function Runs(line: seq<bool>): seq<nat>
    decreases |line|
  {
    if line == [] then []
    else if !line[0] then Runs(line[1..])
    else
      var k := LeadingFilled(line);
      [k] + Runs(line[k..])
  }

  /** The hint list of one line: its runs, or [0] when it has none. */
  function LineHints(line: seq<bool>): seq<nat> {
    var r := Runs(line);
    if |r| > 0 then r else [0]
  }

  /**
   * Cell (y, x) as the source reads it: `row[x]` past the end of a short row
   * is `undefined`, which the `if` treats as empty.
   */
  function Cell(grid: seq<seq<bool>>, y: nat, x: nat): bool
    requires y < |grid|
  {
    x < |grid[y]| && grid[y][x]
  }

  /** Row y, read over the width of the first row. */
  function RowLine(grid: seq<seq<bool>>, y: nat): seq<bool>
    requires 0 < |grid| && y < |grid|
  {
    seq(|grid[0]|, x requires 0 <= x => Cell(grid, y, x))
  }

  /** Column x, read top to bottom. */
  function ColumnLine(grid: seq<seq<bool>>, x: nat): seq<bool> {
    seq(|grid|, y requires 0 <= y < |grid| => Cell(grid, y, x))
  }

  /** What generateNonogram returns, stated line by line. */
  function Nonogram(grid: seq<seq<bool>>): NonogramData
    requires 0 < |grid|
  {
    NonogramData(
      seq(|grid|, y requires 0 <= y < |grid| => LineHints(RowLine(grid, y))),
      seq(|grid[0]|, x requires 0 <= x => LineHints(ColumnLine(grid, x))),
      grid)
  }

  predicate Rectangular(grid: seq<seq<bool>>) {
    forall y :: 0 <= y < |grid| ==> |grid[y]| == |grid[0]|
  }

  function Transpose(grid: seq<seq<bool>>): seq<seq<bool>>
    requires 0 < |grid|
  {
    seq(|grid[0]|, x requires 0 <= x => seq(|grid|, y requires 0 <= y < |grid| => Cell(grid, y, x)))
  }

  // ---------------------------------------------------------------------
  // The scanning loops of generateNonogram
  // ---------------------------------------------------------------------

  /** The row loop: one pass over x = 0..width, flushing a run on an empty cell or at the end. */
  method ScanRow(grid: seq<seq<bool>>, y: nat) returns (hints: seq<nat>)
    requires 0 < |grid| && y < |grid|
    ensures hints == LineHints(RowLine(grid, y))
  {
    var width := |grid[0]|;
    ghost var line := RowLine(grid, y);
    hints := [];
    var count: nat := 0;
    var x := 0;
    while x <= width
      invariant 0 <= x <= width + 1
      invariant x <= width ==> count <= x && ScannedUpTo(line, x, count, hints)
      invariant x == width + 1 ==> hints == Runs(line)
    {
      if x < width && Cell(grid, y, x) {
        ScanExtend(line, x, count, hints);
        count := count + 1;
      } else if count > 0 {
        ScanFlush(line, x, count, hints);
        hints := hints + [count];
        count := 0;
      } else {
        ScanSkip(line, x, hints);
      }
      x := x + 1;
    }
    hints := if |hints| > 0 then hints else [0];
  }

  /** The column loop: the same pass over y = 0..height, down column x. */
  method ScanColumn(grid: seq<seq<bool>>, x: nat) returns (hints: seq<nat>)
    requires 0 < |grid|
    ensures hints == LineHints(ColumnLine(grid, x))
  {
    var height := |grid|;
    ghost var line := ColumnLine(grid, x);
    hints := [];
    var count: nat := 0;
    var y := 0;
    while y <= height
      invariant 0 <= y <= height + 1
      invariant y <= height ==> count <= y && ScannedUpTo(line, y, count, hints)
      invariant y == height + 1 ==> hints == Runs(line)
    {
      if y < height && Cell(grid, y, x) {
        ScanExtend(line, y, count, hints);
        count := count + 1;
      } else if count > 0 {
        ScanFlush(line, y, count, hints);
        hints := hints + [count];
        count := 0;
      } else {
        ScanSkip(line, y, hints);
      }
      y := y + 1;
    }
    hints := if |hints| > 0 then hints else [0];
  }

  /** generateNonogram: the hints of every row, then of every column; the grid is passed through. */
  method GenerateNonogram(grid: seq<seq<bool>>) returns (data: NonogramData)
    requires 0 < |grid|
    ensures data == Nonogram(grid)
    ensures |data.rows| == |grid| && |data.cols| == |grid[0]| && data.grid == grid
  {
    var height := |grid|;
    var width := |grid[0]|;
    var rows: seq<seq<nat>> := [];
    var y := 0;
    while y < height
      invariant 0 <= y <= height
      invariant |rows| == y
      invariant forall j :: 0 <= j < y ==> rows[j] == LineHints(RowLine(grid, j))
    {
      var hints := ScanRow(grid, y);
      rows := rows + [hints];
      y := y + 1;
    }
    var cols: seq<seq<nat>> := [];
    var x := 0;
    while x < width
      invariant 0 <= x <= width
      invariant |cols| == x
      invariant forall j :: 0 <= j < x ==> cols[j] == LineHints(ColumnLine(grid, j))
    {
      var hints := ScanColumn(grid, x);
      cols := cols + [hints];
      x := x + 1;
    }
    data := NonogramData(rows, cols, grid);
  }

  // ---------------------------------------------------------------------
  // Loop invariant of the scan and its two steps
  // ---------------------------------------------------------------------

  /**
   * After x cells: the last `count` cells read are filled and form a run that
   * started after an empty cell (or at the start), and `hints` holds the runs
   * that ended before it.
   */
  ghost predicate ScannedUpTo(line: seq<bool>, x: nat, count: nat, hints: seq<nat>)
    requires count <= x <= |line|
  {
    && (forall i :: x - count <= i < x ==> line[i])
    && (x - count == 0 || !line[x - count - 1])
    && hints == Runs(line[..x - count])
  }

  /** A filled cell lengthens the pending run. */
  lemma ScanExtend(line: seq<bool>, x: nat, count: nat, hints: seq<nat>)
    requires count <= x < |line| && line[x]
    requires ScannedUpTo(line, x, count, hints)
    ensures ScannedUpTo(line, x + 1, count + 1, hints)
  {
  }

  /** An empty cell, or the end of the line, closes the pending run of `count` cells. */
  lemma ScanFlush(line: seq<bool>, x: nat, count: nat, hints: seq<nat>)
    requires 0 < count <= x <= |line|
    requires ScannedUpTo(line, x, count, hints)
    requires x < |line| ==> !line[x]
    ensures x < |line| ==> ScannedUpTo(line, x + 1, 0, hints + [count])
    ensures x == |line| ==> hints + [count] == Runs(line)
  {
    FlushRun(line, x - count, x);
    if x < |line| {
      ScanSkip(line, x, Runs(line[..x]));
    } else {
      assert line[..x] == line;
    }
  }

  /** A maximal run [start, x) read after the runs of line[..start]. */
  lemma FlushRun(line: seq<bool>, start: nat, x: nat)
    requires start < x <= |line|
    requires forall i :: start <= i < x ==> line[i]
    requires start == 0 || !line[start - 1]
    ensures Runs(line[..x]) == Runs(line[..start]) + [x - start]
  {
    assert line[..x] == line[..start] + line[start..x];
    RunsOfFilled(line[start..x]);
    RunsAppend(line[..start], line[start..x]);
  }

  /** An empty cell with no pending run adds no hint. */
  lemma ScanSkip(line: seq<bool>, x: nat, hints: seq<nat>)
    requires x <= |line|
    requires hints == Runs(line[..x])
    requires x < |line| ==> !line[x]
    ensures x < |line| ==> ScannedUpTo(line, x + 1, 0, hints)
    ensures x == |line| ==> hints == Runs(line)
  {
    if x < |line| {
      assert line[..x + 1] == line[..x] + [false];
      RunsAppend(line[..x], [false]);
      assert Runs([false]) == Runs([]);
    } else {
      assert line[..x] == line;
    }
  }

  // ---------------------------------------------------------------------
  // Properties of Runs and LineHints
  // ---------------------------------------------------------------------

  /** Runs of two pieces that meet at an empty cell are the runs of each piece, in order. */
  lemma {:induction false} RunsAppend(s: seq<bool>, t: seq<bool>)
    requires s == [] || t == [] || !s[|s| - 1] || !t[0]
    ensures Runs(s + t) == Runs(s) + Runs(t)
    decreases |s|
  {
    if s == [] {
      assert s + t == t;
    } else if !s[0] {
      SkipFirstOfAppend(s, t);
      SkipFirst(s);
      BoundaryOfSuffix(s, t, 1);
      RunsAppend(s[1..], t);
    } else if LeadingFilled(s) < |s| {
      var k := LeadingFilled(s);
      TakeFirstOfAppend(s, t);
      TakeFirst(s);
      BoundaryOfSuffix(s, t, k);
      RunsAppend(s[k..], t);
    } else if t == [] {
      assert s + t == s;
    } else {
      RunsFilledThen(s, t);
    }
  }

  lemma SkipFirst(s: seq<bool>)
    requires s != [] && !s[0]
    ensures Runs(s) == Runs(s[1..])
  {
  }

  lemma TakeFirst(s: seq<bool>)
    requires s != [] && s[0]
    ensures Runs(s) == [LeadingFilled(s)] + Runs(s[LeadingFilled(s)..])
  {
  }

  /** A leading empty cell of s contributes nothing with t behind it either. */
  lemma SkipFirstOfAppend(s: seq<bool>, t: seq<bool>)
    requires s != [] && !s[0]
    ensures Runs(s + t) == Runs(s[1..] + t)
  {
    assert (s + t)[1..] == s[1..] + t;
  }

  /** A run that ends inside s is read the same with t behind it. */
  lemma TakeFirstOfAppend(s: seq<bool>, t: seq<bool>)
    requires s != [] && s[0] && LeadingFilled(s) < |s|
    ensures var k := LeadingFilled(s); Runs(s + t) == [k] + Runs(s[k..] + t)
  {
    var k, u := LeadingFilled(s), s + t;
    LeadingFilledOfAppend(s, t);
    assert u[0];
    assert u[k..] == s[k..] + t;
  }

  /** Dropping a proper prefix of s keeps the empty cell where s meets t. */
  lemma BoundaryOfSuffix(s: seq<bool>, t: seq<bool>, k: nat)
    requires k <= |s|
    requires s == [] || t == [] || !s[|s| - 1] || !t[0]
    ensures s[k..] == [] || t == [] || !s[k..][|s[k..]| - 1] || !t[0]
  {
    if k < |s| {
      assert s[k..][|s[k..]| - 1] == s[|s| - 1];
    }
  }

  /** A run that ends inside s ends at the same place in s + t. */
  lemma LeadingFilledOfAppend(s: seq<bool>, t: seq<bool>)
    requires LeadingFilled(s) < |s|
    ensures LeadingFilled(s + t) == LeadingFilled(s)
  {
    var k, u := LeadingFilled(s), s + t;
    assert forall i :: 0 <= i <= k ==> u[i] == s[i];
    LeadingFilledUnique(u, k);
  }

  /** A fully filled s followed by an empty cell is one run of length |s|. */
  lemma RunsFilledThen(s: seq<bool>, t: seq<bool>)
    requires s != [] && s[0] && LeadingFilled(s) == |s|
    requires t != [] && !t[0]
    ensures Runs(s + t) == Runs(s) + Runs(t)
  {
    LeadingFilledUnique(s + t, |s|);
    assert (s + t)[|s|..] == t;
    assert s[|s|..] == [];
  }

  lemma LeadingFilledUnique(line: seq<bool>, k: nat)
    requires k <= |line|
    requires forall i :: 0 <= i < k ==> line[i]
    requires k < |line| ==> !line[k]
    ensures LeadingFilled(line) == k
  {
  }

  /** A non-empty fully filled piece is a single run. */
  lemma RunsOfFilled(s: seq<bool>)
    requires |s| > 0 && forall i :: 0 <= i < |s| ==> s[i]
    ensures Runs(s) == [|s|]
  {
    LeadingFilledUnique(s, |s|);
    assert s[|s|..] == [];
  }

  /** Every run has at least one cell. */
  lemma {:induction false} RunsPositive(line: seq<bool>)
    ensures forall i :: 0 <= i < |Runs(line)| ==> Runs(line)[i] >= 1
    decreases |line|
  {
    if line == [] {
    } else if !line[0] {
      RunsPositive(line[1..]);
    } else {
      var k := LeadingFilled(line);
      RunsPositive(line[k..]);
      assert Runs(line) == [k] + Runs(line[k..]);
    }
  }

  /** A line has no runs exactly when it has no filled cell. */
  lemma {:induction false} RunsEmptyIff(line: seq<bool>)
    ensures Runs(line) == [] <==> true !in line
    decreases |line|
  {
    if line != [] {
      if !line[0] {
        RunsEmptyIff(line[1..]);
        assert line == [line[0]] + line[1..];
      }
    }
  }

  /** Every hint list is non-empty and is [0] exactly for a line with no filled cell. */
  lemma LineHintsSentinel(line: seq<bool>)
    ensures |LineHints(line)| >= 1
    ensures LineHints(line) == [0] <==> true !in line
    ensures LineHints(line) != [0] ==> forall i :: 0 <= i < |LineHints(line)| ==> LineHints(line)[i] >= 1
  {
    RunsEmptyIff(line);
    RunsPositive(line);
  }

  /** The hints add up to the number of filled cells. */
  lemma {:induction false} RunsSum(line: seq<bool>)
    ensures Sum(Runs(line)) == CountFilled(line)
    decreases |line|
  {
    if line == [] {
    } else if !line[0] {
      RunsSum(line[1..]);
    } else {
      var k := LeadingFilled(line);
      RunsSum(line[k..]);
      CountFilledSplit(line, k);
    }
  }

  lemma {:induction false} CountFilledSplit(line: seq<bool>, k: nat)
    requires k <= |line| && forall i :: 0 <= i < k ==> line[i]
    ensures CountFilled(line) == k + CountFilled(line[k..])
    decreases k
  {
    if k > 0 {
      CountFilledSplit(line[1..], k - 1);
      assert line[1..][k - 1..] == line[k..];
    }
  }

  /** The runs with one empty cell between neighbours fit in the line. */
  lemma {:induction false} RunsFit(line: seq<bool>)
    ensures Sum(Runs(line)) + |Runs(line)| <= |line| + 1
    decreases |line|
  {
    if line == [] {
    } else if !line[0] {
      RunsFit(line[1..]);
    } else {
      var k := LeadingFilled(line);
      if k < |line| {
        RunsFit(line[k + 1..]);
        assert line[k..] == [false] + line[k + 1..];
        RunsAppend([false], line[k + 1..]);
        assert Runs([false]) == Runs([]);
      } else {
        assert line[k..] == [];
      }
    }
  }

  /** Same lemma for the hint list of a line, sentinel included. */
  lemma LineHintsFit(line: seq<bool>)
    ensures Sum(LineHints(line)) == CountFilled(line)
    ensures Sum(LineHints(line)) + |LineHints(line)| - 1 <= |line|
  {
    RunsSum(line);
    RunsFit(line);
    RunsEmptyIff(line);
    if Runs(line) == [] {
      assert Sum([0]) == 0;
      if |line| == 0 { } else { CountFilledNone(line); }
    }
  }

  lemma {:induction false} CountFilledNone(line: seq<bool>)
    requires true !in line
    ensures CountFilled(line) == 0
    decreases |line|
  {
    if line != [] {
      assert line[0] == false;
      assert forall i :: 0 <= i < |line[1..]| ==> line[1..][i] == line[i + 1];
      CountFilledNone(line[1..]);
    }
  }

  /** A fully filled line of length n has hints [n]; an empty line has hints [0]. */
  lemma FullAndEmptyLines(n: nat)
    ensures n > 0 ==> LineHints(Trues(n)) == [n]
    ensures LineHints(Falses(n)) == [0]
  {
    if n > 0 {
      RunsOfFilled(Trues(n));
    }
    RunsEmptyIff(Falses(n));
  }

  lemma Example()
    ensures LineHints([true, false, true, true, false]) == [1, 2]
  {
  }

  // ---------------------------------------------------------------------
  // Hints describe the line completely
  // ---------------------------------------------------------------------

  /**
   * The line drawn from a hint list: gaps[0] empty cells, a run of hints[0]
   * filled cells, gaps[1] empty cells, and so on, ending with the last gap.
   */
  function Place(hints: seq<nat>, gaps: seq<nat>): seq<bool>
    requires |gaps| == |hints| + 1
  {
    Falses(gaps[0]) + if hints == [] then [] else Trues(hints[0]) + Place(hints[1..], gaps[1..])
  }

  /** Runs are positive and neighbouring runs are separated by at least one empty cell. */
  predicate ValidPlacement(hints: seq<nat>, gaps: seq<nat>) {
    && |gaps| == |hints| + 1
    && (forall i :: 0 <= i < |hints| ==> hints[i] >= 1)
    && (forall i :: 0 < i < |hints| ==> gaps[i] >= 1)
  }

  /** Reading the runs back from a placed line recovers the hints. */
  lemma {:induction false} RunsOfPlace(hints: seq<nat>, gaps: seq<nat>)
    requires ValidPlacement(hints, gaps)
    ensures Runs(Place(hints, gaps)) == hints
    decreases |hints|
  {
    if hints == [] {
      assert Place(hints, gaps) == Falses(gaps[0]);
      RunsOfFalses(gaps[0]);
    } else {
      assert ValidPlacement(hints[1..], gaps[1..]);
      RunsOfPlace(hints[1..], gaps[1..]);
      RunsOfPlaceStep(hints, gaps);
    }
  }

  /** One step of RunsOfPlace: the leading gap adds no run and the first run is read as hints[0]. */
  lemma RunsOfPlaceStep(hints: seq<nat>, gaps: seq<nat>)
    requires ValidPlacement(hints, gaps) && hints != []
    requires Runs(Place(hints[1..], gaps[1..])) == hints[1..]
    ensures Runs(Place(hints, gaps)) == hints
  {
    var run, rest := Trues(hints[0]), Place(hints[1..], gaps[1..]);
    RestStartsEmpty(hints, gaps);
    RunThenRest(hints[0], rest);
    GapThenRest(gaps[0], run + rest);
    assert Place(hints, gaps) == Falses(gaps[0]) + (run + rest);
    assert hints == [hints[0]] + hints[1..];
  }

  /** A run of k filled cells followed by an empty cell (or nothing) is read as k. */
  lemma RunThenRest(k: nat, rest: seq<bool>)
    requires k >= 1 && (rest == [] || !rest[0])
    ensures Runs(Trues(k) + rest) == [k] + Runs(rest)
  {
    RunsOfFilled(Trues(k));
    RunsAppend(Trues(k), rest);
  }

  /** Leading empty cells add no run. */
  lemma GapThenRest(n: nat, rest: seq<bool>)
    ensures Runs(Falses(n) + rest) == Runs(rest)
  {
    RunsOfFalses(n);
    RunsAppend(Falses(n), rest);
  }

  /** After the first run of a valid placement comes an empty cell, or nothing. */
  lemma RestStartsEmpty(hints: seq<nat>, gaps: seq<nat>)
    requires ValidPlacement(hints, gaps) && hints != []
    ensures var rest := Place(hints[1..], gaps[1..]); rest == [] || !rest[0]
  {
    if hints[1..] != [] {
      assert gaps[1..][0] >= 1;
    }
  }

  lemma RunsOfFalses(n: nat)
    ensures Runs(Falses(n)) == []
  {
    var lead := Falses(n);
    assert true !in lead by {
      assert forall i :: 0 <= i < |lead| ==> !lead[i];
    }
    RunsEmptyIff(lead);
  }

  /** Every line is the placement of its own runs with some gaps. */
  lemma {:induction false} PlaceOfRuns(line: seq<bool>) returns (gaps: seq<nat>)
    ensures ValidPlacement(Runs(line), gaps)
    ensures Place(Runs(line), gaps) == line
    decreases |line|
  {
    if line == [] {
      gaps := [0];
    } else if !line[0] {
      var g := PlaceOfRuns(line[1..]);
      gaps := PlaceOfRunsSkip(line, g);
    } else {
      var k := LeadingFilled(line);
      var g := PlaceOfRuns(line[k..]);
      gaps := PlaceOfRunsRun(line, g);
    }
  }

  /** A line starting with an empty cell: widen the first gap of its tail's placement. */
  lemma PlaceOfRunsSkip(line: seq<bool>, g: seq<nat>) returns (gaps: seq<nat>)
    requires line != [] && !line[0]
    requires ValidPlacement(Runs(line[1..]), g) && Place(Runs(line[1..]), g) == line[1..]
    ensures ValidPlacement(Runs(line), gaps)
    ensures Place(Runs(line), gaps) == line
  {
    gaps := [g[0] + 1] + g[1..];
    PlaceWiderFirstGap(Runs(line[1..]), g);
    assert line == [false] + line[1..];
  }

  /** A line starting with a run of k filled cells: a zero first gap, then that run. */
  lemma PlaceOfRunsRun(line: seq<bool>, g: seq<nat>) returns (gaps: seq<nat>)
    requires line != [] && line[0]
    requires var k := LeadingFilled(line);
      ValidPlacement(Runs(line[k..]), g) && Place(Runs(line[k..]), g) == line[k..]
    ensures ValidPlacement(Runs(line), gaps)
    ensures Place(Runs(line), gaps) == line
  {
    var k := LeadingFilled(line);
    var r := Runs(line[k..]);
    gaps := [0] + g;
    assert Runs(line) == [k] + r;
    if r != [] {
      PlaceFirstGap(r, g);
    }
    ValidRunFirst(k, r, g);
    PlaceRunFirst(k, r, g);
    SplitAtRun(line, k);
  }

  /** Putting a run in front of a valid placement, with no gap before it, is valid. */
  lemma ValidRunFirst(k: nat, hints: seq<nat>, gaps: seq<nat>)
    requires k >= 1 && ValidPlacement(hints, gaps)
    requires hints != [] ==> gaps[0] >= 1
    ensures ValidPlacement([k] + hints, [0] + gaps)
  {
    var h, g := [k] + hints, [0] + gaps;
    assert forall i :: 0 < i < |h| ==> h[i] == hints[i - 1] && g[i] == gaps[i - 1];
  }

  lemma SplitAtRun(line: seq<bool>, k: nat)
    requires k == LeadingFilled(line)
    ensures line == Trues(k) + line[k..]
  {
    assert line[..k] == Trues(k);
    assert line == line[..k] + line[k..];
  }

  lemma PlaceWiderFirstGap(hints: seq<nat>, gaps: seq<nat>)
    requires |gaps| == |hints| + 1
    ensures Place(hints, [gaps[0] + 1] + gaps[1..]) == [false] + Place(hints, gaps)
  {
    var g' := [gaps[0] + 1] + gaps[1..];
    assert g'[1..] == gaps[1..];
    assert Falses(gaps[0] + 1) == [false] + Falses(gaps[0]);
  }

  lemma PlaceRunFirst(k: nat, hints: seq<nat>, gaps: seq<nat>)
    requires |gaps| == |hints| + 1
    ensures Place([k] + hints, [0] + gaps) == Trues(k) + Place(hints, gaps)
  {
    assert ([k] + hints)[1..] == hints;
    assert ([0] + gaps)[1..] == gaps;
    assert Falses(0) == [];
  }

  /** A placement that starts with an empty cell has a non-zero first gap. */
  lemma PlaceFirstGap(hints: seq<nat>, gaps: seq<nat>)
    requires ValidPlacement(hints, gaps) && hints != []
    requires |Place(hints, gaps)| > 0 && !Place(hints, gaps)[0]
    ensures gaps[0] >= 1
  {
  }

  /** Columns are read exactly as the rows of the transposed grid, short rows included. */
  lemma ColumnsAreTransposedRows(grid: seq<seq<bool>>)
    requires 0 < |grid| && 0 < |grid[0]|
    ensures Nonogram(grid).cols == Nonogram(Transpose(grid)).rows
  {
    var t := Transpose(grid);
    forall x | 0 <= x < |grid[0]|
      ensures ColumnLine(grid, x) == RowLine(t, x)
    {
      assert |t[0]| == |grid|;
      assert forall y :: 0 <= y < |grid| ==> Cell(t, x, y) == Cell(grid, y, x);
    }
  }

  /** For rectangular grids the row read by the scan is the stored row itself. */
  lemma RowLineOfRectangular(grid: seq<seq<bool>>, y: nat)
    requires 0 < |grid| && y < |grid| && Rectangular(grid)
    ensures RowLine(grid, y) == grid[y]
  {
  }
}
