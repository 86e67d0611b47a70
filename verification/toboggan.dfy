/** The toboggan ride: a grid of one-character cells that repeats to the
    right without end; a slope goes `run` columns right for every `rise`
    rows down, and the answer counts the `#` cells it lands on. */
module Toboggan {
  import opened Wrappers
  import opened RustStr
  import opened Arith
  import Iter

  /** One row per input line, one single-character string per cell. */
  type Grid = seq<seq<string>>

  // ---------------------------------------------------------------------
  // Which rows a slope visits

  /** The rows `row, row + rise, row + 2 * rise, ...` below `n`. */
  function VisitFrom(row: nat, n: nat, rise: nat): (rows: seq<nat>)
    requires rise > 0
    ensures forall k :: 0 <= k < |rows| ==> row <= rows[k] < n
    ensures rows == [] <==> row >= n
    ensures rows != [] ==> rows[0] == row && rows[|rows| - 1] + rise >= n
    decreases n - row
  {
    if row >= n then [] else [row] + VisitFrom(row + rise, n, rise)
  }

  /** Consecutive visited rows are `rise` apart. */
  lemma {:induction false} VisitFromNext(row: nat, n: nat, rise: nat, k: nat)
    requires rise > 0 && k + 1 < |VisitFrom(row, n, rise)|
    ensures VisitFrom(row, n, rise)[k + 1] == VisitFrom(row, n, rise)[k] + rise
    decreases n - row
  {
    if k > 0 {
      VisitFromNext(row + rise, n, rise, k - 1);
    }
  }

  /** The k-th visited row is `row + k * rise`. */
  lemma {:induction false} VisitFromClosed(row: nat, n: nat, rise: nat, k: nat)
    requires rise > 0 && k < |VisitFrom(row, n, rise)|
    ensures VisitFrom(row, n, rise)[k] == row + k * rise
    decreases n - row
  {
    if k > 0 {
      VisitFromClosed(row + rise, n, rise, k - 1);
      MulSucc(k - 1, rise);
    }
  }

  /** Every row `row + k * rise` below `n` is visited, as the k-th one. */
  lemma {:induction false} VisitFromReaches(row: nat, n: nat, rise: nat, k: nat)
    requires rise > 0 && row + k * rise < n
    ensures k < |VisitFrom(row, n, rise)| && VisitFrom(row, n, rise)[k] == row + k * rise
  {
    if k > 0 {
      MulSucc(k - 1, rise);
      VisitFromReaches(row, n, rise, k - 1);
      VisitFromClosed(row, n, rise, k - 1);
    }
    VisitFromClosed(row, n, rise, k);
  }

  /** `lines.iter().skip(1).step_by(rise)`: the first row is never visited. */
  function VisitedRows(n: nat, rise: nat): seq<nat>
    requires rise > 0
  {
    VisitFrom(1, n, rise)
  }

  /** A row is visited exactly when it lies below the first row, inside the
      grid, a whole number of rises below row 1. */
  lemma VisitedRowsExactly(n: nat, rise: nat, i: nat)
    requires rise > 0
    ensures i in VisitedRows(n, rise) <==> 1 <= i < n && (i - 1) % rise == 0
  {
    if i in VisitedRows(n, rise) {
      VisitedRowIsStep(n, rise, i);
    } else if 1 <= i < n && (i - 1) % rise == 0 {
      StepRowIsVisited(n, rise, i);
    }
  }

  lemma VisitedRowIsStep(n: nat, rise: nat, i: nat)
    requires rise > 0 && i in VisitedRows(n, rise)
    ensures 1 <= i < n && (i - 1) % rise == 0
  {
    var rows := VisitedRows(n, rise);
    var k :| 0 <= k < |rows| && rows[k] == i;
    VisitFromClosed(1, n, rise, k);
    DivModUnique(i - 1, rise, k, 0);
  }

  lemma StepRowIsVisited(n: nat, rise: nat, i: nat)
    requires rise > 0 && 1 <= i < n && (i - 1) % rise == 0
    ensures i in VisitedRows(n, rise)
  {
    var q := (i - 1) / rise;
    assert i - 1 == q * rise + (i - 1) % rise;
    VisitFromReaches(1, n, rise, q);
  }

  // ---------------------------------------------------------------------
  // Walking the visited rows

  /** The state after walking the visited rows `rows`: the column the slope
      stands in and the trees met so far. Each step adds `run` to the
      column and wraps it at the width of the row entered; entering an
      empty row is a modulo by zero, a panic, and yields `None`. */
  function Walk(lines: Grid, rows: seq<nat>, run: nat): (r: Option<(nat, nat)>)
    requires forall k :: 0 <= k < |rows| ==> rows[k] < |lines|
    decreases |rows|
  {
    if rows == [] then Some((0, 0))
    else
      var n := |rows| - 1;
      match Walk(lines, rows[..n], run)
      case None => None
      case Some((x, hits)) =>
        var line := lines[rows[n]];
        if |line| == 0 then None
        else
          var x' := (x + run) % |line|;
          Some((x', hits + if line[x'] == "#" then 1 else 0))
  }

  /** The walk meets at most one tree per visited row, and stands inside
      the last row it entered. */
  lemma {:induction false} WalkBound(lines: Grid, rows: seq<nat>, run: nat)
    requires forall k :: 0 <= k < |rows| ==> rows[k] < |lines|
    ensures var r := Walk(lines, rows, run);
      r.Some? ==> r.value.1 <= |rows| && (rows != [] ==> r.value.0 < |lines[rows[|rows| - 1]]|)
    decreases |rows|
  {
    if rows != [] {
      WalkBound(lines, rows[..|rows| - 1], run);
    }
  }

  /** One step more: entering a non-empty row moves the column and counts
      the cell landed on. */
  lemma WalkSnoc(lines: Grid, rows: seq<nat>, run: nat, x: nat, hits: nat)
    requires forall k :: 0 <= k < |rows| ==> rows[k] < |lines|
    requires rows != [] && Walk(lines, rows[..|rows| - 1], run) == Some((x, hits))
    requires |lines[rows[|rows| - 1]]| > 0
    ensures var line := lines[rows[|rows| - 1]];
      var x' := (x + run) % |line|;
      Walk(lines, rows, run) == Some((x', hits + if line[x'] == "#" then 1 else 0))
  {
  }

  /** Once the walk has panicked it stays panicked. */
  lemma {:induction false} WalkNoneExtends(lines: Grid, rows: seq<nat>, run: nat, j: nat)
    requires forall k :: 0 <= k < |rows| ==> rows[k] < |lines|
    requires j <= |rows| && Walk(lines, rows[..j], run) == None
    ensures Walk(lines, rows, run) == None
    decreases |rows|
  {
    if j < |rows| {
      var n := |rows| - 1;
      assert rows[..n][..j] == rows[..j];
      WalkNoneExtends(lines, rows[..n], run, j);
    } else {
      assert rows[..j] == rows;
    }
  }

  /** The walk panics exactly when it enters an empty row. */
  lemma {:induction false} WalkDefined(lines: Grid, rows: seq<nat>, run: nat)
    requires forall k :: 0 <= k < |rows| ==> rows[k] < |lines|
    ensures Walk(lines, rows, run).Some? <==> forall k :: 0 <= k < |rows| ==> |lines[rows[k]]| > 0
    decreases |rows|
  {
    if rows != [] {
      var n := |rows| - 1;
      WalkDefined(lines, rows[..n], run);
      assert forall k :: 0 <= k < n ==> rows[..n][k] == rows[k];
    }
  }

  /** The column after `k` steps of `run` on rows of one common width `w`. */
  function Column(k: nat, run: nat, w: nat): nat
    requires w > 0
  {
    if k == 0 then 0 else (Column(k - 1, run, w) + run) % w
  }

  /** The column after `k` steps is `(k * run) mod w`. */
  lemma {:induction false} ColumnClosed(k: nat, run: nat, w: nat)
    requires w > 0
    ensures Column(k, run, w) == (k * run) % w
  {
    if k > 0 {
      ColumnClosed(k - 1, run, w);
      ModNextMultiple(Column(k - 1, run, w), k - 1, k, run, w);
    }
  }

  /** Trees met on rows of one common width `w` when the k-th visited row
      (counting from 1) is entered at `Column(k, run, w)`. */
  function UniformHits(lines: Grid, rows: seq<nat>, run: nat, w: nat): nat
    requires w > 0
    requires forall k :: 0 <= k < |rows| ==> rows[k] < |lines| && |lines[rows[k]]| == w
    decreases |rows|
  {
    if rows == [] then 0
    else
      var n := |rows| - 1;
      UniformHits(lines, rows[..n], run, w)
        + if lines[rows[n]][Column(|rows|, run, w)] == "#" then 1 else 0
  }

  /** On rows of one common, non-zero width `w` the walk never panics, it
      stands in `Column(|rows|, run, w)`, and the trees it meets are those
      at the columns `Column(k, run, w)`. */
  lemma {:induction false} WalkUniform(lines: Grid, rows: seq<nat>, run: nat, w: nat)
    requires w > 0
    requires forall k :: 0 <= k < |rows| ==> rows[k] < |lines| && |lines[rows[k]]| == w
    ensures Walk(lines, rows, run) == Some((Column(|rows|, run, w), UniformHits(lines, rows, run, w)))
    decreases |rows|
  {
    if rows != [] {
      var n := |rows| - 1;
      var prev := rows[..n];
      WalkUniform(lines, prev, run, w);
      WalkSnoc(lines, rows, run, Column(n, run, w), UniformHits(lines, prev, run, w));
    }
  }

  // ---------------------------------------------------------------------
  // Counting the trees

  /** What `hits_on_slope` computes: nothing when `rise` is 0 (a zero
      `step_by` panics) or when a visited row is empty (the modulo by its
      width panics), otherwise the trees met on the visited rows. */
  function SlopeHits(lines: Grid, rise: nat, run: nat): (r: Option<nat>)
    ensures r.Some? ==> rise > 0
  {
    if rise == 0 then None
    else
      match Walk(lines, VisitedRows(|lines|, rise), run)
      case None => None
      case Some((_, hits)) => Some(hits)
  }

  /** `hits_on_slope`: walk the visited rows, moving the column by `run` and
      wrapping it at the row's width, and count the `#` cells. */
  method HitsOnSlope(lines: Grid, rise: nat, run: nat) returns (r: Option<nat>)
    ensures r == SlopeHits(lines, rise, run)
  {
    if rise == 0 {
      return None;
    }
    ghost var rows := VisitedRows(|lines|, rise);
    var hitCount := 0;
    var xPos := 0;
    var row := 1;
    ghost var k := 0;
    while row < |lines|
      invariant k <= |rows|
      invariant k < |rows| ==> row == rows[k]
      invariant k == |rows| ==> row >= |lines|
      invariant Walk(lines, rows[..k], run) == Some((xPos, hitCount))
      decreases |lines| - row
    {
      var line := lines[row];
      assert rows[..k + 1][..k] == rows[..k];
      if |line| == 0 {
        WalkNoneExtends(lines, rows, run, k + 1);
        return None;
      }
      WalkSnoc(lines, rows[..k + 1], run, xPos, hitCount);
      xPos := (xPos + run) % |line|;
      if line[xPos] == "#" {
        hitCount := hitCount + 1;
      }
      if k + 1 < |rows| {
        VisitFromNext(1, |lines|, rise, k);
      }
      row := row + rise;
      k := k + 1;
    }
    assert rows[..k] == rows;
    return Some(hitCount);
  }

  /** On a grid of one common, non-zero width the count is the trees at the
      columns `Column(k, run, w)`, that is `(k * run) mod w`, of the visited
      rows. */
  lemma SlopeHitsUniform(lines: Grid, rise: nat, run: nat, w: nat)
    requires rise > 0 && w > 0
    requires forall i :: 0 <= i < |lines| ==> |lines[i]| == w
    ensures SlopeHits(lines, rise, run) == Some(UniformHits(lines, VisitedRows(|lines|, rise), run, w))
  {
    WalkUniform(lines, VisitedRows(|lines|, rise), run, w);
  }

  /** At most one tree is met per visited row. */
  lemma SlopeHitsBound(lines: Grid, rise: nat, run: nat)
    ensures SlopeHits(lines, rise, run).Some? ==> SlopeHits(lines, rise, run).value <= |VisitedRows(|lines|, rise)|
  {
    if rise > 0 {
      WalkBound(lines, VisitedRows(|lines|, rise), run);
    }
  }

  /** A slope with a non-zero rise has an answer exactly when none of the
      rows it visits is empty. */
  lemma SlopeHitsDefined(lines: Grid, rise: nat, run: nat)
    requires rise > 0
    ensures SlopeHits(lines, rise, run).Some?
      <==> forall i :: 0 <= i < |lines| && i in VisitedRows(|lines|, rise) ==> |lines[i]| > 0
  {
    WalkDefined(lines, VisitedRows(|lines|, rise), run);
  }

  // ---------------------------------------------------------------------
  // The two answers

  /** `task_1`: the trees on slope right 3, down 1, cast to 32 bits. */
  function Task1(lines: Grid): Option<nat> {
    match SlopeHits(lines, 1, 3)
    case None => None
    case Some(hits) => Some(hits % U32_LIMIT)
  }

  /** The cast to 32 bits never changes the count of a grid with fewer than
      2^32 rows. */
  lemma Task1IsSlopeHits(lines: Grid)
    requires |lines| <= U32_LIMIT
    ensures Task1(lines) == SlopeHits(lines, 1, 3)
  {
    var r := SlopeHits(lines, 1, 3);
    if r.Some? {
      SlopeHitsBound(lines, 1, 3);
      var rows := VisitedRows(|lines|, 1);
      assert |rows| < U32_LIMIT by {
        if rows != [] {
          VisitFromClosed(1, |lines|, 1, |rows| - 1);
        }
      }
      assert r.value % U32_LIMIT == r.value;
    }
  }

  /** `(1..=7).step_by(2)`: the runs tried at rise 1. */
  const TASK2_RUNS: seq<nat> := [1, 3, 5, 7]

  /** The `fold` of `task_2`: multiply the hits of each run at rise 1 into
      the accumulator; the first slope that panics ends the run. */
  function FoldHits(lines: Grid, runs: seq<nat>, acc: nat): Option<nat>
    decreases |runs|
  {
    if runs == [] then Some(acc)
    else
      match SlopeHits(lines, 1, runs[0])
      case None => None
      case Some(hits) =>
        MulNonneg(acc, hits);
        FoldHits(lines, runs[1..], acc * hits)
  }

  /** `task_2`: the fold from 1, times the hits at rise 2, run 1. */
  function Task2(lines: Grid): Option<nat> {
    var product := FoldHits(lines, TASK2_RUNS, 1);
    var hits := SlopeHits(lines, 2, 1);
    if product.Some? && hits.Some? then
      MulNonneg(product.value, hits.value);
      Some(product.value * hits.value)
    else None
  }

  /** `task_2` is the product of the five slopes' counts, and has an answer
      exactly when all five do. */
  lemma Task2IsProduct(lines: Grid)
    ensures Task2(lines).Some? <==>
      SlopeHits(lines, 1, 1).Some? && SlopeHits(lines, 1, 3).Some? && SlopeHits(lines, 1, 5).Some?
      && SlopeHits(lines, 1, 7).Some? && SlopeHits(lines, 2, 1).Some?
    ensures Task2(lines).Some? ==>
      Task2(lines).value == SlopeHits(lines, 1, 1).value * SlopeHits(lines, 1, 3).value
        * SlopeHits(lines, 1, 5).value * SlopeHits(lines, 1, 7).value * SlopeHits(lines, 2, 1).value
  {
    var h1, h3, h5, h7 := SlopeHits(lines, 1, 1), SlopeHits(lines, 1, 3), SlopeHits(lines, 1, 5), SlopeHits(lines, 1, 7);
    var runs := TASK2_RUNS;
    assert runs[1..] == [3, 5, 7] && runs[1..][1..] == [5, 7];
    assert runs[1..][1..][1..] == [7] && runs[1..][1..][1..][1..] == [];
    var fold := FoldHits(lines, TASK2_RUNS, 1);
    if h1.Some? && h3.Some? && h5.Some? && h7.Some? {
      MulNonneg(h1.value, h3.value);
      var p13: nat := h1.value * h3.value;
      MulNonneg(p13, h5.value);
      var p135: nat := p13 * h5.value;
      MulNonneg(p135, h7.value);
      var p1357: nat := p135 * h7.value;
      assert FoldHits(lines, [7], p135) == Some(p1357);
      assert FoldHits(lines, [5, 7], p13) == Some(p1357);
      assert FoldHits(lines, [3, 5, 7], h1.value) == Some(p1357);
      assert fold == Some(p1357);
    } else {
      assert fold == None;
    }
  }

  // ---------------------------------------------------------------------
  // Reading the grid

  /** The non-empty strings of a sequence, in order: `.filter(|s| !s.is_empty())`. */
  function NonEmpty(pieces: seq<string>): (kept: seq<string>)
    ensures forall i :: 0 <= i < |kept| ==> kept[i] != []
    decreases |pieces|
  {
    if pieces == [] then []
    else (if pieces[0] == [] then [] else [pieces[0]]) + NonEmpty(pieces[1..])
  }

  /** Splitting on the empty pattern and dropping the empty pieces leaves
      the characters, one per piece. */
  lemma {:induction false} NonEmptySplitEmpty(s: string)
    ensures NonEmpty(SplitEmpty(s)) == Cells(s)
  {
    NonEmptyCells(s);
    var pieces := SplitEmpty(s);
    assert pieces[1..] == Cells(s) + [[]];
    NonEmptyAppend(Cells(s), [[]]);
    assert NonEmpty([[]]) == [];
    assert Cells(s) + [] == Cells(s);
  }

  lemma {:induction false} NonEmptyAppend(a: seq<string>, b: seq<string>)
    ensures NonEmpty(a + b) == NonEmpty(a) + NonEmpty(b)
    decreases |a|
  {
    if a == [] {
      assert a + b == b;
    } else {
      assert (a + b)[1..] == a[1..] + b;
      NonEmptyAppend(a[1..], b);
    }
  }

  lemma {:induction false} NonEmptyCells(s: string)
    ensures NonEmpty(Cells(s)) == Cells(s)
    decreases |s|
  {
    if s != [] {
      assert Cells(s)[1..] == Cells(s[1..]);
      NonEmptyCells(s[1..]);
    }
  }

  /** One line of the file as a row of the grid: trimmed, then cut into
      its characters, one per cell. */
  function Row(line: string): seq<string> {
    Cells(Trim(line))
  }

  /** `get_contents_from_input` once the file has been read: one row per
      line, the trimmed line split on the empty pattern with the empty
      pieces dropped. */
  method GetContents(contents: string) returns (lines: Grid)
    ensures lines == Iter.Map(Lines(contents), Row)
  {
    var input := Lines(contents);
    lines := [];
    var i := 0;
    while i < |input|
      invariant i <= |input|
      invariant lines == Iter.Map(input[..i], Row)
    {
      var line := NonEmpty(SplitEmpty(Trim(input[i])));
      assert line == Row(input[i]) by {
        NonEmptySplitEmpty(Trim(input[i]));
      }
      Iter.MapSnoc(input, i, Row);
      lines := lines + [line];
      i := i + 1;
    }
    assert input[..i] == input;
  }

  /** Each row of the grid is its trimmed line again, one character per
      cell. */
  lemma RowIsTrimmedLine(line: string)
    ensures Flatten(Row(line)) == Trim(line)
    ensures forall j :: 0 <= j < |Row(line)| ==> |Row(line)[j]| == 1
  {
    FlattenCells(Trim(line));
  }

}
