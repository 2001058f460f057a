/**
 * One grading attempt (app.py lines 77-127): align the submission with the
 * ground truth, reject a column mismatch, score the error matrix, locate the
 * worst cell and cut the comparison window around it.
 */
module Grading {
  import opened Tables
  import opened Diff
  import opened Windows

  /** The report dictionary `rpt` of app.py lines 95-100. */
  datatype Report = Report(totalErr: Cell, maxErr: Cell, rowLabel: Label, colLabel: string)

  /** What a successful attempt leaves behind: the report, the plotted window
      and the re-indexed submission. */
  datatype Graded = Graded(report: Report, window: seq<Point>, aligned: Table<Cell>)

  /** What the ground-truth file is taken to be: rectangular, with row labels
      and column names that do not repeat. */
  predicate TruthOk(t: Table<int>) {
    Rectangular(t) && Unique(t.labels) && Unique(t.columns)
  }

  /** A re-indexed submission that passed the column check, against a truth
      table with at least one cell. */
  predicate Scorable(truth: Table<int>, aligned: Table<Cell>) {
    && TruthOk(truth) && Rectangular(aligned)
    && aligned.labels == truth.labels && aligned.columns == truth.columns
    && |truth.rows| > 0 && |truth.columns| > 0
  }

  /** Lines 83-127: the error matrix, its total and maximum, the worst cell
      by `argmax` and `divmod`, its labels, and the comparison window, found
      again from those labels with `get_loc`. */
  function Score(truth: Table<int>, aligned: Table<Cell>): (g: Graded)
    requires Scorable(truth, aligned)
    ensures g.aligned == aligned
  {
    var m := ErrorMatrix(truth, aligned);
    var n := |truth.columns|;
    FlattenLength(m, n);
    MulMonotone(1, |m|, n);
    var flat := Flatten(m);
    var loc := WorstCell(m, n);
    var report := Report(SumCells(flat), MaxCells(flat), truth.labels[loc.row], truth.columns[loc.col]);
    var c := IndexOf(truth.columns, report.colLabel);
    IndexOfUnique(truth.columns, loc.col);
    var idx :=
      if IsTimeIndex(truth.labels) then SameDayRows(truth.labels, report.rowLabel.day)
      else SliceRows(|truth.labels|, IndexOf(truth.labels, report.rowLabel));
    Graded(report, Renumber(truth, aligned, idx, c), aligned)
  }

  /** The whole submit handler, up to storing its results: re-index (line 77),
      compare columns (lines 78-80), then score; `np.max` of an empty matrix
      raises, which ends the attempt. */
  function Grade(truth: Table<int>, sub: Table<Cell>): (r: Result<Graded>)
    requires TruthOk(truth) && Rectangular(sub)
    ensures r == Err(DuplicateRowLabels) <==> !Unique(sub.labels)
    ensures r == Err(ColumnMismatch) <==> Unique(sub.labels) && sub.columns != truth.columns
    ensures r == Err(EmptyTable) <==>
              Unique(sub.labels) && sub.columns == truth.columns && (|truth.rows| == 0 || |truth.columns| == 0)
    ensures r.Ok? ==> Reindex(sub, truth.labels).Ok? && r.value.aligned == Reindex(sub, truth.labels).value
  {
    match Reindex(sub, truth.labels)
    case Err(e) => Err(e)
    case Ok(aligned) =>
      if aligned.columns != truth.columns then Err(ColumnMismatch)
      else if |truth.rows| == 0 || |truth.columns| == 0 then Err(EmptyTable)
      else Ok(Score(truth, aligned))
  }

  /** A successful attempt is the score of the re-indexed submission. */
  lemma GradeScoresAligned(truth: Table<int>, sub: Table<Cell>)
    requires TruthOk(truth) && Rectangular(sub) && Grade(truth, sub).Ok?
    ensures Scorable(truth, Reindex(sub, truth.labels).value)
    ensures Grade(truth, sub).value == Score(truth, Reindex(sub, truth.labels).value)
  {
  }

  /** The (row, column) position of the report's labels (`get_loc`). */
  function Position(truth: Table<int>, rpt: Report): (loc: Location)
    requires rpt.rowLabel in truth.labels && rpt.colLabel in truth.columns
    ensures loc.row < |truth.labels| && loc.col < |truth.columns|
    ensures truth.labels[loc.row] == rpt.rowLabel && truth.columns[loc.col] == rpt.colLabel
  {
    Location(IndexOf(truth.labels, rpt.rowLabel), IndexOf(truth.columns, rpt.colLabel))
  }

  /** The report names the divmod decomposition of the flat argmax:
      its row and column labels are those of `WorstCell`. */
  lemma ScorePosition(truth: Table<int>, aligned: Table<Cell>)
    requires Scorable(truth, aligned)
    ensures var g := Score(truth, aligned);
      && g.report.rowLabel in truth.labels && g.report.colLabel in truth.columns
      && Position(truth, g.report) == WorstCell(ErrorMatrix(truth, aligned), |truth.columns|)
  {
    var m := ErrorMatrix(truth, aligned);
    var loc := WorstCell(m, |truth.columns|);
    IndexOfUnique(truth.labels, loc.row);
    IndexOfUnique(truth.columns, loc.col);
  }

  /** The reported location is a cell whose error is the reported maximum;
      no cell has a larger error; every cell before it in row-major order has
      a strictly smaller one. */
  lemma ScoreLocatesWorstCell(truth: Table<int>, aligned: Table<Cell>)
    requires Scorable(truth, aligned)
    ensures var g := Score(truth, aligned);
      var m := ErrorMatrix(truth, aligned);
      && g.report.rowLabel in truth.labels && g.report.colLabel in truth.columns
      && var loc := Position(truth, g.report);
      && m[loc.row][loc.col] == g.report.maxErr
      && (forall i, j :: 0 <= i < |m| && 0 <= j < |truth.columns| ==> Le(m[i][j], g.report.maxErr))
      && (forall i, j :: 0 <= i < |m| && 0 <= j < |truth.columns| && (i < loc.row || (i == loc.row && j < loc.col)) ==>
            !Le(g.report.maxErr, m[i][j]))
  {
    var m := ErrorMatrix(truth, aligned);
    ScorePosition(truth, aligned);
    WorstCellIsFirstMax(m, |truth.columns|, WorstCell(m, |truth.columns|));
  }

  /** Every submitted cell is a number. */
  predicate AllPresent(t: Table<Cell>) {
    forall i, j :: 0 <= i < |t.rows| && 0 <= j < |t.rows[i]| ==> t.rows[i][j].Num?
  }

  /** The total is the sum of the per-row totals; total and maximum are
      numbers exactly when every aligned cell is, and then the maximum lies
      between 0 and the total. */
  lemma ScoreTotals(truth: Table<int>, aligned: Table<Cell>)
    requires Scorable(truth, aligned)
    ensures var g := Score(truth, aligned);
      var m := ErrorMatrix(truth, aligned);
      && g.report.totalErr == SumCells(RowTotals(m))
      && (g.report.totalErr.Num? <==> AllPresent(aligned))
      && (g.report.maxErr.Num? <==> AllPresent(aligned))
      && (AllPresent(aligned) ==> 0 <= g.report.maxErr.v <= g.report.totalErr.v)
  {
    var m := ErrorMatrix(truth, aligned);
    var n := |truth.columns|;
    var flat := Flatten(m);
    FlattenLength(m, n);
    MulMonotone(1, |m|, n);
    SumByRows(m);
    if AllPresent(aligned) {
      forall k | 0 <= k < |flat| ensures flat[k].Num? && flat[k].v >= 0 {
        FlattenCells(m, flat[k]);
      }
      MaxAtMostTotal(flat);
    } else {
      var i, j :| 0 <= i < |aligned.rows| && 0 <= j < |aligned.rows[i]| && aligned.rows[i][j].NaN?;
      FlattenAtRow(m, n, i, j);
      assert flat[RowStart(i, n) + j].NaN?;
    }
  }

  /** The window is the renumbered rows of `WindowRows` at the worst row, in
      the worst column: the calendar day of that row under a time index (see
      `TimeWindowIsTheDay`), the 96-row slice from it otherwise (see
      `SliceWindowStartsAtWorstRow`). */
  lemma ScoreWindow(truth: Table<int>, aligned: Table<Cell>)
    requires Scorable(truth, aligned)
    ensures var g := Score(truth, aligned);
      && g.report.rowLabel in truth.labels && g.report.colLabel in truth.columns
      && var loc := Position(truth, g.report);
      && g.window == Renumber(truth, aligned, WindowRows(truth.labels, loc.row), loc.col)
  {
    ScorePosition(truth, aligned);
  }

  /** The submission as the truth's own values. */
  function AsSubmitted(t: Table<int>): (s: Table<Cell>)
    ensures s.labels == t.labels && s.columns == t.columns && |s.rows| == |t.rows|
    ensures forall i :: 0 <= i < |t.rows| ==> |s.rows[i]| == |t.rows[i]|
    ensures forall i, j :: 0 <= i < |t.rows| && 0 <= j < |t.rows[i]| ==> s.rows[i][j] == Num(t.rows[i][j])
  {
    Table(t.labels, t.columns, seq(|t.rows|, i requires 0 <= i < |t.rows| =>
      seq(|t.rows[i]|, j requires 0 <= j < |t.rows[i]| => Num(t.rows[i][j]))))
  }

  /** A submission equal to the truth cell for cell scores total 0 and
      maximum 0. */
  lemma IdenticalSubmissionScoresZero(truth: Table<int>)
    requires TruthOk(truth) && |truth.rows| > 0 && |truth.columns| > 0
    ensures Grade(truth, AsSubmitted(truth)).Ok?
    ensures Grade(truth, AsSubmitted(truth)).value.report.totalErr == Num(0)
    ensures Grade(truth, AsSubmitted(truth)).value.report.maxErr == Num(0)
  {
    var sub := AsSubmitted(truth);
    ReindexOntoOwnLabels(sub);
    var m := ErrorMatrix(truth, sub);
    FlattenLength(m, |truth.columns|);
    MulMonotone(1, |m|, |truth.columns|);
    ZeroMatrixScoresZero(m);
  }

  /** Same column names in another order are a mismatch, not a zero score. */
  lemma ReorderedColumnsRejected(truth: Table<int>, sub: Table<Cell>)
    requires TruthOk(truth) && Rectangular(sub) && Unique(sub.labels)
    requires truth.columns == ["occ_a", "occ_b"] && sub.columns == ["occ_b", "occ_a"]
    ensures Grade(truth, sub) == Err(ColumnMismatch)
  {
    assert sub.columns[0] != truth.columns[0];
  }

  /** A worked example: four ordinal rows of two columns, one submitted cell
      off by 34 at row label 2, column "B". */
  const ExampleTruth: Table<int> :=
    Table([Key(0), Key(1), Key(2), Key(3)], ["A", "B"], [[1, 2], [3, 4], [5, 6], [7, 8]])
  const ExampleSubmission: Table<Cell> :=
    Table([Key(0), Key(1), Key(2), Key(3)], ["A", "B"],
          [[Num(1), Num(2)], [Num(3), Num(4)], [Num(5), Num(40)], [Num(7), Num(8)]])
  const ExampleErrors: seq<seq<Cell>> := [[Num(0), Num(0)], [Num(0), Num(0)], [Num(0), Num(34)], [Num(0), Num(0)]]
  const ExampleFlat: seq<Cell> := [Num(0), Num(0), Num(0), Num(0), Num(0), Num(34), Num(0), Num(0)]

  lemma ExampleErrorMatrix()
    ensures TruthOk(ExampleTruth) && Rectangular(ExampleSubmission)
    ensures SameShape(ExampleTruth, ExampleSubmission)
    ensures ErrorMatrix(ExampleTruth, ExampleSubmission) == ExampleErrors
  {
    assert "A" != "B" by { assert "A"[0] != "B"[0]; }
    var m := ErrorMatrix(ExampleTruth, ExampleSubmission);
    assert m[0] == [Num(0), Num(0)] && m[1] == [Num(0), Num(0)];
    assert m[2] == [Num(0), Num(34)] && m[3] == [Num(0), Num(0)];
  }

  lemma ExampleFlatten()
    ensures Flatten(ExampleErrors) == ExampleFlat
  {
    var m := ExampleErrors;
    assert m[3..][1..] == [];
    assert m[2..][1..] == m[3..];
    assert m[1..][1..] == m[2..];
  }

  lemma ExampleSum(f: seq<Cell>)
    requires f == ExampleFlat
    ensures SumCells(f) == Num(34)
  {
    assert |f| == 8 && f[5] == Num(34);
    assert forall i :: 0 <= i < |f| && i != 5 ==> f[i] == Num(0);
    SumOfOneError(f, 5);
  }

  lemma ExampleArgMax(f: seq<Cell>)
    requires f == ExampleFlat
    ensures MaxCells(f) == Num(34)
    ensures ArgMax(f) == 5
  {
    assert |f| == 8 && f[5] == Num(34);
    assert forall i :: 0 <= i < |f| && i != 5 ==> f[i] == Num(0);
    FirstMaxUnique(f, 5);
    ArgMaxAttainsMax(f);
  }

  lemma ExampleWindow(truth: Table<int>, sub: Table<Cell>)
    requires truth == ExampleTruth && sub == ExampleSubmission
    ensures Renumber(truth, sub, SliceRows(4, 2), 1) == [Point(1, 6, Num(40)), Point(2, 8, Num(8))]
  {
    var idx := SliceRows(4, 2);
    assert |idx| == 2 && idx[0] == 2 && idx[1] == 3;
    var w := Renumber(truth, sub, idx, 1);
    assert |w| == 2 && w[0] == Point(1, 6, Num(40)) && w[1] == Point(2, 8, Num(8));
  }

  /** The report of `Score`, spelled out from the error matrix. */
  lemma ScoreReport(truth: Table<int>, aligned: Table<Cell>)
    requires Scorable(truth, aligned)
    ensures var m := ErrorMatrix(truth, aligned);
      |m| > 0 && Width(m, |truth.columns|) && |Flatten(m)| > 0
    ensures var m := ErrorMatrix(truth, aligned);
      var loc := WorstCell(m, |truth.columns|);
      Score(truth, aligned).report ==
        Report(SumCells(Flatten(m)), MaxCells(Flatten(m)), truth.labels[loc.row], truth.columns[loc.col])
  {
    var m := ErrorMatrix(truth, aligned);
    FlattenLength(m, |truth.columns|);
    MulMonotone(1, |m|, |truth.columns|);
  }

  lemma ExampleWorstCell(m: seq<seq<Cell>>)
    requires m == ExampleErrors
    ensures WorstCell(m, 2) == Location(2, 1)
  {
    ExampleFlatten();
    ExampleArgMax(Flatten(m));
  }

  /** On the worked example the report names total and maximum 34 at
      (label 2, "B"). */
  lemma ExampleReport(truth: Table<int>, sub: Table<Cell>)
    requires truth == ExampleTruth && sub == ExampleSubmission
    requires Scorable(truth, sub)
    ensures Score(truth, sub).report == Report(Num(34), Num(34), Key(2), "B")
  {
    ScoreReport(truth, sub);
    ExampleErrorMatrix();
    ExampleFlatten();
    ExampleWorstCell(ErrorMatrix(truth, sub));
    ExampleSum(Flatten(ErrorMatrix(truth, sub)));
    ExampleArgMax(Flatten(ErrorMatrix(truth, sub)));
  }

  /** On the worked example the window is the two rows from label 2 on. */
  lemma ExampleScoreWindow(truth: Table<int>, sub: Table<Cell>)
    requires truth == ExampleTruth && sub == ExampleSubmission
    requires Scorable(truth, sub)
    ensures Score(truth, sub).window == [Point(1, 6, Num(40)), Point(2, 8, Num(8))]
  {
    ExampleReport(truth, sub);
    ScoreWindow(truth, sub);
    assert !IsTimeIndex(truth.labels) by { assert !truth.labels[0].Stamp?; }
    assert Position(truth, Score(truth, sub).report) == Location(2, 1) by {
      IndexOfUnique(truth.labels, 2);
      IndexOfUnique(truth.columns, 1);
    }
    ExampleWindow(truth, sub);
  }

  /** On the worked example, total and maximum are 34, the worst cell is
      (label 2, "B"), and the positional window runs from that row to the end
      of the table: two rows, not the ±48 rows around it that the comment at
      app.py line 118 suggests. */
  lemma OneWrongCellScenario()
    ensures TruthOk(ExampleTruth) && Rectangular(ExampleSubmission)
    ensures Grade(ExampleTruth, ExampleSubmission) ==
              Ok(Graded(Report(Num(34), Num(34), Key(2), "B"),
                        [Point(1, 6, Num(40)), Point(2, 8, Num(8))], ExampleSubmission))
  {
    var truth, sub := ExampleTruth, ExampleSubmission;
    ExampleErrorMatrix();
    ReindexOntoOwnLabels(sub);
    assert Grade(truth, sub) == Ok(Score(truth, sub));
    ExampleReport(truth, sub);
    ExampleScoreWindow(truth, sub);
  }
}
