# Homework scoring page: a Dafny model of its grading core

`app.py` is a small Streamlit page. It grades a student's corrected
spreadsheet against a teacher's ground-truth table. One submission goes
through these steps:

- re-index the submission onto the truth's row labels;
- reject it when the column names differ;
- compute the element-wise absolute error matrix, its total (`np.sum`) and
  maximum (`np.max`);
- locate the worst cell with `np.argmax` on the row-major flattening, then
  split that flat index with `divmod`;
- cut a comparison window of rows around the worst cell, numbered
  `Order = 1..N`.

The window has two regimes. A time-indexed table gives the whole calendar
day of the worst row. Any other index gives the positional slice
`[center, min(len, center + 96))`. The page keeps its state in
`st.session_state`: Idle shows the upload form, Graded shows the report.
"Submit" moves Idle to Graded and "Resubmit" moves back.

The model has five modules, one file each:

- `Tables` (`tables.dfy`): labelled tables, cells, errors, re-indexing.
- `Diff` (`diff.dfy`): the error matrix, sum, max, argmax and `divmod`.
- `Windows` (`windows.dfy`): the two window regimes and the renumbering.
- `Grading` (`grading.dfy`): one whole grading attempt.
- `Sessions` (`session.dfy`): the session state as a class, `GradingSession`.

Cells are `Num(v) | NaN`. NaN is what re-indexing puts in the rows a
submission lacks. numpy's reductions are modelled with NaN absorbing: a sum
or maximum over cells that include a NaN is NaN, and `argmax` points at the
first NaN. The order `Diff.Le` therefore puts NaN above every number.

Three failures end an attempt without a report, each as an `Err`:

- `DuplicateRowLabels`: pandas refuses to re-index a submission that repeats
  a row label.
- `ColumnMismatch`: the column names differ in name or in order (lines 78-80).
- `EmptyTable`: `np.max` of an empty matrix raises.

In `app.py` the first and third are exceptions caught by the handler at
lines 136-138.

### Window length: the 96 in the source against what the code selects

Several places in `app.py` suggest a window of 96 rows around the worst cell:

- `DAY_ROWS = 96`, commented as 96 time steps a day (line 13);
- the comment at line 118, which says ±48 rows around the error;
- the report heading at line 155, which calls the chart the day's 96 time
  points.

The selection code does something else, and the model follows the code:

- **Positional window.** The slice starts at the worst row, not 48 rows
  before it: `lo = max(0, center)`, `hi = min(len, center + 96)` (lines
  119-121). In `Grading.OneWrongCellScenario` (4 rows, worst cell in row 2)
  the window is therefore rows 2 and 3 only.
- **Time-indexed window.** The day mask (lines 107-115) selects every row
  whose date is the worst row's date, with no cap at `DAY_ROWS`.
  `Windows.DayWindowCanExceedWindowLength` shows a 100-row window.

## Model

| member | source | states |
|---|---|---|
| Tables.IndexOf | app.py:119-124 | `get_loc` returns a position that holds the label, and no earlier position holds it |
| Tables.Reindex | app.py:77 | onto target labels without repetitions, fails exactly when the submission repeats a row label. On success: the rows follow the truth's labels in the truth's order, columns are kept, each label takes the submitted row that carries it, and a label the submission lacks gets a row of NaN |
| Tables.ReindexOntoOwnLabels | app.py:77 | re-indexing a table onto its own labels gives the table back |
| Tables.ReindexIdempotent | app.py:77 | re-indexing a second time onto the same labels changes nothing |
| Diff.Flatten | app.py:88-92 | the cells of the error matrix row after row, left to right (C order): the sequence `np.sum`, `np.max` and `np.argmax` reduce, and into which `max_flat` indexes |
| Diff.Le | app.py:89-92 | the order `np.max` and `np.argmax` compare cells by: numbers by value, NaN above every number |
| Diff.LeIsTotalOrder | app.py:89-92 | that order is reflexive, total, antisymmetric and transitive, with NaN its top and the only cell at or above NaN |
| Diff.AbsErr | app.py:85-86 | the error is NaN exactly when the submitted cell is; otherwise it is non-negative, equals plus or minus the difference, and is zero exactly when the values agree |
| Diff.ErrorMatrix | app.py:83-86 | the error matrix has the truth's number of rows and columns |
| Diff.FlattenLength | app.py:91-92 | the flattening of an r-by-n matrix has r·n cells |
| Diff.FlattenAt | app.py:92-93 | cell (i, j) sits at flat index i·n + j, which is in range |
| Diff.DivModSplit | app.py:91-93 | `divmod` of a flat index gives an in-range row and column that recombine to that index |
| Diff.SumCells | app.py:88 | the total is a number exactly when every cell is |
| Diff.MaxCells | app.py:89 | the maximum is one of the cells, no cell exceeds it, and it is NaN exactly when some cell is |
| Diff.ArgMax | app.py:92 | no cell exceeds the cell at the returned index, and every earlier cell is strictly smaller (ties go to the first) |
| Diff.ArgMaxAttainsMax | app.py:89-92 | the cell `argmax` points at is the value `max` returns |
| Diff.FirstMaxUnique | app.py:92 | an index that is a maximum, with every earlier cell strictly smaller, is the `argmax` |
| Diff.WorstCell | app.py:91-93 | the (row, column) pair is in range and recombines, row-major, to the flat `argmax` |
| Diff.WorstCellIsFirstMax | app.py:88-93 | the worst cell holds the maximum error, no cell is larger, and every cell before it in row-major order is strictly smaller |
| Diff.SumByRows | app.py:88 | the total over the flattened matrix equals the total of the per-row totals |
| Diff.MaxAtMostTotal | app.py:88-89 | over non-negative numbers the maximum never exceeds the total |
| Diff.ZeroMatrixScoresZero | app.py:88-89 | an all-zero error matrix has total 0 and maximum 0 |
| Windows.IsTimeIndex | app.py:107 | the index is a time index (`datetime64`) when every row label is a timestamp; any other index, a mixed one included, takes the positional slice |
| Windows.OnDay | app.py:109-110 | a row belongs to the day mask when its label is a timestamp whose calendar day (`%Y-%m-%d`) is the worst row's day |
| Windows.SameDayRows | app.py:107-110 | the day mask selects exactly the rows whose calendar day is the given day, in table order |
| Windows.SliceRows | app.py:119-121 | the slice from `center` has length min(96, len − center), and its k-th row is center + k |
| Windows.Renumber | app.py:111-115 | each selected row becomes a point with `Order = k + 1`, holding its truth and submitted values in the worst column |
| Windows.WindowRows | app.py:107-127 | the chosen regime yields only rows of the table |
| Windows.TimeWindowIsTheDay | app.py:107-116 | a time window holds the worst row, holds only rows of its day, holds every row of that day, and is in table order |
| Windows.SliceWindowStartsAtWorstRow | app.py:119-126 | a positional window starts at the worst row, holds 1 to 96 consecutive rows, and is min(96, len − r) long |
| Windows.SameDayRowsOfOneDay | app.py:107-115 | when every row is on one day, the window is every row, in order |
| Windows.DayWindowCanExceedWindowLength | app.py:107-116 | a day of 100 rows gives a 100-row window: the day regime has no 96-row cap |
| Grading.Score | app.py:83-127 | the stored submission is the re-indexed one |
| Grading.Grade | app.py:77-127 | each error is returned exactly when its condition holds, in the code's order: duplicate labels, then columns, then empty. On success the stored table is the re-indexed submission |
| Grading.GradeScoresAligned | app.py:77-89 | a successful attempt is the score of the re-indexed submission, which satisfies the scoring preconditions |
| Grading.Position | app.py:119-124 | the report's labels map back to an in-range row and column that carry those labels |
| Grading.ScorePosition | app.py:91-99 | the report's row and column labels are those of the `divmod` decomposition of the flat `argmax` |
| Grading.ScoreLocatesWorstCell | app.py:88-99 | the reported location holds the reported maximum, no cell is larger, and every earlier cell in row-major order is strictly smaller |
| Grading.ScoreTotals | app.py:86-89 | the total is the sum of per-row totals. Total and maximum are numbers exactly when every aligned cell is, and then 0 ≤ max ≤ total |
| Grading.ScoreWindow | app.py:102-127 | the window is the renumbered `WindowRows` of the worst row in the worst column |
| Grading.IdenticalSubmissionScoresZero | app.py:77-89 | a submission equal to the truth is graded, with total 0 and maximum 0 |
| Grading.ReorderedColumnsRejected | app.py:78-80 | the same column names in another order are a column mismatch |
| Grading.OneWrongCellScenario | app.py:77-127 | 4×2 table, one cell off by 34: total 34, max 34, worst cell (row label 2, column "B"), and a 2-row window |
| Sessions.GradingSession.constructor | app.py:20-38 | a new session is Idle, locked, with no report, window or submission, and holds the loaded truth |
| Sessions.GradingSession.Unlock | app.py:41-45 | the session is unlocked, and nothing else changes |
| Sessions.GradingSession.Submit | app.py:69-138 | the outcome is `Grade` of the truth and the upload. On success the session is Graded and stores that report, window and re-indexed submission. On failure nothing changes. The access flag never changes |
| Sessions.GradingSession.Store | app.py:130-133 | the session is Graded and holds exactly the given report, window and submission |
| Sessions.GradingSession.Resubmit | app.py:160-164 | the session is Idle, report and window are cleared, and the access flag and stored submission are kept |
| Sessions.Visit | app.py:41-164 | unlock, submit and, on success, resubmit: the new session ends Idle and unlocked with no report or window, holding the truth it was given. It stores the re-indexed submission when the upload graded and no submission when it failed |

## Left out

- The Streamlit UI and page flow (titles, metrics, chart, `st.stop`,
  `st.rerun`) are not modelled. Only their effect on the session fields is.
- Excel reading and `@st.cache_data` are not modelled. Tables are given as
  values, and the truth table is a constructor parameter.
- The access-code comparison (line 44) is not modelled: `Unlock` stands for
  the accepted case.
- The upload size check (lines 63-67) is out of scope; it is a UI guard
  before grading.
- Floating point is not modelled. Values are integers, and NaN is a separate
  constructor. Rounding, infinities and the `:.2f` display are left out.
- `to_numpy(dtype=float)` failing on a non-numeric cell is not modelled.
  Cells are numbers or NaN from the start.
- Duplicate row labels or column names in the truth file are excluded by the
  precondition `Grading.TruthOk`, because `get_loc` would then return a mask
  or slice. Duplicate labels in the submission are modelled
  (`DuplicateRowLabels`).
- Apart from the three modelled errors, the catch-all `except` is not
  modelled: other exceptions cannot arise from the modelled operations.
- Blank cells in the truth file are not modelled. Truth values are numbers.
- Timestamps are reduced to a calendar day and a slot within that day, the
  only part the `%Y-%m-%d` comparison reads. Time zones and parsing are out
  of scope.
- Tables.Reindex: requires target labels without repetitions. pandas skips its duplicate-label error when the index already equals the target; only duplicate truth labels reach that case, and `Grading.TruthOk` excludes them.
- Sessions.GradingSession.Submit: does not model a second click while
  Graded. The upload form is not shown then (line 55), so the requires
  `!graded` reflects the page, not a check in the code.
