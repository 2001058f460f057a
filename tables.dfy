/**
 * The data model of homework grading: row-labelled tables of numeric cells, the
 * errors a grading attempt can end in, and the re-indexing of a submitted
 * table onto the ground truth's row labels (app.py line 77).
 */
module Tables {

  /** A row label. A time-indexed table labels every row with a timestamp,
      of which grading only ever looks at the calendar day ("%Y-%m-%d"); a
      timestamp is therefore a day number and a slot within that day. Any
      other index is modelled by plain integer keys. */
  datatype Label = Stamp(day: int, slot: int) | Key(key: int)

  /** A cell after conversion to float. NaN is the value pandas puts in the
      cells of a row that re-indexing had to invent. */
  datatype Cell = Num(v: int) | NaN

  /** A table: row labels, column names and one row of values per label. */
  datatype Table<V> = Table(labels: seq<Label>, columns: seq<string>, rows: seq<seq<V>>)

  /** The ways a grading attempt ends without a report. */
  datatype GradeError =
    | DuplicateRowLabels   // the submission repeats a row label, so it cannot be re-indexed
    | ColumnMismatch       // column names differ from the truth's, in name or in order
    | EmptyTable           // the error matrix has no cell, so it has no maximum

  datatype Result<T> = Ok(value: T) | Err(error: GradeError)

  datatype Option<T> = None | Some(value: T)

  /** One label per row, and every row as wide as the column sequence. */
  predicate Rectangular<V>(t: Table<V>) {
    && |t.rows| == |t.labels|
    && forall i :: 0 <= i < |t.rows| ==> |t.rows[i]| == |t.columns|
  }

  /** Both tables have the truth's shape. */
  predicate SameShape(truth: Table<int>, sub: Table<Cell>) {
    && Rectangular(truth) && Rectangular(sub)
    && |sub.rows| == |truth.rows| && |sub.columns| == |truth.columns|
  }

  predicate Unique<T(==)>(s: seq<T>) {
    forall i, j :: 0 <= i < j < |s| ==> s[i] != s[j]
  }

  /** Position of the first occurrence of `x` (pandas `Index.get_loc`). */
  function IndexOf<T(==)>(s: seq<T>, x: T): (k: nat)
    requires x in s
    ensures k < |s| && s[k] == x
    ensures forall j :: 0 <= j < k ==> s[j] != x
  {
    if s[0] == x then 0 else 1 + IndexOf(s[1..], x)
  }

  /** In a sequence without repetitions, `get_loc` of the element at `k` is `k`. */
  lemma IndexOfUnique<T>(s: seq<T>, k: nat)
    requires Unique(s) && k < |s|
    ensures IndexOf(s, s[k]) == k
  {
  }

  /** The row pandas invents for a label the submission lacks. */
  function MissingRow(width: nat): seq<Cell> {
    seq(width, j => NaN)
  }

  /** `submitted.reindex(target)`: one row per target label, in the target's
      order; the row of the submission that carries that label, or a row of
      NaN where there is none; submitted rows whose label is not a target are
      dropped. pandas refuses to re-index an index that repeats a label onto
      a target without repetitions. */
  function Reindex(t: Table<Cell>, target: seq<Label>): (r: Result<Table<Cell>>)
    requires Rectangular(t) && Unique(target)
    ensures r.Err? <==> !Unique(t.labels)
    ensures r.Err? ==> r.error == DuplicateRowLabels
    ensures r.Ok? ==> Rectangular(r.value)
    ensures r.Ok? ==> r.value.labels == target && r.value.columns == t.columns
    ensures r.Ok? ==> forall i, j :: 0 <= i < |target| && 0 <= j < |t.labels| && t.labels[j] == target[i] ==>
                        r.value.rows[i] == t.rows[j]
    ensures r.Ok? ==> forall i, c :: 0 <= i < |target| && target[i] !in t.labels && 0 <= c < |t.columns| ==>
                        r.value.rows[i][c] == NaN
  {
    if !Unique(t.labels) then Err(DuplicateRowLabels)
    else
      var rows := seq(|target|, i requires 0 <= i < |target| =>
        if target[i] in t.labels then t.rows[IndexOf(t.labels, target[i])] else MissingRow(|t.columns|));
      assert forall i, j :: 0 <= i < |target| && 0 <= j < |t.labels| && t.labels[j] == target[i] ==>
        rows[i] == t.rows[j] by {
        forall i, j | 0 <= i < |target| && 0 <= j < |t.labels| && t.labels[j] == target[i]
          ensures rows[i] == t.rows[j]
        {
          IndexOfUnique(t.labels, j);
        }
      }
      Ok(Table(target, t.columns, rows))
  }

  /** Re-indexing a submission onto its own row labels changes nothing. */
  lemma ReindexOntoOwnLabels(t: Table<Cell>)
    requires Rectangular(t) && Unique(t.labels)
    ensures Reindex(t, t.labels) == Ok(t)
  {
    var r := Reindex(t, t.labels).value;
    assert |r.rows| == |t.rows|;
    forall i | 0 <= i < |t.rows| ensures r.rows[i] == t.rows[i] {
    }
    assert r.rows == t.rows;
  }

  /** Re-indexing is idempotent: a second re-indexing onto the same labels
      keeps the table re-indexed once. */
  lemma ReindexIdempotent(t: Table<Cell>, target: seq<Label>)
    requires Rectangular(t) && Unique(t.labels) && Unique(target)
    ensures Reindex(Reindex(t, target).value, target) == Reindex(t, target)
  {
    ReindexOntoOwnLabels(Reindex(t, target).value);
  }
}
