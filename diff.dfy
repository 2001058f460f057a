/**
 * The error computation of app.py lines 83-93: the element-wise absolute
 * error matrix, its total and its maximum, and the worst cell, found as a
 * row-major flat index (numpy's `argmax` over a 2-D array) and split into a
 * row and a column by `divmod`.
 *
 * numpy's reductions treat NaN as absorbing: a sum or a maximum over cells
 * of which one is NaN is NaN, and `argmax` returns the first NaN. The order
 * `Le` below therefore places NaN above every number.
 */
module Diff {
  import opened Tables

  /** `|s - t|`, NaN when the submitted cell is NaN. */
  function AbsErr(t: int, s: Cell): (e: Cell)
    ensures e.NaN? <==> s.NaN?
    ensures e.Num? ==> e.v >= 0 && (e.v == s.v - t || e.v == t - s.v)
    ensures e.Num? ==> (e.v == 0 <==> s.v == t)
  {
    match s
    case NaN => NaN
    case Num(x) => Num(if x >= t then x - t else t - x)
  }

  /** `np.abs(stud_vals - truth_vals)`. */
  function ErrorMatrix(truth: Table<int>, sub: Table<Cell>): (m: seq<seq<Cell>>)
    requires SameShape(truth, sub)
    ensures |m| == |truth.rows|
    ensures forall i :: 0 <= i < |m| ==> |m[i]| == |truth.columns|
  {
    seq(|truth.rows|, i requires 0 <= i < |truth.rows| =>
      seq(|truth.columns|, j requires 0 <= j < |truth.columns| => AbsErr(truth.rows[i][j], sub.rows[i][j])))
  }

  /** Every row of `m` has `n` cells. */
  predicate Width(m: seq<seq<Cell>>, n: nat) {
    forall i :: 0 <= i < |m| ==> |m[i]| == n
  }

  /** The cells of `m`, row by row (the order numpy reduces a C-ordered array in). */
  function Flatten(m: seq<seq<Cell>>): seq<Cell> {
    if |m| == 0 then [] else m[0] + Flatten(m[1..])
  }

  lemma {:induction false} FlattenLength(m: seq<seq<Cell>>, n: nat)
    requires Width(m, n)
    ensures |Flatten(m)| == |m| * n
  {
    if |m| > 0 {
      FlattenLength(m[1..], n);
    }
  }

  /** Flat index of the first cell of row `i` when every row has `n` cells. */
  function RowStart(i: nat, n: nat): nat {
    if i == 0 then 0 else RowStart(i - 1, n) + n
  }

  lemma {:induction false} RowStartIsProduct(i: nat, n: nat)
    ensures RowStart(i, n) == i * n
  {
    if i > 0 {
      RowStartIsProduct(i - 1, n);
      assert (i - 1) * n + n == i * n;
    }
  }

  /** A later row starts at least one row's width further on. */
  lemma {:induction false} RowStartGrows(i: nat, r: nat, n: nat)
    requires i < r
    ensures RowStart(i, n) + n <= RowStart(r, n)
  {
    if i < r - 1 {
      RowStartGrows(i, r - 1, n);
    }
  }

  /** Cell (i, j) of `m` sits at flat index `i * n + j`. */
  lemma {:induction false} FlattenAt(m: seq<seq<Cell>>, n: nat, i: nat, j: nat)
    requires Width(m, n) && i < |m| && j < n
    ensures i * n + j < |Flatten(m)|
    ensures Flatten(m)[i * n + j] == m[i][j]
  {
    FlattenAtRow(m, n, i, j);
    RowStartIsProduct(i, n);
  }

  lemma {:induction false} FlattenAtRow(m: seq<seq<Cell>>, n: nat, i: nat, j: nat)
    requires Width(m, n) && i < |m| && j < n
    ensures RowStart(i, n) + j < |Flatten(m)|
    ensures Flatten(m)[RowStart(i, n) + j] == m[i][j]
  {
    var rest := Flatten(m[1..]);
    assert Flatten(m) == m[0] + rest;
    if i > 0 {
      FlattenAtRow(m[1..], n, i - 1, j);
      assert m[1..][i - 1] == m[i];
    }
  }

  /** `divmod(k, n)` of a flat index of an `rows` by `n` matrix is a valid
      (row, column) pair that recombines to `k`. */
  lemma DivModSplit(k: nat, rows: nat, n: nat)
    requires n > 0 && k < rows * n
    ensures k / n < rows && k % n < n
    ensures (k / n) * n + k % n == k
    ensures RowStart(k / n, n) + k % n == k
  {
    if k / n >= rows {
      MulMonotone(rows, k / n, n);
    }
    RowStartIsProduct(k / n, n);
  }

  lemma MulMonotone(a: nat, b: nat, n: nat)
    requires a <= b
    ensures a * n <= b * n
  {
  }

  /** Row-major order of cells is the order of their flat indices. */
  lemma RowMajorBefore(n: nat, i: nat, j: nat, r: nat, c: nat)
    requires j < n && c < n
    requires i < r || (i == r && j < c)
    ensures RowStart(i, n) + j < RowStart(r, n) + c
  {
    if i < r {
      RowStartGrows(i, r, n);
    }
  }

  /** `a <= b` in numpy's reduction order: NaN is above every number. */
  predicate Le(a: Cell, b: Cell) {
    b.NaN? || (a.Num? && a.v <= b.v)
  }

  /** `Le` is a total order on cells with NaN as its top: the order in which
      `max` and `argmax` compare cells. */
  lemma LeIsTotalOrder(a: Cell, b: Cell, c: Cell)
    ensures Le(a, a)
    ensures Le(a, b) || Le(b, a)
    ensures Le(a, b) && Le(b, a) ==> a == b
    ensures Le(a, b) && Le(b, c) ==> Le(a, c)
    ensures Le(a, NaN) && (Le(NaN, a) <==> a.NaN?)
  {
  }

  predicate AllNum(xs: seq<Cell>) {
    forall i :: 0 <= i < |xs| ==> xs[i].Num?
  }

  predicate NonNegative(xs: seq<Cell>) {
    forall i :: 0 <= i < |xs| && xs[i].Num? ==> xs[i].v >= 0
  }

  function Plus(a: Cell, b: Cell): Cell {
    if a.NaN? || b.NaN? then NaN else Num(a.v + b.v)
  }

  /** `np.sum`: NaN as soon as one cell is NaN. */
  function SumCells(xs: seq<Cell>): (s: Cell)
    ensures s.Num? <==> AllNum(xs)
  {
    if |xs| == 0 then Num(0)
    else
      var rest := SumCells(xs[1..]);
      assert forall i :: 1 <= i < |xs| ==> xs[i] == xs[1..][i - 1];
      Plus(xs[0], rest)
  }

  /** `np.max`: an upper bound of every cell that is itself a cell; NaN
      as soon as one cell is NaN. */
  function MaxCells(xs: seq<Cell>): (mx: Cell)
    requires |xs| > 0
    ensures mx in xs
    ensures forall i :: 0 <= i < |xs| ==> Le(xs[i], mx)
    ensures mx.NaN? <==> !AllNum(xs)
  {
    if |xs| == 1 then xs[0]
    else
      var front := xs[..|xs| - 1];
      var m := MaxCells(front);
      assert forall i :: 0 <= i < |xs| - 1 ==> xs[i] == front[i];
      if Le(xs[|xs| - 1], m) then m else xs[|xs| - 1]
  }

  /** `np.argmax`: the first index, in order, whose cell is a maximum. */
  function ArgMax(xs: seq<Cell>): (k: nat)
    requires |xs| > 0
    ensures k < |xs|
    ensures forall i :: 0 <= i < |xs| ==> Le(xs[i], xs[k])
    ensures forall i :: 0 <= i < k ==> !Le(xs[k], xs[i])
  {
    if |xs| == 1 then 0
    else
      var front := xs[..|xs| - 1];
      var k := ArgMax(front);
      assert forall i :: 0 <= i < |xs| - 1 ==> xs[i] == front[i];
      if Le(xs[|xs| - 1], xs[k]) then k else |xs| - 1
  }

  /** The cell `argmax` points at is the cell `max` returns. */
  lemma ArgMaxAttainsMax(xs: seq<Cell>)
    requires |xs| > 0
    ensures xs[ArgMax(xs)] == MaxCells(xs)
  {
    var k, mx := ArgMax(xs), MaxCells(xs);
    var j :| 0 <= j < |xs| && xs[j] == mx;
    assert Le(xs[j], xs[k]) && Le(xs[k], mx);
  }

  /** The two properties of `ArgMax` determine it: a first maximum is unique. */
  lemma FirstMaxUnique(xs: seq<Cell>, k: nat)
    requires k < |xs|
    requires forall i :: 0 <= i < |xs| ==> Le(xs[i], xs[k])
    requires forall i :: 0 <= i < k ==> !Le(xs[k], xs[i])
    ensures k == ArgMax(xs)
  {
  }

  /** The worst cell, as `divmod(max_flat, n_cols)`. */
  datatype Location = Location(row: nat, col: nat)

  function WorstCell(m: seq<seq<Cell>>, n: nat): (loc: Location)
    requires n > 0 && |m| > 0 && Width(m, n)
    ensures loc.row < |m| && loc.col < n
    ensures RowStart(loc.row, n) + loc.col == ArgMax(Flatten(m))
  {
    FlattenLength(m, n);
    MulMonotone(1, |m|, n);
    var k := ArgMax(Flatten(m));
    DivModSplit(k, |m|, n);
    Location(k / n, k % n)
  }

  /** How one cell compares with the cell at flat index `ArgMax(Flatten(m))`. */
  lemma CellAgainstArgMax(m: seq<seq<Cell>>, n: nat, r: nat, c: nat, i: nat, j: nat)
    requires n > 0 && |m| > 0 && Width(m, n)
    requires r < |m| && c < n && i < |m| && j < n
    requires RowStart(r, n) + c == ArgMax(Flatten(m))
    ensures Le(m[i][j], m[r][c])
    ensures (i < r || (i == r && j < c)) ==> !Le(m[r][c], m[i][j])
  {
    var flat := Flatten(m);
    FlattenAtRow(m, n, r, c);
    FlattenAtRow(m, n, i, j);
    var k, f := RowStart(r, n) + c, RowStart(i, n) + j;
    assert Le(flat[f], flat[k]);
    if i < r || (i == r && j < c) {
      RowMajorBefore(n, i, j, r, c);
      assert !Le(flat[k], flat[f]);
    }
  }

  /** The worst cell holds the maximum error, no cell exceeds it, and every
      cell before it in row-major order is strictly smaller: ties go to the
      first cell scanning row by row, left to right. */
  lemma WorstCellIsFirstMax(m: seq<seq<Cell>>, n: nat, loc: Location)
    requires n > 0 && |m| > 0 && Width(m, n)
    requires loc == WorstCell(m, n)
    ensures m[loc.row][loc.col] == MaxCells(Flatten(m))
    ensures forall i, j :: 0 <= i < |m| && 0 <= j < n ==> Le(m[i][j], m[loc.row][loc.col])
    ensures forall i, j :: 0 <= i < |m| && 0 <= j < n && (i < loc.row || (i == loc.row && j < loc.col)) ==>
              !Le(m[loc.row][loc.col], m[i][j])
  {
    WorstCellHoldsMax(m, n, loc.row, loc.col);
    WorstCellBounds(m, n, loc.row, loc.col);
  }

  lemma WorstCellHoldsMax(m: seq<seq<Cell>>, n: nat, r: nat, c: nat)
    requires n > 0 && |m| > 0 && Width(m, n)
    requires r < |m| && c < n && RowStart(r, n) + c == ArgMax(Flatten(m))
    ensures m[r][c] == MaxCells(Flatten(m))
  {
    FlattenAtRow(m, n, r, c);
    ArgMaxAttainsMax(Flatten(m));
  }

  lemma WorstCellBounds(m: seq<seq<Cell>>, n: nat, r: nat, c: nat)
    requires n > 0 && |m| > 0 && Width(m, n)
    requires r < |m| && c < n && RowStart(r, n) + c == ArgMax(Flatten(m))
    ensures forall i, j :: 0 <= i < |m| && 0 <= j < n ==> Le(m[i][j], m[r][c])
    ensures forall i, j :: 0 <= i < |m| && 0 <= j < n && (i < r || (i == r && j < c)) ==> !Le(m[r][c], m[i][j])
  {
    forall i, j | 0 <= i < |m| && 0 <= j < n
      ensures Le(m[i][j], m[r][c])
      ensures (i < r || (i == r && j < c)) ==> !Le(m[r][c], m[i][j])
    {
      CellAgainstArgMax(m, n, r, c, i, j);
    }
  }

  /** `np.sum` of the matrix is the sum of its row totals. */
  lemma {:induction false} SumAppend(a: seq<Cell>, b: seq<Cell>)
    ensures SumCells(a + b) == Plus(SumCells(a), SumCells(b))
  {
    if |a| == 0 {
      assert a + b == b;
    } else {
      assert (a + b)[0] == a[0];
      assert (a + b)[1..] == a[1..] + b;
      SumAppend(a[1..], b);
    }
  }

  function RowTotals(m: seq<seq<Cell>>): seq<Cell> {
    if |m| == 0 then [] else [SumCells(m[0])] + RowTotals(m[1..])
  }

  lemma {:induction false} SumByRows(m: seq<seq<Cell>>)
    ensures SumCells(Flatten(m)) == SumCells(RowTotals(m))
  {
    if |m| > 0 {
      var totals := RowTotals(m);
      SumAppend(m[0], Flatten(m[1..]));
      SumByRows(m[1..]);
      assert totals[0] == SumCells(m[0]);
      assert totals[1..] == RowTotals(m[1..]);
    }
  }

  /** Over non-negative numbers the total is non-negative and no cell
      exceeds it. */
  lemma {:induction false} SumBoundsCells(xs: seq<Cell>)
    requires AllNum(xs) && NonNegative(xs)
    ensures SumCells(xs).Num? && SumCells(xs).v >= 0
    ensures forall i :: 0 <= i < |xs| ==> xs[i].v <= SumCells(xs).v
  {
    if |xs| > 0 {
      var rest := xs[1..];
      assert forall i :: 0 <= i < |rest| ==> rest[i] == xs[i + 1];
      SumBoundsCells(rest);
      forall i | 1 <= i < |xs| ensures xs[i].v <= SumCells(xs).v {
        assert xs[i] == rest[i - 1];
      }
    }
  }

  /** Over non-negative numbers the maximum never exceeds the total. */
  lemma MaxAtMostTotal(xs: seq<Cell>)
    requires |xs| > 0 && AllNum(xs) && NonNegative(xs)
    ensures MaxCells(xs).Num? && SumCells(xs).Num?
    ensures MaxCells(xs).v <= SumCells(xs).v
  {
    SumBoundsCells(xs);
  }

  /** A sum of zeros is zero. */
  lemma {:induction false} SumOfZeros(xs: seq<Cell>)
    requires forall i :: 0 <= i < |xs| ==> xs[i] == Num(0)
    ensures SumCells(xs) == Num(0)
  {
    if |xs| > 0 {
      SumOfZeros(xs[1..]);
    }
  }

  /** When one cell is the only non-zero one, the total is that cell. */
  lemma {:induction false} SumOfOneError(xs: seq<Cell>, k: nat)
    requires k < |xs|
    requires forall i :: 0 <= i < |xs| && i != k ==> xs[i] == Num(0)
    ensures SumCells(xs) == Plus(xs[k], Num(0))
  {
    var rest := xs[1..];
    assert SumCells(xs) == Plus(xs[0], SumCells(rest));
    if k == 0 {
      assert forall i :: 0 <= i < |rest| ==> rest[i] == xs[i + 1];
      SumOfZeros(rest);
    } else {
      assert forall i :: 0 <= i < |rest| ==> rest[i] == xs[i + 1];
      SumOfOneError(rest, k - 1);
      assert xs[0] == Num(0) && rest[k - 1] == xs[k];
    }
  }

  /** Every cell of the flattened matrix is a cell of the matrix. */
  lemma {:induction false} FlattenCells(m: seq<seq<Cell>>, x: Cell)
    requires x in Flatten(m)
    ensures exists i, j :: 0 <= i < |m| && 0 <= j < |m[i]| && m[i][j] == x
  {
    if x in m[0] {
      var j :| 0 <= j < |m[0]| && m[0][j] == x;
      assert m[0][j] == x;
    } else {
      FlattenCells(m[1..], x);
      var i, j :| 0 <= i < |m[1..]| && 0 <= j < |m[1..][i]| && m[1..][i][j] == x;
      assert m[i + 1][j] == x;
    }
  }

  /** An error matrix of zeros has total 0 and maximum 0. */
  lemma ZeroMatrixScoresZero(m: seq<seq<Cell>>)
    requires |Flatten(m)| > 0
    requires forall i, j :: 0 <= i < |m| && 0 <= j < |m[i]| ==> m[i][j] == Num(0)
    ensures SumCells(Flatten(m)) == Num(0) && MaxCells(Flatten(m)) == Num(0)
  {
    var flat := Flatten(m);
    forall k | 0 <= k < |flat| ensures flat[k] == Num(0) {
      FlattenCells(m, flat[k]);
    }
    SumOfZeros(flat);
  }
}
