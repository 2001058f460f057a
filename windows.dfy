/**
 * The comparison window of app.py lines 102-127: the rows shown side by side
 * around the worst cell, chosen in one of two regimes by the kind of row
 * index, and renumbered `Order = 1..N`.
 */
module Windows {
  import opened Tables

  /** The length of the positional window (the literal 96 at app.py line 121;
      the same number as the constant `DAY_ROWS`). */
  const WindowLength: nat := 96

  /** One plotted row: its position in the window, the truth value and the
      submitted value at the worst column. */
  datatype Point = Point(order: nat, truth: int, submitted: Cell)

  /** The truth index is a time index: every row label is a timestamp. */
  predicate IsTimeIndex(labels: seq<Label>) {
    forall i :: 0 <= i < |labels| ==> labels[i].Stamp?
  }

  /** The label falls on calendar day `day`. */
  predicate OnDay(l: Label, day: int) {
    l.Stamp? && l.day == day
  }

  predicate Increasing(idx: seq<nat>) {
    forall k, k' :: 0 <= k < k' < |idx| ==> idx[k] < idx[k']
  }

  /** The boolean day mask `idx.strftime("%Y-%m-%d") == day_str` as the
      positions it selects: exactly the rows on `day`, in table order. */
  function SameDayRows(labels: seq<Label>, day: int): (idx: seq<nat>)
    ensures forall k :: 0 <= k < |idx| ==> idx[k] < |labels| && OnDay(labels[idx[k]], day)
    ensures forall i :: 0 <= i < |labels| && OnDay(labels[i], day) ==> i in idx
    ensures Increasing(idx)
  {
    if |labels| == 0 then []
    else
      var last := |labels| - 1;
      var front := labels[..last];
      var earlier := SameDayRows(front, day);
      assert forall i :: 0 <= i < last ==> labels[i] == front[i];
      if OnDay(labels[last], day) then earlier + [last] else earlier
  }

  /** `iloc[lo:hi]` with `lo = max(0, center)` and `hi = min(len, center + 96)`:
      the positions from `center` on, at most 96 of them, clipped at the end
      of the table. */
  function SliceRows(len: nat, center: nat): (idx: seq<nat>)
    requires center < len
    ensures |idx| == if len - center < WindowLength then len - center else WindowLength
    ensures forall k :: 0 <= k < |idx| ==> idx[k] == center + k && idx[k] < len
  {
    var lo := if 0 < center then center else 0;
    var hi := if len < center + WindowLength then len else center + WindowLength;
    seq(hi - lo, k requires 0 <= k < hi - lo => lo + k)
  }

  /** The selected rows, numbered `Order = 1..N` in selection order, with the
      truth and submitted values of column `c`. */
  function Renumber(truth: Table<int>, sub: Table<Cell>, idx: seq<nat>, c: nat): (w: seq<Point>)
    requires SameShape(truth, sub) && c < |truth.columns|
    requires forall k :: 0 <= k < |idx| ==> idx[k] < |truth.rows|
    ensures |w| == |idx|
    ensures forall k :: 0 <= k < |w| ==> w[k].order == k + 1
    ensures forall k :: 0 <= k < |w| ==> w[k].truth == truth.rows[idx[k]][c] && w[k].submitted == sub.rows[idx[k]][c]
  {
    seq(|idx|, k requires 0 <= k < |idx| => Point(k + 1, truth.rows[idx[k]][c], sub.rows[idx[k]][c]))
  }

  /** The rows of the window around the worst row `r`: the whole calendar day
      of `r` for a time index, the positional slice from `r` otherwise. */
  function WindowRows(labels: seq<Label>, r: nat): (idx: seq<nat>)
    requires r < |labels|
    ensures forall k :: 0 <= k < |idx| ==> idx[k] < |labels|
  {
    if IsTimeIndex(labels) then SameDayRows(labels, labels[r].day) else SliceRows(|labels|, r)
  }

  /** A time window holds the worst row, holds only rows of its calendar day,
      holds every row of that day, and keeps table order. */
  lemma TimeWindowIsTheDay(labels: seq<Label>, r: nat)
    requires r < |labels| && IsTimeIndex(labels)
    ensures var idx := WindowRows(labels, r);
      && r in idx
      && (forall k :: 0 <= k < |idx| ==> labels[idx[k]].day == labels[r].day)
      && (forall i :: 0 <= i < |labels| && labels[i].day == labels[r].day ==> i in idx)
      && Increasing(idx)
  {
    var idx := WindowRows(labels, r);
    assert OnDay(labels[r], labels[r].day);
    forall i | 0 <= i < |labels| && labels[i].day == labels[r].day ensures i in idx {
      assert OnDay(labels[i], labels[r].day);
    }
  }

  /** A positional window starts at the worst row and is `min(96, len - r)` long. */
  lemma SliceWindowStartsAtWorstRow(labels: seq<Label>, r: nat)
    requires r < |labels| && !IsTimeIndex(labels)
    ensures var idx := WindowRows(labels, r);
      && 0 < |idx| <= WindowLength
      && idx[0] == r
      && |idx| == (if |labels| - r < WindowLength then |labels| - r else WindowLength)
      && (forall k :: 0 <= k < |idx| ==> idx[k] == r + k)
  {
  }

  /** The day window is not capped at 96 rows: when every row of the table
      falls on one day, the window is the whole table, however long. */
  lemma {:induction false} SameDayRowsOfOneDay(labels: seq<Label>, day: int)
    requires forall i :: 0 <= i < |labels| ==> OnDay(labels[i], day)
    ensures |SameDayRows(labels, day)| == |labels|
    ensures forall k :: 0 <= k < |labels| ==> SameDayRows(labels, day)[k] == k
  {
    if |labels| > 0 {
      var front := labels[..|labels| - 1];
      assert forall i :: 0 <= i < |front| ==> front[i] == labels[i];
      SameDayRowsOfOneDay(front, day);
    }
  }

  /** A concrete day of 100 rows yields a 100-row window. */
  lemma DayWindowCanExceedWindowLength()
    ensures var labels := seq(100, i => Stamp(7, i));
      |WindowRows(labels, 0)| == 100 > WindowLength
  {
    var labels := seq(100, i => Stamp(7, i));
    SameDayRowsOfOneDay(labels, 7);
  }
}
