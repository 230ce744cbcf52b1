/**
 * Column-slice assignment on a 2-D array, `a[0:len(values), col] = values`:
 * the right-hand side is a vector evaluated before anything is written, and
 * only the first |values| cells of column `col` change.
 */
module ColumnSlices {

  method SetColumn(a: array2<real>, col: nat, values: seq<real>)
    requires col < a.Length1 && |values| <= a.Length0
    modifies a
    ensures forall i, j :: 0 <= i < a.Length0 && 0 <= j < a.Length1 ==>
      a[i, j] == if j == col && i < |values| then values[i] else old(a[i, j])
  {
    for row := 0 to |values|
      invariant forall i, j :: 0 <= i < a.Length0 && 0 <= j < a.Length1 ==>
        a[i, j] == if j == col && i < row then values[i] else old(a[i, j])
    {
      a[row, col] := values[row];
    }
  }
}
