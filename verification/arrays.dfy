/** Dense two-dimensional arrays as sequences of rows, and sums of their rows. */
module Arrays {

  /** `x` has `rows` rows of `cols` entries each. */
  predicate Shape<T>(x: seq<seq<T>>, rows: nat, cols: nat)
  {
    |x| == rows && forall i :: 0 <= i < rows ==> |x[i]| == cols
  }

  /** Some row of the count matrix `x` has a nonzero entry in column `j`. */
  predicate ColumnUsed(x: seq<seq<nat>>, j: nat)
  {
    exists i :: 0 <= i < |x| && j < |x[i]| && x[i][j] > 0
  }

  /** Sum of a row of counts. */
  function Sum(row: seq<nat>): nat
  {
    if |row| == 0 then 0 else row[0] + Sum(row[1..])
  }

  /** Sum of a row of reals. */
  function RealSum(row: seq<real>): real
  {
    if |row| == 0 then 0.0 else row[0] + RealSum(row[1..])
  }
}
