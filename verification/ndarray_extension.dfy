/** Matrix helpers: diagonal matrices, matrix product, row norms and the
    L1 and L2 row normalisations. The square root is a parameter: the model
    makes no claim about its values. */
module NdarrayExtension {
  import opened Arrays
  import opened Outcomes

  /** Division by a zero row norm, which the helpers do not guard against:
      the row would be filled with non-finite values. */
  datatype NormError = ZeroNormRow(row: nat)

  function Abs(r: real): real
  {
    if r < 0.0 then -r else r
  }

  /** The square matrix with `v` on its diagonal and 0 everywhere else. */
  function Vec2Diagonal(v: seq<real>): (m: seq<seq<real>>)
    ensures Shape(m, |v|, |v|)
    ensures forall i, j :: 0 <= i < |v| && 0 <= j < |v| ==> m[i][j] == if i == j then v[i] else 0.0
  {
    seq(|v|, i requires 0 <= i < |v| => seq(|v|, j requires 0 <= j < |v| => if i == j then v[i] else 0.0))
  }

  /** Sum of `row[k] * b[k][j]` over the first `n` indices `k`. */
  function Inner(row: seq<real>, b: seq<seq<real>>, j: nat, n: nat): real
    requires n <= |row| && n <= |b|
    requires forall k :: 0 <= k < n ==> j < |b[k]|
  {
    if n == 0 then 0.0 else Inner(row, b, j, n - 1) + row[n - 1] * b[n - 1][j]
  }

  /** The matrix product `a . b` of an `r x m` and an `m x cols` matrix. */
  function Dot(a: seq<seq<real>>, b: seq<seq<real>>, cols: nat): (c: seq<seq<real>>)
    requires Shape(a, |a|, |b|) && Shape(b, |b|, cols)
    ensures Shape(c, |a|, cols)
  {
    seq(|a|, i requires 0 <= i < |a| =>
      seq(cols, j requires 0 <= j < cols => Inner(a[i], b, j, |b|)))
  }

  /** `a` with column `j` multiplied by `v[j]`. */
  function ScaleColumns(a: seq<seq<real>>, v: seq<real>): (c: seq<seq<real>>)
    requires Shape(a, |a|, |v|)
    ensures Shape(c, |a|, |v|)
    ensures forall i, j :: 0 <= i < |a| && 0 <= j < |v| ==> c[i][j] == a[i][j] * v[j]
  {
    seq(|a|, i requires 0 <= i < |a| => seq(|v|, j requires 0 <= j < |v| => a[i][j] * v[j]))
  }

  lemma {:induction false} InnerDiagonal(row: seq<real>, v: seq<real>, j: nat, n: nat)
    requires |row| == |v| && j < |v| && n <= |v|
    ensures Inner(row, Vec2Diagonal(v), j, n) == if j < n then row[j] * v[j] else 0.0
  {
    if n > 0 {
      InnerDiagonal(row, v, j, n - 1);
    }
  }

  /** Multiplying by a diagonal matrix scales each column by its diagonal entry. */
  lemma DotDiagonal(a: seq<seq<real>>, v: seq<real>)
    requires Shape(a, |a|, |v|)
    ensures Dot(a, Vec2Diagonal(v), |v|) == ScaleColumns(a, v)
  {
    var d := Vec2Diagonal(v);
    forall i, j | 0 <= i < |a| && 0 <= j < |v|
      ensures Inner(a[i], d, j, |v|) == a[i][j] * v[j]
    {
      InnerDiagonal(a[i], v, j, |v|);
    }
    var lhs := Dot(a, d, |v|);
    var rhs := ScaleColumns(a, v);
    forall i | 0 <= i < |a| ensures lhs[i] == rhs[i] {
      assert |lhs[i]| == |rhs[i]| == |v|;
      forall j | 0 <= j < |v| ensures lhs[i][j] == rhs[i][j] {
        assert lhs[i][j] == Inner(a[i], d, j, |v|);
      }
    }
  }

  // ---------------------------------------------------------------------
  // Norms and normalisation
  // ---------------------------------------------------------------------

  function Squares(row: seq<real>): seq<real>
  {
    seq(|row|, j requires 0 <= j < |row| => row[j] * row[j])
  }

  function AbsValues(row: seq<real>): seq<real>
  {
    seq(|row|, j requires 0 <= j < |row| => Abs(row[j]))
  }

  /** The L2 norm of each row: the square root of the sum of its squares. */
  function RowNorms(x: seq<seq<real>>, sqrt: real -> real): (norms: seq<real>)
    ensures |norms| == |x|
    ensures forall i :: 0 <= i < |x| ==> norms[i] == sqrt(RealSum(Squares(x[i])))
  {
    seq(|x|, i requires 0 <= i < |x| => sqrt(RealSum(Squares(x[i]))))
  }

  /** The first position holding 0, if any. */
  function FirstZero(v: seq<real>): (r: Option<nat>)
    ensures r.None? <==> forall i :: 0 <= i < |v| ==> v[i] != 0.0
    ensures r.Some? ==> r.value < |v| && v[r.value] == 0.0
    ensures r.Some? ==> forall i :: 0 <= i < r.value ==> v[i] != 0.0
  {
    if |v| == 0 then None
    else if v[0] == 0.0 then Some(0)
    else match FirstZero(v[1..])
      case None => None
      case Some(k) => Some(k + 1)
  }

  /** `row` divided entrywise by `d`. A row without entries divides to the
      empty row whatever `d` is: nothing is divided. */
  function DividedRow(row: seq<real>, d: real): (q: seq<real>)
    requires d != 0.0 || |row| == 0
    ensures |q| == |row|
    ensures forall j :: 0 <= j < |row| ==> q[j] * d == row[j]
  {
    seq(|row|, j requires 0 <= j < |row| => row[j] / d)
  }

  /** The first row that has entries and a norm of 0, if any: the rows whose
      division is 0/0. */
  function FirstZeroNormRow(x: seq<seq<real>>, norms: seq<real>): (r: Option<nat>)
    requires |norms| == |x|
    ensures r.None? <==> forall i :: 0 <= i < |x| && |x[i]| > 0 ==> norms[i] != 0.0
    ensures r.Some? ==> r.value < |x| && |x[r.value]| > 0 && norms[r.value] == 0.0
    ensures r.Some? ==> forall i :: 0 <= i < r.value && |x[i]| > 0 ==> norms[i] != 0.0
  {
    if |x| == 0 then None
    else if |x[0]| > 0 && norms[0] == 0.0 then Some(0)
    else match FirstZeroNormRow(x[1..], norms[1..])
      case None => None
      case Some(k) => Some(k + 1)
  }

  /** Each row divided by its norm, as the broadcast division `x / norms`
      does: a row without entries stays empty whatever its norm, and the
      first row with entries whose norm is 0 is reported instead. */
  function DivideRows(x: seq<seq<real>>, norms: seq<real>): (r: Result<seq<seq<real>>, NormError>)
    requires |norms| == |x|
    ensures r.Success? <==> forall i :: 0 <= i < |x| && |x[i]| > 0 ==> norms[i] != 0.0
    ensures r.Failure? ==> r.error.row < |x| && |x[r.error.row]| > 0 && norms[r.error.row] == 0.0
    ensures r.Success? ==> |r.value| == |x| && forall i :: 0 <= i < |x| ==>
      (norms[i] != 0.0 || |x[i]| == 0) && r.value[i] == DividedRow(x[i], norms[i])
  {
    match FirstZeroNormRow(x, norms)
    case Some(i) => Failure(ZeroNormRow(i))
    case None => Success(seq(|x|, i requires 0 <= i < |x| => DividedRow(x[i], norms[i])))
  }

  /** L1 normalisation: every entry replaced by its absolute value, then each
      row divided by the sum of its absolute values. A row with entries
      whose absolute values sum to 0 is a division by zero. */
  function L1Normalize(x: seq<seq<real>>): (r: Result<seq<seq<real>>, NormError>)
    ensures r.Success? <==> forall i :: 0 <= i < |x| && |x[i]| > 0 ==> RealSum(AbsValues(x[i])) != 0.0
    ensures r.Failure? ==> r.error.row < |x| && |x[r.error.row]| > 0 && RealSum(AbsValues(x[r.error.row])) == 0.0
    ensures r.Success? ==> |r.value| == |x| && forall i :: 0 <= i < |x| ==>
      (RealSum(AbsValues(x[i])) != 0.0 || |x[i]| == 0)
      && r.value[i] == DividedRow(AbsValues(x[i]), RealSum(AbsValues(x[i])))
  {
    var abs := seq(|x|, i requires 0 <= i < |x| => AbsValues(x[i]));
    var sums := seq(|x|, i requires 0 <= i < |x| => RealSum(abs[i]));
    assert forall i :: 0 <= i < |x| ==> sums[i] == RealSum(AbsValues(x[i]));
    DivideRows(abs, sums)
  }

  /** L2 normalisation: each row divided by its L2 norm from `RowNorms`. A
      row with entries whose norm is 0 is a division by zero. */
  function L2Normalize(x: seq<seq<real>>, sqrt: real -> real): (r: Result<seq<seq<real>>, NormError>)
    ensures r.Success? <==> forall i :: 0 <= i < |x| && |x[i]| > 0 ==> RowNorms(x, sqrt)[i] != 0.0
    ensures r.Failure? ==> r.error.row < |x| && |x[r.error.row]| > 0 && RowNorms(x, sqrt)[r.error.row] == 0.0
    ensures r.Success? ==> |r.value| == |x| && forall i :: 0 <= i < |x| ==>
      (RowNorms(x, sqrt)[i] != 0.0 || |x[i]| == 0) && r.value[i] == DividedRow(x[i], RowNorms(x, sqrt)[i])
  {
    DivideRows(x, RowNorms(x, sqrt))
  }

  lemma ProductPositive(a: real, b: real, p: real)
    requires a > 0.0 && b > 0.0 && p == a * b
    ensures p > 0.0
  {
  }

  lemma SquareSign(r: real, q: real)
    requires q == r * r
    ensures q >= 0.0
    ensures q == 0.0 <==> r == 0.0
  {
    if r > 0.0 {
      ProductPositive(r, r, q);
    } else if r < 0.0 {
      ProductPositive(-r, -r, q);
    }
  }

  lemma {:induction false} NonnegativeSum(s: seq<real>)
    requires forall j :: 0 <= j < |s| ==> s[j] >= 0.0
    ensures RealSum(s) >= 0.0
    ensures RealSum(s) == 0.0 <==> forall j :: 0 <= j < |s| ==> s[j] == 0.0
  {
    if |s| > 0 {
      NonnegativeSum(s[1..]);
      if s[0] == 0.0 && RealSum(s[1..]) == 0.0 {
        forall j | 0 <= j < |s| ensures s[j] == 0.0 {
          if j > 0 { assert s[j] == s[1..][j - 1]; }
        }
      } else if s[0] == 0.0 {
        var k :| 0 <= k < |s[1..]| && s[1..][k] != 0.0;
        assert s[k + 1] != 0.0;
      }
    }
  }

  /** The sum of squares under the square root is never negative, and it is
      0 exactly for a row of zeros. */
  lemma SquaresSumZero(row: seq<real>)
    ensures RealSum(Squares(row)) >= 0.0
    ensures RealSum(Squares(row)) == 0.0 <==> forall j :: 0 <= j < |row| ==> row[j] == 0.0
  {
    forall j | 0 <= j < |row|
      ensures Squares(row)[j] >= 0.0
      ensures Squares(row)[j] == 0.0 <==> row[j] == 0.0
    {
      SquareSign(row[j], Squares(row)[j]);
    }
    NonnegativeSum(Squares(row));
  }

  lemma {:induction false} AbsSumNonnegative(row: seq<real>)
    ensures RealSum(AbsValues(row)) >= 0.0
  {
    if |row| > 0 {
      AbsSumNonnegative(row[1..]);
      assert AbsValues(row)[1..] == AbsValues(row[1..]);
    }
  }

  lemma {:induction false} SumDivided(row: seq<real>, d: real)
    requires d != 0.0
    ensures RealSum(DividedRow(row, d)) == RealSum(row) / d
  {
    if |row| > 0 {
      SumDivided(row[1..], d);
      assert DividedRow(row, d)[1..] == DividedRow(row[1..], d);
    }
  }

  /** One row with a nonzero sum of absolute values, divided by that sum:
      entries are nonnegative, zeros stay zero, and the row sums to 1. */
  lemma L1NormalizedRow(row: seq<real>)
    requires RealSum(AbsValues(row)) != 0.0
    ensures var q := DividedRow(AbsValues(row), RealSum(AbsValues(row)));
      && (forall j :: 0 <= j < |row| ==> q[j] >= 0.0)
      && (forall j :: 0 <= j < |row| && row[j] == 0.0 ==> q[j] == 0.0)
      && RealSum(q) == 1.0
  {
    var a := AbsValues(row);
    var s := RealSum(a);
    AbsSumNonnegative(row);
    assert s > 0.0;
    SumDivided(a, s);
    DivideBySelf(s);
  }

  /** Kept apart from `L1NormalizedRow`, where the division fact is not found. */
  lemma DivideBySelf(s: real)
    requires s != 0.0
    ensures s / s == 1.0
  {
  }

  /** After L1 normalisation every entry is nonnegative (signs are dropped),
      zero entries stay zero, every row with entries sums to 1, and a row
      without entries stays empty. */
  lemma L1NormalizedRows(x: seq<seq<real>>)
    requires L1Normalize(x).Success?
    ensures var y := L1Normalize(x).value;
      && (forall i :: 0 <= i < |x| ==> |y[i]| == |x[i]|)
      && (forall i, j :: 0 <= i < |x| && 0 <= j < |x[i]| ==> y[i][j] >= 0.0)
      && (forall i, j :: 0 <= i < |x| && 0 <= j < |x[i]| && x[i][j] == 0.0 ==> y[i][j] == 0.0)
      && (forall i :: 0 <= i < |x| && |x[i]| > 0 ==> RealSum(y[i]) == 1.0)
  {
    forall i | 0 <= i < |x| && |x[i]| > 0 {
      L1NormalizedRow(x[i]);
    }
  }
}
