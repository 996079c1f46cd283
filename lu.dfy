/** Doolittle's LU decomposition without pivoting, stated on matrix values:
    L has a unit diagonal and U is upper triangular. Row i of U and then
    column i of L are computed from the rows and columns before them. */
module Doolittle {
  import opened Grids

  /** x / y, except that a zero divisor gives 0. The source divides by the
      pivot without a check; this model does not follow IEEE-754 into
      infinities and NaN, and every property below that involves a division
      assumes non-zero pivots. */
  function Div(x: real, y: real): (q: real)
    ensures y != 0.0 ==> q * y == x
  {
    if y == 0.0 then 0.0 else x / y
  }

  /** U(i, k) for i <= k: a(i, k) minus the sum over j < i of L(i, j) * U(j, k).
      Below the diagonal U is 0. */
  function UCell(a: Mat, i: nat, k: nat): real
    requires IsSquare(a) && i < a.nrows && k < a.nrows
    decreases i, 1
  {
    if i > k then 0.0 else a.arr[i][k] - PartialSum(a, i, k, i)
  }

  /** L(k, i): 1 on the diagonal, 0 above it, and below it
      (a(k, i) minus the sum over j < i of L(k, j) * U(j, i)) / U(i, i). */
  function LCell(a: Mat, k: nat, i: nat): real
    requires IsSquare(a) && i < a.nrows && k < a.nrows
    decreases i, 2
  {
    if k == i then 1.0
    else if k < i then 0.0
    else Div(a.arr[k][i] - PartialSum(a, k, i, i), UCell(a, i, i))
  }

  /** The sum over j < n of L(r, j) * U(j, c), accumulated from j = 0 up, as
      the source's `sum` variable is. */
  function PartialSum(a: Mat, r: nat, c: nat, n: nat): real
    requires IsSquare(a) && r < a.nrows && c < a.nrows && n <= a.nrows
    decreases n, 0
  {
    if n == 0 then 0.0 else PartialSum(a, r, c, n - 1) + LCell(a, r, n - 1) * UCell(a, n - 1, c)
  }

  /** The L factor. */
  function Lower(a: Mat): (l: Mat)
    requires IsSquare(a)
    ensures IsSquare(l) && l.nrows == a.nrows
    ensures forall k, i {:trigger l.arr[k][i]} | 0 <= k < a.nrows && 0 <= i < a.nrows :: l.arr[k][i] == LCell(a, k, i)
  {
    var n := a.nrows;
    Mat(n, n, seq(n, k requires 0 <= k < n => seq(n, i requires 0 <= i < n => LCell(a, k, i))))
  }

  /** The U factor. */
  function Upper(a: Mat): (u: Mat)
    requires IsSquare(a)
    ensures IsSquare(u) && u.nrows == a.nrows
    ensures forall i, k {:trigger u.arr[i][k]} | 0 <= i < a.nrows && 0 <= k < a.nrows :: u.arr[i][k] == UCell(a, i, k)
  {
    var n := a.nrows;
    Mat(n, n, seq(n, i requires 0 <= i < n => seq(n, k requires 0 <= k < n => UCell(a, i, k))))
  }

  /** Every pivot U(i, i) is non-zero: the condition under which the source's
      divisions are all defined. */
  predicate NonZeroPivots(a: Mat)
    requires IsSquare(a)
  {
    forall i | 0 <= i < a.nrows :: UCell(a, i, i) != 0.0
  }

  // ---------------------------------------------------------------------
  // Properties of the decomposition

  /** L is unit lower triangular and U is upper triangular. */
  lemma Triangular(a: Mat)
    requires IsSquare(a)
    ensures forall i | 0 <= i < a.nrows :: Lower(a).arr[i][i] == 1.0
    ensures forall k, i | 0 <= k < i < a.nrows :: Lower(a).arr[k][i] == 0.0
    ensures forall i, k | 0 <= k < i < a.nrows :: Upper(a).arr[i][k] == 0.0
  {
  }

  /** U(i, k) + sum_{j<i} L(i, j) * U(j, k) = a(i, k) on and above the diagonal,
      and L(k, i) * U(i, i) + sum_{j<i} L(k, j) * U(j, i) = a(k, i) below it
      when U(i, i) is not 0: each cell is chosen to make the product right. */
  lemma CellEquations(a: Mat, r: nat, c: nat)
    requires IsSquare(a) && r < a.nrows && c < a.nrows
    ensures r <= c ==> PartialSum(a, r, c, r) + LCell(a, r, r) * UCell(a, r, c) == a.arr[r][c]
    ensures c < r && UCell(a, c, c) != 0.0 ==>
      PartialSum(a, r, c, c) + LCell(a, r, c) * UCell(a, c, c) == a.arr[r][c]
  {
  }

  /** The first n terms of row r of L times column c of U are the source's
      partial sum, for n up to min(r, c) + 1 (where both factors agree with
      LCell and UCell). */
  lemma {:induction false} DotIsPartialSum(a: Mat, r: nat, c: nat, n: nat)
    requires IsSquare(a) && r < a.nrows && c < a.nrows && n <= a.nrows
    ensures Dot(Lower(a), Upper(a), r, c, n) == PartialSum(a, r, c, n)
  {
    if n > 0 {
      DotIsPartialSum(a, r, c, n - 1);
    }
  }

  /** Past min(r, c) every term L(r, j) * U(j, c) is 0. */
  lemma {:induction false} DotTail(a: Mat, r: nat, c: nat, n: nat)
    requires IsSquare(a) && r < a.nrows && c < a.nrows && n <= a.nrows
    requires (if r < c then r else c) < n
    ensures Dot(Lower(a), Upper(a), r, c, n) == PartialSum(a, r, c, (if r < c then r else c) + 1)
  {
    var m := if r < c then r else c;
    if n == m + 1 {
      DotIsPartialSum(a, r, c, n);
    } else {
      DotTail(a, r, c, n - 1);
      var l, u := Lower(a), Upper(a);
      assert l.arr[r][n - 1] == 0.0 || u.arr[n - 1][c] == 0.0;
    }
  }

  /** With non-zero pivots, L x U = a. */
  lemma Product(a: Mat)
    requires IsSquare(a) && NonZeroPivots(a)
    ensures MatMul(Lower(a), Upper(a)) == a
  {
    var p := MatMul(Lower(a), Upper(a));
    forall r | 0 <= r < a.nrows ensures p.arr[r] == a.arr[r] {
      forall c | 0 <= c < a.nrows ensures p.arr[r][c] == a.arr[r][c] {
        ProductCell(a, r, c);
      }
    }
  }

  lemma ProductCell(a: Mat, r: nat, c: nat)
    requires IsSquare(a) && NonZeroPivots(a) && r < a.nrows && c < a.nrows
    ensures Dot(Lower(a), Upper(a), r, c, a.nrows) == a.arr[r][c]
  {
    DotTail(a, r, c, a.nrows);
    CellEquations(a, r, c);
  }
}
