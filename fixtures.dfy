/** The integer matrices of the package's tests, and what the model computes
    for them: the product, the scalar product, the cofactor matrix, the
    determinant of the singular matrix and the inverse of the 4 x 4 one.
    The tests compare within a tolerance; with real cells the values are
    exact. */
module Fixtures {
  import opened Grids
  import opened Determinant

  /** The 3 x 3 matrix of the product and cofactor tests. */
  const A: Mat := Mat(3, 3, [[5.0, 9.0, 2.0], [1.0, 8.0, 5.0], [3.0, 6.0, 4.0]])

  /** The 3 x 4 right operand of the product test. */
  const B: Mat := Mat(3, 4, [[7.0, 5.0, -3.0, 12.0], [8.0, -1.0, 0.0, 4.0], [-9.0, -3.0, 0.0, -1.0]])

  const Product: Mat := Mat(3, 4, [[89.0, 10.0, -15.0, 94.0], [26.0, -18.0, -3.0, 39.0], [33.0, -3.0, -9.0, 56.0]])

  const Doubled: Mat := Mat(3, 3, [[10.0, 18.0, 4.0], [2.0, 16.0, 10.0], [6.0, 12.0, 8.0]])

  const Cofactors: Mat := Mat(3, 3, [[2.0, 11.0, -18.0], [-24.0, 14.0, -3.0], [29.0, -23.0, 31.0]])

  /** The singular matrix of the inverse test. */
  const Singular: Mat := Mat(3, 3, [[2.0, 1.0, 2.0], [1.0, 0.0, 1.0], [4.0, 1.0, 4.0]])

  /** The invertible 4 x 4 matrix of the inverse test. */
  const Invertible: Mat := Mat(4, 4, [[5.0, -2.0, 2.0, 7.0], [1.0, 0.0, 0.0, 3.0], [-3.0, 1.0, 5.0, 0.0], [3.0, -1.0, -9.0, 4.0]])

  /** A x B is the expected 3 x 4 product. */
  lemma ProductOfAB()
    ensures MatMul(A, B) == Product
  {
    var p := MatMul(A, B);
    forall i, j | 0 <= i < 3 && 0 <= j < 4 ensures p.arr[i][j] == Product.arr[i][j] {
      assert p.arr[i][j] == Dot(A, B, i, j, 3);
      assert Dot(A, B, i, j, 3) == A.arr[i][0] * B.arr[0][j] + A.arr[i][1] * B.arr[1][j] + A.arr[i][2] * B.arr[2][j];
    }
    assert p.arr[0] == Product.arr[0];
    assert p.arr[1] == Product.arr[1];
    assert p.arr[2] == Product.arr[2];
  }

  /** A times 2 doubles every cell. */
  lemma DoubledA()
    ensures Scale(A, 2.0) == Doubled
  {
    var d := Scale(A, 2.0);
    assert d.arr[0] == Doubled.arr[0];
    assert d.arr[1] == Doubled.arr[1];
    assert d.arr[2] == Doubled.arr[2];
  }

  /** The determinant of A is 73. */
  lemma DetOfA()
    ensures Det(A) == 73.0
  {
    DetThree(A);
  }

  /** Cofactor (i, j) of a 3 x 3 matrix: the signed 2 x 2 determinant of
      the other two rows and columns. */
  lemma CofactorOfThree(m: Mat, i: nat, j: nat)
    requires IsSquare(m) && m.nrows == 3 && i < 3 && j < 3
    ensures var r0, r1 := if i == 0 then 1 else 0, if i == 2 then 1 else 2;
            var c0, c1 := if j == 0 then 1 else 0, if j == 2 then 1 else 2;
            Cofactor(m, i, j) == Sign(i + j) * (m.arr[r0][c0] * m.arr[r1][c1] - m.arr[r1][c0] * m.arr[r0][c1])
  {
    MinorMatrixCells(m, i, j);
    var mm := MinorMatrix(m, i, j);
    assert Det(mm) == mm.arr[0][0] * mm.arr[1][1] - mm.arr[1][0] * mm.arr[0][1];
  }

  /** Row i of A's cofactor matrix. */
  lemma CofactorRowOfA(i: nat)
    requires i < 3
    ensures CofactorMatrix(A).arr[i] == Cofactors.arr[i]
  {
    var c := CofactorMatrix(A);
    forall j | 0 <= j < 3 ensures c.arr[i][j] == Cofactors.arr[i][j] {
      CofactorOfThree(A, i, j);
    }
  }

  /** The cofactor matrix of A is the expected one. */
  lemma CofactorsOfA()
    ensures CofactorMatrix(A) == Cofactors
  {
    CofactorRowOfA(0);
    CofactorRowOfA(1);
    CofactorRowOfA(2);
  }

  /** The expansion of det along row 0 with the cofactors of A gives
      5 * 2 + 9 * 11 + 2 * (-18) = 73. */
  lemma ExpansionOfA()
    ensures Sum(RowExpansion(A, 0)) == 73.0
  {
    DetIsCofactorExpansion(A);
    DetOfA();
  }

  /** The singular matrix has determinant exactly 0, which is what makes
      inv() fail with "Matrix is singular". */
  lemma SingularHasZeroDet()
    ensures Det(Singular) == 0.0
  {
    DetThree(Singular);
  }

  /** det of the 3 x 3 matrix det builds for column c of Invertible. */
  lemma InnerDetOfInvertible(c: nat)
    requires c < 4
    ensures Det(InnerMatrix(Invertible, c)) == [-12.0, 56.0, 4.0, -4.0][c]
  {
    DetThree(InnerMatrix(Invertible, c));
  }

  /** The determinant of the invertible fixture is 88. */
  lemma DetOfInvertible()
    ensures Det(Invertible) == 88.0
  {
    var t := Terms(Invertible);
    SumFour(t);
    InnerDetOfInvertible(0);
    InnerDetOfInvertible(1);
    InnerDetOfInvertible(2);
    InnerDetOfInvertible(3);
    assert t[0] == Term(Invertible, 0) && t[1] == Term(Invertible, 1);
    assert t[2] == Term(Invertible, 2) && t[3] == Term(Invertible, 3);
  }

  /** det of the matrix minor(j, 0) builds for Invertible. */
  lemma MinorOfInvertible(j: nat)
    requires j < 4
    ensures Minor(Invertible, j, 0) == [-12.0, -76.0, -60.0, 36.0][j]
  {
    MinorMatrixCells(Invertible, j, 0);
    DetThree(MinorMatrix(Invertible, j, 0));
  }

  /** cofactor(j, 0) of Invertible. */
  lemma CofactorOfInvertible(j: nat)
    requires j < 4
    ensures Cofactor(Invertible, j, 0) == [-12.0, 76.0, -60.0, -36.0][j]
  {
    assert IsSquare(Invertible);
    MinorOfInvertible(j);
    assert Sign(j + 0) == [1.0, -1.0, 1.0, -1.0][j] by {
      if j == 0 {
      } else if j == 1 {
      } else if j == 2 {
      } else {
      }
    }
  }

  /** Cell (i, j) of the inverse of an n >= 2 matrix from the values of
      its determinant and of cofactor(j, i). */
  lemma InverseCellFrom(m: Mat, i: nat, j: nat, d: real, cof: real)
    requires IsSquare(m) && 2 <= m.nrows && i < m.nrows && j < m.nrows
    requires Det(m) == d && d != 0.0 && Cofactor(m, j, i) == cof
    ensures Inverse(m).arr[i][j] == cof / d
  {
    InverseCells(m, i, j);
  }

  /** Row 0 of the inverse, cell by cell: cofactor(j, 0) / 88, which the
      test's -0.1364, 0.8636, -0.6818, -0.4091 round. */
  lemma InverseCellOfInvertible(j: nat)
    requires j < 4
    ensures Det(Invertible) != 0.0
    ensures Inverse(Invertible).arr[0][j] == [-12.0, 76.0, -60.0, -36.0][j] / 88.0
  {
    assert IsSquare(Invertible);
    CofactorOfInvertible(j);
    DetOfInvertible();
    InverseCellFrom(Invertible, 0, j, 88.0, [-12.0, 76.0, -60.0, -36.0][j]);
  }
}
