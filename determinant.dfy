/** The linear-algebra kernel stated on matrix values: the determinant by
    Laplace expansion along row 0, minors, cofactors, the cofactor matrix,
    the adjoint and the adjugate inverse. */
module Determinant {
  import opened Results
  import opened Grids

  /** (-1)^c: +1 for an even c, -1 for an odd one. det keeps it in a running
      variable that starts at 1 and is negated after every column. */
  function Sign(c: int): real
  {
    if c % 2 == 0 then 1.0 else -1.0
  }

  /** The (n-1) x (n-1) matrix det builds for column c: rows 1 .. n-1, every
      column but c, cell by cell. */
  function InnerMatrix(m: Mat, c: nat): (r: Mat)
    requires IsSquare(m) && c < m.nrows
    ensures IsSquare(r) && r.nrows == m.nrows - 1
    ensures forall i, j {:trigger r.arr[i][j]} | 0 <= i < r.nrows && 0 <= j < r.nrows ::
      r.arr[i][j] == m.arr[i + 1][if j < c then j else j + 1]
  {
    var n := m.nrows - 1;
    Mat(n, n, seq(n, i requires 0 <= i < n =>
                  seq(n, j requires 0 <= j < n => m.arr[i + 1][if j < c then j else j + 1])))
  }

  /** The sum of a sequence of reals, accumulated from the front as the
      source's loops accumulate into a running variable. */
  function Sum(s: seq<real>): real
  {
    if |s| == 0 then 0.0 else Sum(s[..|s| - 1]) + s[|s| - 1]
  }

  /** det(): the single cell for 1 x 1, a*d - c*b for 2 x 2, and otherwise the
      expansion along row 0, which for a 0 x 0 matrix is the empty sum 0. */
  function Det(m: Mat): real
    requires IsSquare(m)
    decreases m.nrows, 2
  {
    if m.nrows == 1 then m.arr[0][0]
    else if m.nrows == 2 then m.arr[0][0] * m.arr[1][1] - m.arr[1][0] * m.arr[0][1]
    else Sum(Terms(m))
  }

  /** The terms of the expansion along row 0, one per column. */
  function Terms(m: Mat): (t: seq<real>)
    requires IsSquare(m)
    ensures |t| == m.nrows
    decreases m.nrows, 1
  {
    var n := m.nrows;
    seq(n, c requires 0 <= c < n => Term(m, c))
  }

  /** Term c: (-1)^c * m(0, c) * det(inner matrix of column c). */
  function Term(m: Mat, c: nat): real
    requires IsSquare(m) && c < m.nrows
    decreases m.nrows, 0
  {
    Sign(c) * m.arr[0][c] * Det(InnerMatrix(m, c))
  }

  /** What minor(i, j) builds: a copy with row i deleted, then column j. */
  function MinorMatrix(m: Mat, i: nat, j: nat): (r: Mat)
    requires IsSquare(m) && i < m.nrows && j < m.nrows
    ensures IsSquare(r) && r.nrows == m.nrows - 1
  {
    DeleteColumn(DeleteRow(m, i), j)
  }

  function Minor(m: Mat, i: nat, j: nat): real
    requires IsSquare(m) && i < m.nrows && j < m.nrows
  {
    Det(MinorMatrix(m, i, j))
  }

  /** cofactor(i, j) = (-1)^(i+j) * minor(i, j). */
  function Cofactor(m: Mat, i: nat, j: nat): real
    requires IsSquare(m) && i < m.nrows && j < m.nrows
  {
    Sign(i + j) * Minor(m, i, j)
  }

  /** The matrix whose cell (i, j) is cofactor(i, j). */
  function CofactorMatrix(m: Mat): (r: Mat)
    requires IsSquare(m)
    ensures IsSquare(r) && r.nrows == m.nrows
    ensures forall i, j {:trigger r.arr[i][j]} | 0 <= i < m.nrows && 0 <= j < m.nrows :: r.arr[i][j] == Cofactor(m, i, j)
  {
    var n := m.nrows;
    Mat(n, n, seq(n, i requires 0 <= i < n => seq(n, j requires 0 <= j < n => Cofactor(m, i, j))))
  }

  /** adjoint() is the transpose of the cofactor matrix. */
  function Adjoint(m: Mat): (r: Mat)
    requires IsSquare(m)
    ensures IsSquare(r) && r.nrows == m.nrows
    ensures forall i, j {:trigger r.arr[i][j]} | 0 <= i < m.nrows && 0 <= j < m.nrows :: r.arr[i][j] == Cofactor(m, j, i)
  {
    Transpose(CofactorMatrix(m))
  }

  /** The terms m(i, c) * cofactor(i, c) of the expansion along row i. */
  function RowExpansion(m: Mat, i: nat): (t: seq<real>)
    requires IsSquare(m) && i < m.nrows
    ensures |t| == m.nrows
  {
    var n := m.nrows;
    seq(n, c requires 0 <= c < n => m.arr[i][c] * Cofactor(m, i, c))
  }

  /** The adjoint scaled by 1/d: what inv() returns once det() has given d. */
  function AdjointOver(m: Mat, d: real): (r: Mat)
    requires IsSquare(m) && d != 0.0
    ensures IsSquare(r) && r.nrows == m.nrows
  {
    Scale(Adjoint(m), 1.0 / d)
  }

  /** inv() as written: the adjoint times 1/det. */
  function InverseAsWritten(m: Mat): (r: Mat)
    requires IsSquare(m) && Det(m) != 0.0
    ensures IsSquare(r) && r.nrows == m.nrows
  {
    AdjointOver(m, Det(m))
  }

  /** The adjugate: the adjoint, except that the adjugate of a 1 x 1 matrix is
      [[1]] (the determinant of its empty minor is 1, not 0). */
  function Adjugate(m: Mat): (r: Mat)
    requires IsSquare(m)
    ensures IsSquare(r) && r.nrows == m.nrows
    ensures m.nrows != 1 ==> r == Adjoint(m)
  {
    if m.nrows == 1 then Eye(1) else Adjoint(m)
  }

  /** The adjugate scaled by 1/d. */
  function AdjugateOver(m: Mat, d: real): (r: Mat)
    requires IsSquare(m) && d != 0.0
    ensures IsSquare(r) && r.nrows == m.nrows
  {
    Scale(Adjugate(m), 1.0 / d)
  }

  /** The inverse: the adjugate times 1/det. */
  function Inverse(m: Mat): (r: Mat)
    requires IsSquare(m) && Det(m) != 0.0
    ensures IsSquare(r) && r.nrows == m.nrows
  {
    AdjugateOver(m, Det(m))
  }

  // ---------------------------------------------------------------------
  // Properties of the kernel

  /** The two ways the source builds a minor agree: det's cell-by-cell copy
      that skips row 0 and column c is deleteRow(0) followed by deleteColumn(c). */
  lemma InnerMatrixIsMinorMatrix(m: Mat, c: nat)
    requires IsSquare(m) && c < m.nrows
    ensures InnerMatrix(m, c) == MinorMatrix(m, 0, c)
  {
    var a := InnerMatrix(m, c);
    var b := MinorMatrix(m, 0, c);
    var d := DeleteRow(m, 0);
    forall i | 0 <= i < a.nrows ensures a.arr[i] == b.arr[i] {
      forall j | 0 <= j < a.nrows ensures a.arr[i][j] == b.arr[i][j] {
        assert d.arr[i] == m.arr[i + 1];
      }
    }
  }

  /** The closed forms agree with the expansion wherever the expansion is the
      determinant: for every n >= 2, det is the alternating sum along row 0.
      (For n = 1 the expansion would give m(0,0) * det([]) = 0, which is why
      the 1 x 1 case is taken apart.) */
  lemma DetExpandsAlongRow0(m: Mat)
    requires IsSquare(m) && m.nrows >= 2
    ensures Det(m) == Sum(Terms(m))
  {
    if m.nrows == 2 {
      var t := Terms(m);
      assert Det(InnerMatrix(m, 0)) == m.arr[1][1];
      assert Det(InnerMatrix(m, 1)) == m.arr[1][0];
      assert t[0] == Term(m, 0) && t[1] == Term(m, 1);
      assert t[0] == m.arr[0][0] * m.arr[1][1];
      assert t[1] == -(m.arr[0][1] * m.arr[1][0]);
      assert t[..1][..0] == [];
      assert Sum(t[..1]) == t[0];
      assert t[..2] == t;
    }
  }

  /** One more term of det's running sum. */
  lemma SumStep(s: seq<real>, k: nat)
    requires k < |s|
    ensures Sum(s[..k + 1]) == Sum(s[..k]) + s[k]
  {
    assert s[..k + 1][..k] == s[..k];
  }

  /** Term c of det's sum, given the values of its three factors. */
  lemma TermValue(m: Mat, c: nat, sign: real, x: real, d: real)
    requires IsSquare(m) && c < m.nrows
    requires sign == Sign(c) && x == m.arr[0][c] && d == Det(InnerMatrix(m, c))
    ensures Terms(m)[c] == sign * x * d
  {
    assert Terms(m)[c] == Term(m, c);
  }

  /** One column of det's loop: adding term c to the sum of the first c
      terms gives the sum of c + 1 terms. */
  lemma ExpansionStep(t: seq<real>, c: nat, sums: real, term: real)
    requires c < |t| && sums == Sum(t[..c]) && t[c] == term
    ensures sums + term == Sum(t[..c + 1])
  {
    SumStep(t, c);
  }

  /** One column of det's loop, from the values its body computes: the
      running sum gains term c and the running sign flips. */
  lemma ColumnStep(m: Mat, c: nat, sums: real, sign: real, x: real, d: real)
    requires IsSquare(m) && c < m.nrows
    requires sums == Sum(Terms(m)[..c]) && sign == Sign(c)
    requires x == m.arr[0][c] && d == Det(InnerMatrix(m, c))
    ensures sums + sign * x * d == Sum(Terms(m)[..c + 1])
    ensures sign * -1.0 == Sign(c + 1)
  {
    TermValue(m, c, sign, x, d);
    ExpansionStep(Terms(m), c, sums, sign * x * d);
    SignStep(c);
  }

  /** Outside the two closed forms det is the whole sum of its terms. */
  lemma DetIsSumOfTerms(m: Mat)
    requires IsSquare(m) && m.nrows != 1
    ensures Det(m) == Sum(Terms(m)[..m.nrows])
  {
    assert Terms(m)[..m.nrows] == Terms(m);
    if m.nrows >= 2 {
      DetExpandsAlongRow0(m);
    }
  }

  /** det's running sign: 1 for column 0, negated after every column. */
  lemma SignStep(c: nat)
    ensures Sign(0) == 1.0
    ensures Sign(c) * -1.0 == Sign(c + 1)
  {
  }

  /** A sum of three terms. */
  lemma SumThree(t: seq<real>)
    requires |t| == 3
    ensures Sum(t) == t[0] + t[1] + t[2]
  {
    SumStep(t, 0);
    SumStep(t, 1);
    SumStep(t, 2);
    assert t[..0] == [] && t[..3] == t;
  }

  /** A sum of four terms. */
  lemma SumFour(t: seq<real>)
    requires |t| == 4
    ensures Sum(t) == t[0] + t[1] + t[2] + t[3]
  {
    SumThree(t[..3]);
    SumStep(t, 3);
    assert t[..4] == t;
  }

  /** For n = 3 the expansion along row 0 is the familiar closed form. */
  lemma DetThree(m: Mat)
    requires IsSquare(m) && m.nrows == 3
    ensures Det(m) ==
      m.arr[0][0] * (m.arr[1][1] * m.arr[2][2] - m.arr[2][1] * m.arr[1][2])
      - m.arr[0][1] * (m.arr[1][0] * m.arr[2][2] - m.arr[2][0] * m.arr[1][2])
      + m.arr[0][2] * (m.arr[1][0] * m.arr[2][1] - m.arr[2][0] * m.arr[1][1])
  {
    var t := Terms(m);
    SumThree(t);
    InnerDetsOfThree(m);
    TermValue(m, 0, 1.0, m.arr[0][0], Det(InnerMatrix(m, 0)));
    TermValue(m, 1, -1.0, m.arr[0][1], Det(InnerMatrix(m, 1)));
    TermValue(m, 2, 1.0, m.arr[0][2], Det(InnerMatrix(m, 2)));
  }

  /** The three 2 x 2 determinants det takes for a 3 x 3 matrix. */
  lemma InnerDetsOfThree(m: Mat)
    requires IsSquare(m) && m.nrows == 3
    ensures Det(InnerMatrix(m, 0)) == m.arr[1][1] * m.arr[2][2] - m.arr[2][1] * m.arr[1][2]
    ensures Det(InnerMatrix(m, 1)) == m.arr[1][0] * m.arr[2][2] - m.arr[2][0] * m.arr[1][2]
    ensures Det(InnerMatrix(m, 2)) == m.arr[1][0] * m.arr[2][1] - m.arr[2][0] * m.arr[1][1]
  {
  }

  /** Transposing does not change the determinant, for every size up to
      3 x 3. */
  lemma DetOfTransposeSmall(m: Mat)
    requires IsSquare(m) && m.nrows <= 3
    ensures Det(Transpose(m)) == Det(m)
  {
    if m.nrows == 0 {
      DetOfEmpty(m);
      DetOfEmpty(Transpose(m));
    } else if m.nrows == 1 {
      DetOfTransposeOne(m);
    } else if m.nrows == 2 {
      DetOfTransposeTwo(m);
    } else {
      DetOfTransposeThree(m);
    }
  }

  lemma DetOfTransposeOne(m: Mat)
    requires IsSquare(m) && m.nrows == 1
    ensures Det(Transpose(m)) == Det(m)
  {
  }

  lemma DetOfTransposeTwo(m: Mat)
    requires IsSquare(m) && m.nrows == 2
    ensures Det(Transpose(m)) == Det(m)
  {
    var t := Transpose(m);
    DetTwo(m);
    DetTwo(t);
    assert t.arr[0][0] == m.arr[0][0] && t.arr[0][1] == m.arr[1][0];
    assert t.arr[1][0] == m.arr[0][1] && t.arr[1][1] == m.arr[1][1];
    TransposeTwoAlgebra(m.arr[0][0], m.arr[0][1], m.arr[1][0], m.arr[1][1]);
  }

  /** det's closed form for 2 x 2. */
  lemma DetTwo(m: Mat)
    requires IsSquare(m) && m.nrows == 2
    ensures Det(m) == m.arr[0][0] * m.arr[1][1] - m.arr[1][0] * m.arr[0][1]
  {
  }

  /** The 2 x 2 closed form gives the same value for the rows as for the
      columns. */
  lemma TransposeTwoAlgebra(a: real, b: real, c: real, d: real)
    ensures a * d - b * c == a * d - c * b
  {
  }

  lemma DetOfTransposeThree(m: Mat)
    requires IsSquare(m) && m.nrows == 3
    ensures Det(Transpose(m)) == Det(m)
  {
    var t := Transpose(m);
    DetThree(m);
    DetThree(t);
    TransposeThreeAlgebra(m.arr[0][0], m.arr[0][1], m.arr[0][2],
                          m.arr[1][0], m.arr[1][1], m.arr[1][2],
                          m.arr[2][0], m.arr[2][1], m.arr[2][2]);
  }

  /** The 3 x 3 closed form gives the same value for the rows as for the
      columns. */
  lemma TransposeThreeAlgebra(a: real, b: real, c: real, d: real, e: real, f: real, g: real, h: real, i: real)
    ensures a * (e * i - h * f) - b * (d * i - g * f) + c * (d * h - g * e)
         == a * (e * i - f * h) - d * (b * i - c * h) + g * (b * f - c * e)
  {
  }

  /** The cells of the matrix minor(i, j) takes the determinant of. */
  lemma MinorMatrixCells(m: Mat, i: nat, j: nat)
    requires IsSquare(m) && i < m.nrows && j < m.nrows
    ensures forall r, c {:trigger MinorMatrix(m, i, j).arr[r][c]} | 0 <= r < m.nrows - 1 && 0 <= c < m.nrows - 1 ::
      MinorMatrix(m, i, j).arr[r][c] == m.arr[if r < i then r else r + 1][if c < j then c else c + 1]
  {
  }

  /** The empty matrix falls through to the loop, which sums nothing. */
  lemma DetOfEmpty(m: Mat)
    requires IsSquare(m) && m.nrows == 0
    ensures Det(m) == 0.0
  {
  }

  /** Each term of det's sum is m(0, c) * cofactor(0, c). */
  lemma TermsAreCofactorTerms(m: Mat)
    requires IsSquare(m) && m.nrows >= 1
    ensures Terms(m) == RowExpansion(m, 0)
  {
    forall c | 0 <= c < m.nrows ensures Terms(m)[c] == RowExpansion(m, 0)[c] {
      TermIsCofactorTerm(m, c);
    }
  }

  /** Term c of det's sum, sign times cell times the determinant of the inner
      matrix, is the cell times cofactor(0, c). */
  lemma TermIsCofactorTerm(m: Mat, c: nat)
    requires IsSquare(m) && c < m.nrows
    ensures Terms(m)[c] == RowExpansion(m, 0)[c]
  {
    var sign, x, d := Sign(c), m.arr[0][c], Det(InnerMatrix(m, c));
    TermValue(m, c, sign, x, d);
    InnerMatrixIsMinorMatrix(m, c);
    assert Cofactor(m, 0, c) == sign * d;
    assert RowExpansion(m, 0)[c] == x * Cofactor(m, 0, c);
    Regroup(sign, x, d);
  }

  lemma Regroup(s: real, x: real, d: real)
    ensures s * x * d == x * (s * d)
  {
  }

  /** det = sum over c of m(0, c) * cofactor(0, c) for every n >= 2. */
  lemma DetIsCofactorExpansion(m: Mat)
    requires IsSquare(m) && m.nrows >= 2
    ensures Det(m) == Sum(RowExpansion(m, 0))
  {
    DetExpandsAlongRow0(m);
    TermsAreCofactorTerms(m);
  }

  /** Cell (i, j) of the adjugate scaled by 1/d is cofactor(j, i) / d (and
      1 / d for a 1 x 1 matrix). */
  lemma AdjugateOverCells(m: Mat, d: real, i: nat, j: nat)
    requires IsSquare(m) && d != 0.0 && i < m.nrows && j < m.nrows
    ensures AdjugateOver(m, d).arr[i][j] == (if m.nrows == 1 then 1.0 else Cofactor(m, j, i)) / d
  {
  }

  /** Cell (i, j) of the inverse is cofactor(j, i) / det for every n >= 2. */
  lemma InverseCells(m: Mat, i: nat, j: nat)
    requires IsSquare(m) && Det(m) != 0.0 && i < m.nrows && j < m.nrows
    ensures Inverse(m).arr[i][j] == (if m.nrows == 1 then 1.0 else Cofactor(m, j, i)) / Det(m)
  {
    AdjugateOverCells(m, Det(m), i, j);
  }

  /** Cell (i, j) of the inverse as written is cofactor(j, i) / det for every
      size, the 1 x 1 one included. */
  lemma InverseAsWrittenCells(m: Mat, i: nat, j: nat)
    requires IsSquare(m) && Det(m) != 0.0 && i < m.nrows && j < m.nrows
    ensures InverseAsWritten(m).arr[i][j] == Cofactor(m, j, i) / Det(m)
  {
    AdjointOverCells(m, Det(m), i, j);
  }

  /** Cell (i, j) of the adjoint scaled by 1/d is cofactor(j, i) / d. */
  lemma AdjointOverCells(m: Mat, d: real, i: nat, j: nat)
    requires IsSquare(m) && d != 0.0 && i < m.nrows && j < m.nrows
    ensures AdjointOver(m, d).arr[i][j] == Cofactor(m, j, i) / d
  {
  }

  /** inv() as written is the inverse for every size except 1 x 1. */
  lemma InverseAsWrittenAgrees(m: Mat)
    requires IsSquare(m) && Det(m) != 0.0 && m.nrows != 1
    ensures InverseAsWritten(m) == Inverse(m)
  {
    assert Adjugate(m) == Adjoint(m);
  }

  /** The only cofactor of a 1 x 1 matrix is the determinant of the empty
      matrix, which det gives as 0. */
  lemma CofactorOfOneByOne(m: Mat)
    requires IsSquare(m) && m.nrows == 1
    ensures Cofactor(m, 0, 0) == 0.0
  {
    DetOfEmpty(MinorMatrix(m, 0, 0));
  }

  /** As written, the inverse of a 1 x 1 matrix [[a]] is [[0]], so its
      product with the matrix is [[0]] and not the identity. */
  lemma InverseAsWrittenOneByOne(a: real)
    requires a != 0.0
    ensures Det(Mat(1, 1, [[a]])) == a
    ensures InverseAsWritten(Mat(1, 1, [[a]])) == Mat(1, 1, [[0.0]])
    ensures MatMul(Mat(1, 1, [[a]]), InverseAsWritten(Mat(1, 1, [[a]]))) != Eye(1)
  {
    var m := Mat(1, 1, [[a]]);
    CofactorOfOneByOne(m);
    var inv := AdjointOver(m, a);
    assert inv.arr[0][0] == 0.0 * (1.0 / a);
    assert inv.arr[0] == [0.0];
    assert inv.arr == [[0.0]];
    var p := MatMul(m, inv);
    assert p.arr[0][0] == Dot(m, inv, 0, 0, 1) == a * 0.0;
  }

  /** m x adjugate(m) = det(m) x identity for a 1 x 1 matrix. */
  lemma AdjugateIdentityOne(m: Mat)
    requires IsSquare(m) && m.nrows == 1
    ensures MatMul(m, Adjugate(m)) == Scale(Eye(1), Det(m))
  {
    var l := MatMul(m, Adjugate(m));
    var r := Scale(Eye(1), Det(m));
    assert l.arr[0][0] == Dot(m, Eye(1), 0, 0, 1) == m.arr[0][0] * 1.0;
    assert l.arr[0] == r.arr[0];
  }

  /** [[d, -b], [-c, a]] for the 2 x 2 matrix [[a, b], [c, d]]. */
  function SwapTwo(m: Mat): (r: Mat)
    requires IsSquare(m) && m.nrows == 2
    ensures IsSquare(r) && r.nrows == 2
  {
    Mat(2, 2, [[m.arr[1][1], -m.arr[0][1]], [-m.arr[1][0], m.arr[0][0]]])
  }

  /** The adjugate of [[a, b], [c, d]] is [[d, -b], [-c, a]]. */
  lemma AdjugateOfTwoByTwo(m: Mat)
    requires IsSquare(m) && m.nrows == 2
    ensures Adjugate(m) == SwapTwo(m)
  {
    var adj := Adjugate(m);
    assert Minor(m, 0, 0) == m.arr[1][1];
    assert Minor(m, 0, 1) == m.arr[1][0];
    assert Minor(m, 1, 0) == m.arr[0][1];
    assert Minor(m, 1, 1) == m.arr[0][0];
    assert adj.arr[0] == SwapTwo(m).arr[0];
    assert adj.arr[1] == SwapTwo(m).arr[1];
  }

  /** A cell of the product of two 2 x 2 matrices. */
  lemma DotTwo(x: Mat, y: Mat, i: nat, j: nat)
    requires IsSquare(x) && IsSquare(y) && x.nrows == 2 && y.nrows == 2 && i < 2 && j < 2
    ensures Dot(x, y, i, j, 2) == x.arr[i][0] * y.arr[0][j] + x.arr[i][1] * y.arr[1][j]
  {
    assert Dot(x, y, i, j, 1) == x.arr[i][0] * y.arr[0][j];
  }

  /** m x adjugate(m) = det(m) x identity for a 2 x 2 matrix. */
  lemma AdjugateIdentityTwo(m: Mat)
    requires IsSquare(m) && m.nrows == 2
    ensures MatMul(m, Adjugate(m)) == Scale(Eye(2), Det(m))
  {
    AdjugateOfTwoByTwo(m);
    SwapTwoIdentity(m);
  }

  /** m x [[d, -b], [-c, a]] = (a*d - c*b) x identity. */
  lemma SwapTwoIdentity(m: Mat)
    requires IsSquare(m) && m.nrows == 2
    ensures MatMul(m, SwapTwo(m)) == Scale(Eye(2), Det(m))
  {
    var l := MatMul(m, SwapTwo(m));
    var r := Scale(Eye(2), Det(m));
    assert Det(m) == m.arr[0][0] * m.arr[1][1] - m.arr[1][0] * m.arr[0][1];
    forall i, j | 0 <= i < 2 && 0 <= j < 2 ensures l.arr[i][j] == r.arr[i][j] {
      SwapTwoProductCell(m, i, j);
    }
    assert l.arr[0] == r.arr[0];
    assert l.arr[1] == r.arr[1];
  }

  /** Cell (i, j) of [[a, b], [c, d]] x [[d, -b], [-c, a]]: a*d - c*b on the
      diagonal, 0 off it. */
  lemma SwapTwoProductCell(m: Mat, i: nat, j: nat)
    requires IsSquare(m) && m.nrows == 2 && i < 2 && j < 2
    ensures MatMul(m, SwapTwo(m)).arr[i][j] ==
      if i == j then m.arr[0][0] * m.arr[1][1] - m.arr[1][0] * m.arr[0][1] else 0.0
  {
    DotTwo(m, SwapTwo(m), i, j);
    TwoByTwoAlgebra(m.arr[0][0], m.arr[0][1], m.arr[1][0], m.arr[1][1]);
  }

  /** The four sums of products behind the 2 x 2 adjugate identity. */
  lemma TwoByTwoAlgebra(a: real, b: real, c: real, d: real)
    ensures a * d + b * -c == a * d - c * b
    ensures a * -b + b * a == 0.0
    ensures c * d + d * -c == 0.0
    ensures c * -b + d * a == a * d - c * b
  {
  }

  /** Once m x adjugate(m) = d x identity with d != 0, the adjugate scaled by
      1/d is a right inverse of m. */
  lemma RightInverseOver(m: Mat, d: real)
    requires IsSquare(m) && d != 0.0
    requires MatMul(m, Adjugate(m)) == Scale(Eye(m.nrows), d)
    ensures MatMul(m, AdjugateOver(m, d)) == Eye(m.nrows)
  {
    MatMulScaleRight(m, Adjugate(m), 1.0 / d);
    ScaleInverse(Eye(m.nrows), d);
  }

  /** The inverse is a right inverse for 1 x 1 and 2 x 2 matrices. */
  lemma InverseIsRightInverseSmall(m: Mat)
    requires IsSquare(m) && 1 <= m.nrows <= 2 && Det(m) != 0.0
    ensures MatMul(m, Inverse(m)) == Eye(m.nrows)
  {
    if m.nrows == 1 {
      AdjugateIdentityOne(m);
    } else {
      AdjugateIdentityTwo(m);
    }
    RightInverseOver(m, Det(m));
  }
}
