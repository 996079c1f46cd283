/** The value a matrix holds: a dense row-major grid of reals with its shape,
    and the structural operations of the library stated on such values. The
    class in MatrixClass is proved against these functions. */
module Grids {
  import opened Results

  /** The three fields of a matrix: `nrows` rows of `ncols` cells each. The
      shape is kept apart from the rows because a matrix may have no rows and
      still a positive number of columns (zeros(0, 3), say). */
  datatype Mat = Mat(nrows: nat, ncols: nat, arr: seq<seq<real>>)

  /** The shape invariant: `arr` holds `nrows` rows, each of length `ncols`. */
  predicate Wf(m: Mat) {
    |m.arr| == m.nrows && forall i | 0 <= i < m.nrows :: |m.arr[i]| == m.ncols
  }

  predicate IsSquare(m: Mat) {
    Wf(m) && m.nrows == m.ncols
  }

  /** The bounds check of get and set. */
  predicate InBounds(m: Mat, row: int, column: int) {
    0 <= row < m.nrows && 0 <= column < m.ncols
  }

  /** The failure get and set report for (row, column): the row is checked first. */
  function IndexError(m: Mat, row: int, column: int): (e: string)
    requires !InBounds(m, row, column)
    ensures e == InvalidRow <==> !(0 <= row < m.nrows)
    ensures e == InvalidColumn <==> 0 <= row < m.nrows
  {
    if !(0 <= row < m.nrows) then InvalidRow else InvalidColumn
  }

  /** m with cell (row, column) replaced by v: what a successful set leaves. */
  function SetCell(m: Mat, row: nat, column: nat, v: real): (r: Mat)
    requires Wf(m) && InBounds(m, row, column)
    ensures Wf(r) && r.nrows == m.nrows && r.ncols == m.ncols
  {
    Mat(m.nrows, m.ncols, m.arr[row := m.arr[row][column := v]])
  }

  /** A rows x columns matrix every cell of which is v. */
  function Fill(rows: nat, columns: nat, v: real): (r: Mat)
    ensures Wf(r) && r.nrows == rows && r.ncols == columns
    ensures forall i, j {:trigger r.arr[i][j]} | 0 <= i < rows && 0 <= j < columns :: r.arr[i][j] == v
  {
    Mat(rows, columns, seq(rows, _ => seq(columns, _ => v)))
  }

  function Zeros(rows: nat, columns: nat): (r: Mat)
    ensures Wf(r) && r.nrows == rows && r.ncols == columns
    ensures forall i, j {:trigger r.arr[i][j]} | 0 <= i < rows && 0 <= j < columns :: r.arr[i][j] == 0.0
  {
    Fill(rows, columns, 0.0)
  }

  /** The identity matrix of size n. */
  function Eye(n: nat): (r: Mat)
    ensures IsSquare(r) && r.nrows == n
    ensures forall i {:trigger r.arr[i][i]} | 0 <= i < n :: r.arr[i][i] == 1.0
    ensures forall i, j {:trigger r.arr[i][j]} | 0 <= i < n && 0 <= j < n && i != j :: r.arr[i][j] == 0.0
  {
    Mat(n, n, seq(n, i => seq(n, j => if i == j then 1.0 else 0.0)))
  }

  function Transpose(m: Mat): (r: Mat)
    requires Wf(m)
    ensures Wf(r) && r.nrows == m.ncols && r.ncols == m.nrows
    ensures forall i, j {:trigger r.arr[j][i]} | 0 <= i < m.nrows && 0 <= j < m.ncols :: r.arr[j][i] == m.arr[i][j]
  {
    Mat(m.ncols, m.nrows, seq(m.ncols, j requires 0 <= j < m.ncols => seq(m.nrows, i requires 0 <= i < m.nrows => m.arr[i][j])))
  }

  /** Every cell multiplied by k (kmatmul). */
  function Scale(m: Mat, k: real): (r: Mat)
    requires Wf(m)
    ensures Wf(r) && r.nrows == m.nrows && r.ncols == m.ncols
    ensures forall i, j {:trigger r.arr[i][j]} | 0 <= i < m.nrows && 0 <= j < m.ncols :: r.arr[i][j] == m.arr[i][j] * k
  {
    Mat(m.nrows, m.ncols, seq(m.nrows, i requires 0 <= i < m.nrows => seq(m.ncols, j requires 0 <= j < m.ncols => m.arr[i][j] * k)))
  }

  /** The sum of a(i, k) * b(k, j) over k < n, accumulated from k = 0 upwards. */
  function Dot(a: Mat, b: Mat, i: nat, j: nat, n: nat): real
    requires Wf(a) && Wf(b) && i < a.nrows && j < b.ncols && n <= a.ncols && n <= b.nrows
  {
    if n == 0 then 0.0 else Dot(a, b, i, j, n - 1) + a.arr[i][n - 1] * b.arr[n - 1][j]
  }

  /** The matrix product a x b. */
  function MatMul(a: Mat, b: Mat): (r: Mat)
    requires Wf(a) && Wf(b) && a.ncols == b.nrows
    ensures Wf(r) && r.nrows == a.nrows && r.ncols == b.ncols
  {
    Mat(a.nrows, b.ncols, seq(a.nrows, i requires 0 <= i < a.nrows => seq(b.ncols, j requires 0 <= j < b.ncols => Dot(a, b, i, j, a.ncols))))
  }

  /** Row i removed; the rows after it move up by one. */
  function DeleteRow(m: Mat, i: nat): (r: Mat)
    requires Wf(m) && i < m.nrows
    ensures Wf(r) && r.nrows == m.nrows - 1 && r.ncols == m.ncols
    ensures forall k {:trigger r.arr[k]} | 0 <= k < i :: r.arr[k] == m.arr[k]
    ensures forall k {:trigger r.arr[k]} | i <= k < r.nrows :: r.arr[k] == m.arr[k + 1]
  {
    Mat(m.nrows - 1, m.ncols, m.arr[..i] + m.arr[i + 1..])
  }

  /** Element j removed from every row; the order of the rest is kept. */
  function DeleteColumn(m: Mat, j: nat): (r: Mat)
    requires Wf(m) && j < m.ncols
    ensures Wf(r) && r.nrows == m.nrows && r.ncols == m.ncols - 1
    ensures forall i, k {:trigger r.arr[i][k]} | 0 <= i < m.nrows && 0 <= k < j :: r.arr[i][k] == m.arr[i][k]
    ensures forall i, k {:trigger r.arr[i][k]} | 0 <= i < m.nrows && j <= k < r.ncols :: r.arr[i][k] == m.arr[i][k + 1]
  {
    Mat(m.nrows, m.ncols - 1, seq(m.nrows, i requires 0 <= i < m.nrows => m.arr[i][..j] + m.arr[i][j + 1..]))
  }

  /** Row i as a 1 x ncols matrix. */
  function Row(m: Mat, i: nat): (r: Mat)
    requires Wf(m) && i < m.nrows
    ensures Wf(r) && r.nrows == 1 && r.ncols == m.ncols && r.arr[0] == m.arr[i]
  {
    Mat(1, m.ncols, [m.arr[i]])
  }

  /** Column j as an nrows x 1 matrix. */
  function Column(m: Mat, j: nat): (r: Mat)
    requires Wf(m) && j < m.ncols
    ensures Wf(r) && r.nrows == m.nrows && r.ncols == 1
    ensures forall i {:trigger r.arr[i]} | 0 <= i < m.nrows :: r.arr[i] == [m.arr[i][j]]
  {
    Mat(m.nrows, 1, seq(m.nrows, i requires 0 <= i < m.nrows => [m.arr[i][j]]))
  }

  /** The first k columns of m. */
  function LeftColumns(m: Mat, k: nat): (r: Mat)
    requires Wf(m) && k <= m.ncols
    ensures Wf(r) && r.nrows == m.nrows && r.ncols == k
    ensures forall i, j {:trigger r.arr[i][j]} | 0 <= i < m.nrows && 0 <= j < k :: r.arr[i][j] == m.arr[i][j]
  {
    Mat(m.nrows, k, seq(m.nrows, i requires 0 <= i < m.nrows => m.arr[i][..k]))
  }

  /** The first k rows of m. */
  function TopRows(m: Mat, k: nat): (r: Mat)
    requires Wf(m) && k <= m.nrows
    ensures Wf(r) && r.nrows == k && r.ncols == m.ncols
    ensures forall i {:trigger r.arr[i]} | 0 <= i < k :: r.arr[i] == m.arr[i]
  {
    Mat(k, m.ncols, m.arr[..k])
  }

  /** m with the first k cells of row i taken from row 0 of src: what
      setRow(i, src) leaves once it has copied k cells. */
  function OverwriteRow(m: Mat, i: nat, src: Mat, k: nat): (r: Mat)
    requires Wf(m) && Wf(src) && i < m.nrows && k <= m.ncols
    requires k > 0 ==> 0 < src.nrows && k <= src.ncols
    ensures Wf(r) && r.nrows == m.nrows && r.ncols == m.ncols
  {
    if k == 0 then m else Mat(m.nrows, m.ncols, m.arr[i := src.arr[0][..k] + m.arr[i][k..]])
  }

  /** How many cells setRow copies before src.get(0, c) fails, if it fails:
      none when src has no row, else as many as src has columns. */
  function RowCopyLength(m: Mat, src: Mat): (k: nat)
    ensures k <= m.ncols
  {
    if src.nrows == 0 then 0 else if src.ncols < m.ncols then src.ncols else m.ncols
  }

  /** m with cell (i, j) taken from cell (i, 0) of src for every i < k: what
      setColumn(j, src) leaves once it has copied k cells. */
  function OverwriteColumn(m: Mat, j: nat, src: Mat, k: nat): (r: Mat)
    requires Wf(m) && Wf(src) && j < m.ncols && k <= m.nrows
    requires k > 0 ==> 0 < src.ncols && k <= src.nrows
    ensures Wf(r) && r.nrows == m.nrows && r.ncols == m.ncols
  {
    Mat(m.nrows, m.ncols, seq(m.nrows, i requires 0 <= i < m.nrows =>
      if i < k then m.arr[i][j := src.arr[i][0]] else m.arr[i]))
  }

  /** How many cells setColumn copies before src.get(i, 0) fails, if it
      fails: none when src has no column, else as many as src has rows. */
  function ColumnCopyLength(m: Mat, src: Mat): (k: nat)
    ensures k <= m.nrows
  {
    if src.ncols == 0 then 0 else if src.nrows < m.nrows then src.nrows else m.nrows
  }

  /** Every cell replaced by its absolute value. */
  function Abs(m: Mat): (r: Mat)
    requires Wf(m)
    ensures Wf(r) && r.nrows == m.nrows && r.ncols == m.ncols
    ensures forall i, j {:trigger r.arr[i][j]} | 0 <= i < m.nrows && 0 <= j < m.ncols ::
      r.arr[i][j] >= 0.0 && (r.arr[i][j] == m.arr[i][j] || r.arr[i][j] == -m.arr[i][j])
  {
    Mat(m.nrows, m.ncols, seq(m.nrows, i requires 0 <= i < m.nrows =>
      seq(m.ncols, j requires 0 <= j < m.ncols => if m.arr[i][j] < 0.0 then -m.arr[i][j] else m.arr[i][j])))
  }

  /** The block [a b]: the rows of b appended to the rows of a. */
  function Horzcat(a: Mat, b: Mat): (r: Mat)
    requires Wf(a) && Wf(b) && a.nrows == b.nrows
    ensures Wf(r) && r.nrows == a.nrows && r.ncols == a.ncols + b.ncols
    ensures forall i, j {:trigger r.arr[i][j]} | 0 <= i < a.nrows && 0 <= j < a.ncols :: r.arr[i][j] == a.arr[i][j]
    ensures forall i, j {:trigger r.arr[i][j]} | 0 <= i < a.nrows && a.ncols <= j < r.ncols :: r.arr[i][j] == b.arr[i][j - a.ncols]
  {
    Mat(a.nrows, a.ncols + b.ncols, seq(a.nrows, i requires 0 <= i < a.nrows => a.arr[i] + b.arr[i]))
  }

  /** The block [a; b]: the rows of b below the rows of a. */
  function Vertcat(a: Mat, b: Mat): (r: Mat)
    requires Wf(a) && Wf(b) && a.ncols == b.ncols
    ensures Wf(r) && r.nrows == a.nrows + b.nrows && r.ncols == a.ncols
    ensures forall i {:trigger r.arr[i]} | 0 <= i < a.nrows :: r.arr[i] == a.arr[i]
    ensures forall i {:trigger r.arr[i]} | a.nrows <= i < r.nrows :: r.arr[i] == b.arr[i - a.nrows]
  {
    Mat(a.nrows + b.nrows, a.ncols, a.arr + b.arr)
  }

  /** The cells (r0 + i, c0 + j) for i <= r1 - r0 and j <= c1 - c0, both ends
      inclusive, all of them inside m. */
  function Block(m: Mat, r0: nat, r1: int, c0: nat, c1: int): (r: Mat)
    requires Wf(m) && r0 <= r1 + 1 && c0 <= c1 + 1
    requires r0 <= r1 && c0 <= c1 ==> r1 < m.nrows && c1 < m.ncols
    ensures Wf(r) && r.nrows == r1 - r0 + 1 && r.ncols == c1 - c0 + 1
    ensures forall i, j {:trigger r.arr[i][j]} | 0 <= i < r.nrows && 0 <= j < r.ncols :: r.arr[i][j] == m.arr[r0 + i][c0 + j]
  {
    var rows := r1 - r0 + 1;
    var columns := c1 - c0 + 1;
    Mat(rows, columns, seq(rows, i requires 0 <= i < rows => seq(columns, j requires 0 <= j < columns => m.arr[r0 + i][c0 + j])))
  }

  /** submatrix(r0, r1, c0, c1): the source reads every cell of the block
      through get, row by row, so the first index that get refuses decides
      the error; an empty range reads nothing and cannot fail. */
  function Submatrix(m: Mat, r0: int, r1: int, c0: int, c1: int): (r: Result<Mat>)
    requires Wf(m) && r0 <= r1 + 1 && c0 <= c1 + 1
    ensures r.Ok? ==> Wf(r.value) && r.value.nrows == r1 - r0 + 1 && r.value.ncols == c1 - c0 + 1
    ensures r.Ok? <==> r0 > r1 || c0 > c1 || (0 <= r0 && r1 < m.nrows && 0 <= c0 && c1 < m.ncols)
    ensures r.Ok? ==> forall i, j | 0 <= i < r.value.nrows && 0 <= j < r.value.ncols ::
      0 <= r0 + i < m.nrows && 0 <= c0 + j < m.ncols && r.value.arr[i][j] == m.arr[r0 + i][c0 + j]
  {
    if r0 > r1 || c0 > c1 then Ok(Zeros(r1 - r0 + 1, c1 - c0 + 1))
    else if !(0 <= r0 < m.nrows) then Err(InvalidRow)
    else if c0 < 0 || c1 >= m.ncols then Err(InvalidColumn)
    else if r1 >= m.nrows then Err(InvalidRow)
    else Ok(Block(m, r0, r1, c0, c1))
  }

  // ---------------------------------------------------------------------
  // Properties of the structural operations

  /** Transposing twice gives back the original matrix. */
  lemma TransposeTwice(m: Mat)
    requires Wf(m)
    ensures Transpose(Transpose(m)) == m
  {
    var t := Transpose(Transpose(m));
    assert |t.arr| == |m.arr|;
    forall i | 0 <= i < m.nrows ensures t.arr[i] == m.arr[i] {
      assert |t.arr[i]| == |m.arr[i]|;
    }
  }

  /** Row i of the identity selects row i: the sum over k < n of
      eye(i, k) * b(k, j) is b(i, j) once n has passed i, and 0 before. */
  lemma {:induction false} DotEyeLeft(b: Mat, i: nat, j: nat, n: nat)
    requires Wf(b) && i < b.nrows && j < b.ncols && n <= b.nrows
    ensures Dot(Eye(b.nrows), b, i, j, n) == if i < n then b.arr[i][j] else 0.0
  {
    if n > 0 {
      DotEyeLeft(b, i, j, n - 1);
    }
  }

  lemma {:induction false} DotEyeRight(a: Mat, i: nat, j: nat, n: nat)
    requires Wf(a) && i < a.nrows && j < a.ncols && n <= a.ncols
    ensures Dot(a, Eye(a.ncols), i, j, n) == if j < n then a.arr[i][j] else 0.0
  {
    if n > 0 {
      DotEyeRight(a, i, j, n - 1);
    }
  }

  /** The identity is neutral for matmul on both sides. */
  lemma MatMulEye(a: Mat)
    requires Wf(a)
    ensures MatMul(Eye(a.nrows), a) == a
    ensures MatMul(a, Eye(a.ncols)) == a
  {
    var l := MatMul(Eye(a.nrows), a);
    forall i | 0 <= i < a.nrows ensures l.arr[i] == a.arr[i] {
      forall j | 0 <= j < a.ncols ensures l.arr[i][j] == a.arr[i][j] {
        DotEyeLeft(a, i, j, a.nrows);
      }
    }
    var r := MatMul(a, Eye(a.ncols));
    forall i | 0 <= i < a.nrows ensures r.arr[i] == a.arr[i] {
      forall j | 0 <= j < a.ncols ensures r.arr[i][j] == a.arr[i][j] {
        DotEyeRight(a, i, j, a.ncols);
      }
    }
  }

  /** Multiplying by k and then by 1/k gives back the matrix: kmatmul is
      invertible for every k other than 0. */
  lemma ScaleInverse(m: Mat, k: real)
    requires Wf(m) && k != 0.0
    ensures Scale(Scale(m, k), 1.0 / k) == m
  {
    var s := Scale(Scale(m, k), 1.0 / k);
    forall i | 0 <= i < m.nrows ensures s.arr[i] == m.arr[i] {
      forall j | 0 <= j < m.ncols ensures s.arr[i][j] == m.arr[i][j] {
        calc {
          s.arr[i][j];
          (m.arr[i][j] * k) * (1.0 / k);
          m.arr[i][j] * (k * (1.0 / k));
          m.arr[i][j];
        }
      }
    }
  }

  /** The two blocks of horzcat(a, b) are a and b again: submatrix takes the
      concatenation apart. */
  lemma HorzcatSplit(a: Mat, b: Mat)
    requires Wf(a) && Wf(b) && a.nrows == b.nrows
    ensures Submatrix(Horzcat(a, b), 0, a.nrows - 1, 0, a.ncols - 1) == Ok(a)
    ensures Submatrix(Horzcat(a, b), 0, a.nrows - 1, a.ncols, a.ncols + b.ncols - 1) == Ok(b)
  {
    var h := Horzcat(a, b);
    var left := Submatrix(h, 0, a.nrows - 1, 0, a.ncols - 1).value;
    forall i | 0 <= i < a.nrows ensures left.arr[i] == a.arr[i] {
      assert |left.arr[i]| == |a.arr[i]|;
    }
    assert left.arr == a.arr;
    var right := Submatrix(h, 0, a.nrows - 1, a.ncols, a.ncols + b.ncols - 1).value;
    forall i | 0 <= i < a.nrows ensures right.arr[i] == b.arr[i] {
      assert |right.arr[i]| == |b.arr[i]|;
    }
    assert right.arr == b.arr;
  }

  /** The two blocks of vertcat(a, b) are a and b again. */
  lemma VertcatSplit(a: Mat, b: Mat)
    requires Wf(a) && Wf(b) && a.ncols == b.ncols
    ensures Submatrix(Vertcat(a, b), 0, a.nrows - 1, 0, a.ncols - 1) == Ok(a)
    ensures Submatrix(Vertcat(a, b), a.nrows, a.nrows + b.nrows - 1, 0, a.ncols - 1) == Ok(b)
  {
    var v := Vertcat(a, b);
    var top := Submatrix(v, 0, a.nrows - 1, 0, a.ncols - 1).value;
    forall i | 0 <= i < a.nrows ensures top.arr[i] == a.arr[i] {
      assert |top.arr[i]| == |a.arr[i]|;
    }
    assert top.arr == a.arr;
    var bottom := Submatrix(v, a.nrows, a.nrows + b.nrows - 1, 0, a.ncols - 1).value;
    forall i | 0 <= i < b.nrows ensures bottom.arr[i] == b.arr[i] {
      assert |bottom.arr[i]| == |b.arr[i]|;
    }
    assert bottom.arr == b.arr;
  }

  /** The whole matrix as a submatrix is a copy of it. */
  lemma SubmatrixWhole(m: Mat)
    requires Wf(m)
    ensures Submatrix(m, 0, m.nrows - 1, 0, m.ncols - 1) == Ok(m)
  {
    var s := Submatrix(m, 0, m.nrows - 1, 0, m.ncols - 1).value;
    forall i | 0 <= i < m.nrows ensures s.arr[i] == m.arr[i] {
      assert |s.arr[i]| == |m.arr[i]|;
    }
    assert s.arr == m.arr;
  }

  /** Scaling the right factor scales every partial sum of the product. */
  lemma {:induction false} DotScaleRight(a: Mat, b: Mat, k: real, i: nat, j: nat, n: nat)
    requires Wf(a) && Wf(b) && i < a.nrows && j < b.ncols && n <= a.ncols && n <= b.nrows
    ensures Dot(a, Scale(b, k), i, j, n) == Dot(a, b, i, j, n) * k
  {
    if n > 0 {
      DotScaleRight(a, b, k, i, j, n - 1);
      calc {
        Dot(a, Scale(b, k), i, j, n);
        Dot(a, b, i, j, n - 1) * k + a.arr[i][n - 1] * (b.arr[n - 1][j] * k);
        (Dot(a, b, i, j, n - 1) + a.arr[i][n - 1] * b.arr[n - 1][j]) * k;
      }
    }
  }

  /** a x (b scaled by k) is (a x b) scaled by k. */
  lemma MatMulScaleRight(a: Mat, b: Mat, k: real)
    requires Wf(a) && Wf(b) && a.ncols == b.nrows
    ensures MatMul(a, Scale(b, k)) == Scale(MatMul(a, b), k)
  {
    var l := MatMul(a, Scale(b, k));
    var r := Scale(MatMul(a, b), k);
    forall i | 0 <= i < a.nrows ensures l.arr[i] == r.arr[i] {
      forall j | 0 <= j < b.ncols ensures l.arr[i][j] == r.arr[i][j] {
        DotScaleRight(a, b, k, i, j, a.ncols);
      }
    }
  }

  /** A set changes the one cell it names and no other: get after set reads
      the new value there and the old value everywhere else. */
  lemma GetAfterSet(m: Mat, row: nat, column: nat, v: real, i: nat, j: nat)
    requires Wf(m) && InBounds(m, row, column) && InBounds(m, i, j)
    ensures SetCell(m, row, column, v).arr[i][j] == if i == row && j == column then v else m.arr[i][j]
  {
  }

  /** Writing back the value get read leaves the matrix as it was, and a
      second write of the same value changes nothing more. */
  lemma SetOfGet(m: Mat, row: nat, column: nat, v: real)
    requires Wf(m) && InBounds(m, row, column)
    ensures SetCell(m, row, column, m.arr[row][column]) == m
    ensures SetCell(SetCell(m, row, column, v), row, column, v) == SetCell(m, row, column, v)
  {
    assert m.arr[row][column := m.arr[row][column]] == m.arr[row];
    assert m.arr[row := m.arr[row]] == m.arr;
    var once := SetCell(m, row, column, v);
    assert once.arr[row][column := v] == once.arr[row];
    assert once.arr[row := once.arr[row]] == once.arr;
  }

  /** setRow writes row i and nothing else: once it has copied the whole row,
      row i is row 0 of src and every other row is unchanged; writing back
      what getRow returned leaves the matrix as it was. */
  lemma SetRowOfGetRow(m: Mat, i: nat, src: Mat)
    requires Wf(m) && Wf(src) && i < m.nrows && RowCopyLength(m, src) == m.ncols
    ensures m.ncols > 0 ==> OverwriteRow(m, i, src, m.ncols).arr[i] == src.arr[0][..m.ncols]
    ensures forall k | 0 <= k < m.nrows && k != i :: OverwriteRow(m, i, src, m.ncols).arr[k] == m.arr[k]
    ensures OverwriteRow(m, i, Row(m, i), m.ncols) == m
  {
    var w := OverwriteRow(m, i, Row(m, i), m.ncols);
    if m.ncols > 0 {
      assert m.arr[i][..m.ncols] + m.arr[i][m.ncols..] == m.arr[i];
      assert w.arr == m.arr;
    }
  }

  /** setColumn writes column j and nothing else; writing back what
      getColumn returned leaves the matrix as it was. */
  lemma SetColumnOfGetColumn(m: Mat, j: nat, src: Mat)
    requires Wf(m) && Wf(src) && j < m.ncols && ColumnCopyLength(m, src) == m.nrows
    ensures forall i, k | 0 <= i < m.nrows && 0 <= k < m.ncols ::
      OverwriteColumn(m, j, src, m.nrows).arr[i][k] == if k == j then src.arr[i][0] else m.arr[i][k]
    ensures OverwriteColumn(m, j, Column(m, j), m.nrows) == m
  {
    var w := OverwriteColumn(m, j, Column(m, j), m.nrows);
    forall i | 0 <= i < m.nrows ensures w.arr[i] == m.arr[i] {
      assert w.arr[i] == m.arr[i][j := m.arr[i][j]];
    }
    assert w.arr == m.arr;
  }

  /** abs is idempotent and leaves no negative cell. */
  lemma AbsIdempotent(m: Mat)
    requires Wf(m)
    ensures Abs(Abs(m)) == Abs(m)
    ensures forall i, j | 0 <= i < m.nrows && 0 <= j < m.ncols :: Abs(m).arr[i][j] >= 0.0
  {
    var a := Abs(m);
    var b := Abs(a);
    forall i | 0 <= i < m.nrows ensures b.arr[i] == a.arr[i] {
    }
    assert b.arr == a.arr;
  }

  /** Appending column k of b to [a, first k columns of b] gives
      [a, first k + 1 columns of b]: the step of horzcat's loop. */
  lemma HorzcatColumnStep(a: Mat, b: Mat, k: nat)
    requires Wf(a) && Wf(b) && a.nrows == b.nrows && k < b.ncols
    ensures Horzcat(Horzcat(a, LeftColumns(b, k)), Column(b, k)) == Horzcat(a, LeftColumns(b, k + 1))
  {
    var l := Horzcat(Horzcat(a, LeftColumns(b, k)), Column(b, k));
    var r := Horzcat(a, LeftColumns(b, k + 1));
    forall i | 0 <= i < a.nrows ensures l.arr[i] == r.arr[i] {
      assert |l.arr[i]| == |r.arr[i]|;
    }
    assert l.arr == r.arr;
  }

  /** Appending row k of b below [a; first k rows of b] gives
      [a; first k + 1 rows of b]: the step of vertcat's loop. */
  lemma VertcatRowStep(a: Mat, b: Mat, k: nat)
    requires Wf(a) && Wf(b) && a.ncols == b.ncols && k < b.nrows
    ensures Vertcat(Vertcat(a, TopRows(b, k)), Row(b, k)) == Vertcat(a, TopRows(b, k + 1))
  {
    var l := Vertcat(Vertcat(a, TopRows(b, k)), Row(b, k));
    var r := Vertcat(a, TopRows(b, k + 1));
    assert l.arr == r.arr;
  }

  /** All the columns, or all the rows, are the matrix itself. */
  lemma WholePrefixes(m: Mat)
    requires Wf(m)
    ensures LeftColumns(m, m.ncols) == m
    ensures TopRows(m, m.nrows) == m
  {
    var l := LeftColumns(m, m.ncols);
    forall i | 0 <= i < m.nrows ensures l.arr[i] == m.arr[i] {
    }
    assert l.arr == m.arr;
    assert m.arr[..m.nrows] == m.arr;
  }

  /** Copying cell k of src's row 0 extends the copied prefix of row i by one. */
  lemma OverwriteRowStep(m: Mat, i: nat, src: Mat, k: nat)
    requires Wf(m) && Wf(src) && i < m.nrows && k < m.ncols && 0 < src.nrows && k < src.ncols
    ensures OverwriteRow(m, i, src, k + 1) == SetCell(OverwriteRow(m, i, src, k), i, k, src.arr[0][k])
  {
    var before := OverwriteRow(m, i, src, k);
    var after := OverwriteRow(m, i, src, k + 1);
    assert after.arr[i] == before.arr[i][k := src.arr[0][k]];
  }

  /** Copying cell (k, 0) of src extends the copied prefix of column j by one. */
  lemma OverwriteColumnStep(m: Mat, j: nat, src: Mat, k: nat)
    requires Wf(m) && Wf(src) && j < m.ncols && k < m.nrows && 0 < src.ncols && k < src.nrows
    ensures OverwriteColumn(m, j, src, k + 1) == SetCell(OverwriteColumn(m, j, src, k), k, j, src.arr[k][0])
  {
    var before := OverwriteColumn(m, j, src, k);
    var after := OverwriteColumn(m, j, src, k + 1);
    assert after.arr == before.arr[k := before.arr[k][j := src.arr[k][0]]];
  }

  /** Appending no columns, or no rows, leaves a matrix as it is: where the
      loops of horzcat and vertcat start. */
  lemma EmptyPrefixes(a: Mat, b: Mat)
    requires Wf(a) && Wf(b)
    ensures a.nrows == b.nrows ==> Horzcat(a, LeftColumns(b, 0)) == a
    ensures a.ncols == b.ncols ==> Vertcat(a, TopRows(b, 0)) == a
  {
    if a.nrows == b.nrows {
      var h := Horzcat(a, LeftColumns(b, 0));
      forall i | 0 <= i < a.nrows ensures h.arr[i] == a.arr[i] {
        assert h.arr[i] == a.arr[i] + [];
      }
      assert h.arr == a.arr;
    }
    if a.ncols == b.ncols {
      assert a.arr + [] == a.arr;
    }
  }
}
