/** The Matrix class: a dense row-major grid held in three fields that its
    methods update in place. Every method is proved against the functions of
    Grids, Determinant and Doolittle on the matrix's value.

    Where the two versions of the class differ, a method's comment names the
    file whose behaviour it follows: Matrix.ts wraps a row that getRow returns
    as a 1 x n matrix, Matrix.js hands out the row itself; the model keeps
    value semantics throughout, so no row is ever shared between matrices. */
module MatrixClass {
  import opened Results
  import opened Grids
  import Determinant
  import Doolittle

  class Matrix {
    var arr: seq<seq<real>>
    var nrows: nat
    var ncols: nat

    /** The matrix as a value. */
    function Value(): Mat
      reads this
    {
      Mat(nrows, ncols, arr)
    }

    /** The class invariant: nrows rows of ncols cells each. */
    predicate Valid()
      reads this
    {
      Wf(Value())
    }

    /** new Matrix(): no rows and no columns. */
    constructor ()
      ensures Valid() && Value() == Mat(0, 0, [])
    {
      arr := [];
      nrows := 0;
      ncols := 0;
    }

    /** isSquare() compares the two counts. */
    predicate IsSquare()
      reads this
      requires Valid()
      ensures IsSquare() <==> Grids.IsSquare(Value())
    {
      nrows == ncols
    }

    /** size() is [nrows, ncols]. */
    function Size(): (s: seq<nat>)
      reads this
      ensures |s| == 2 && s[0] == nrows && s[1] == ncols
    {
      [nrows, ncols]
    }

    /** get(row, column): the row is checked first, then the column. */
    function Get(row: int, column: int): (r: Result<real>)
      reads this
      requires Valid()
      ensures r.Ok? <==> InBounds(Value(), row, column)
      ensures r.Ok? ==> r.value == arr[row][column]
      ensures r.Err? ==> r.msg == IndexError(Value(), row, column)
    {
      if !(0 <= row < nrows) then Err(InvalidRow)
      else if !(0 <= column < ncols) then Err(InvalidColumn)
      else Ok(arr[row][column])
    }

    /** set(row, column, value): the same checks as get, then one cell is
        overwritten. */
    method Set(row: int, column: int, value: real) returns (o: Outcome)
      requires Valid()
      modifies this
      ensures Valid()
      ensures o.Pass? <==> InBounds(old(Value()), row, column)
      ensures o.Pass? ==> Value() == SetCell(old(Value()), row, column, value)
      ensures o.Fail? ==> Value() == old(Value()) && o.msg == IndexError(old(Value()), row, column)
    {
      if !(0 <= row < nrows) {
        return Fail(InvalidRow);
      }
      if !(0 <= column < ncols) {
        return Fail(InvalidColumn);
      }
      arr := arr[row := arr[row][column := value]];
      o := Pass;
    }

    /** zeros(rows, columns): rows copies of a row of zeros. */
    static method Zeros(rows: nat, columns: nat) returns (m: Matrix)
      ensures fresh(m) && m.Valid() && m.Value() == Grids.Zeros(rows, columns)
    {
      m := new Matrix();
      m.nrows := rows;
      m.ncols := columns;
      var row := seq(columns, _ => 0.0);
      var i := 0;
      while i < rows
        invariant 0 <= i <= rows
        invariant m.nrows == rows && m.ncols == columns && |m.arr| == i
        invariant forall p | 0 <= p < i :: m.arr[p] == row
      {
        m.arr := m.arr + [row];
        i := i + 1;
      }
      assert m.arr == Grids.Zeros(rows, columns).arr;
    }

    /** ones(rows, columns) is an instance method of the source that does
        not read its receiver: zeros, then every cell set to 1. */
    method Ones(rows: nat, columns: nat) returns (m: Matrix)
      ensures fresh(m) && m.Valid() && m.Value() == Fill(rows, columns, 1.0)
    {
      m := Zeros(rows, columns);
      for i := 0 to rows
        invariant m.Valid() && m.nrows == rows && m.ncols == columns
        invariant forall p, q {:trigger m.arr[p][q]} | 0 <= p < rows && 0 <= q < columns ::
          m.arr[p][q] == if p < i then 1.0 else 0.0
      {
        for j := 0 to columns
          invariant m.Valid() && m.nrows == rows && m.ncols == columns
          invariant forall p, q {:trigger m.arr[p][q]} | 0 <= p < rows && 0 <= q < columns ::
            m.arr[p][q] == if p < i || (p == i && q < j) then 1.0 else 0.0
        {
          var o := m.Set(i, j, 1.0);
        }
      }
      assert m.arr == Fill(rows, columns, 1.0).arr by {
        forall p | 0 <= p < rows ensures m.arr[p] == Fill(rows, columns, 1.0).arr[p] {
        }
      }
    }

    /** fromArray(a): the rows of a, with as many columns as its first row
        has, and 1 when a has no row at all. */
    static method FromArray(a: seq<seq<real>>) returns (m: Matrix)
      requires forall i | 0 <= i < |a| :: |a[i]| == |a[0]|
      ensures fresh(m) && m.Valid()
      ensures m.nrows == |a| && m.arr == a
      ensures m.ncols == if |a| == 0 then 1 else |a[0]|
    {
      m := new Matrix();
      m.arr := a;
      m.nrows := |a|;
      m.ncols := if |a| == 0 then 1 else |a[0]|;
    }

    /** fromMatrix(m): a fresh copy, filled cell by cell through get and set. */
    static method FromMatrix(m: Matrix) returns (c: Matrix)
      requires m.Valid()
      ensures fresh(c) && c.Valid() && c.Value() == m.Value()
    {
      c := Zeros(m.nrows, m.ncols);
      for i := 0 to m.nrows
        invariant c.Valid() && c.nrows == m.nrows && c.ncols == m.ncols
        invariant forall p, q {:trigger c.arr[p][q]} | 0 <= p < m.nrows && 0 <= q < m.ncols ::
          c.arr[p][q] == if p < i then m.arr[p][q] else 0.0
      {
        for j := 0 to m.ncols
          invariant c.Valid() && c.nrows == m.nrows && c.ncols == m.ncols
          invariant forall p, q {:trigger c.arr[p][q]} | 0 <= p < m.nrows && 0 <= q < m.ncols ::
            c.arr[p][q] == if p < i || (p == i && q < j) then m.arr[p][q] else 0.0
        {
          var o := c.Set(i, j, m.Get(i, j).value);
        }
      }
      assert c.arr == m.arr by {
        forall p | 0 <= p < m.nrows ensures c.arr[p] == m.arr[p] {
        }
      }
    }

    /** eye(size): size must be positive; zeros with 1 set on the diagonal. */
    static method Eye(size: int) returns (r: Result<Matrix>)
      ensures r.Err? <==> size <= 0
      ensures r.Err? ==> r.msg == NotPositive
      ensures r.Ok? ==> fresh(r.value) && r.value.Valid() && r.value.Value() == Grids.Eye(size)
    {
      if size <= 0 {
        return Err(NotPositive);
      }
      var m := Zeros(size, size);
      for i := 0 to size
        invariant m.Valid() && m.nrows == size && m.ncols == size
        invariant forall p, q {:trigger m.arr[p][q]} | 0 <= p < size && 0 <= q < size ::
          m.arr[p][q] == if p == q && p < i then 1.0 else 0.0
      {
        var o := m.Set(i, i, 1.0);
      }
      assert m.arr == Grids.Eye(size).arr by {
        forall p | 0 <= p < size ensures m.arr[p] == Grids.Eye(size).arr[p] {
        }
      }
      return Ok(m);
    }

    /** getRow(i): row i as a 1 x ncols matrix (the shape Matrix.ts gives it;
        Matrix.js returns the live row itself). */
    method GetRow(rowIndex: int) returns (r: Result<Matrix>)
      requires Valid()
      ensures r.Err? <==> !(0 <= rowIndex < nrows)
      ensures r.Err? ==> r.msg == InvalidRow
      ensures r.Ok? ==> fresh(r.value) && r.value.Valid() && r.value.Value() == Row(Value(), rowIndex)
    {
      if !(0 <= rowIndex < nrows) {
        return Err(InvalidRow);
      }
      var m := FromArray([arr[rowIndex]]);
      return Ok(m);
    }

    /** setRow(i, row): after the index check, cell (i, c) is set to
        row.get(0, c) for c = 0, 1, ...; a failing get ends the copy with the
        cells before it already written, as in the source. */
    method SetRow(rowIndex: int, row: Matrix) returns (o: Outcome)
      requires Valid() && row.Valid() && row != this
      modifies this
      ensures Valid()
      ensures !(0 <= rowIndex < old(nrows)) ==> o == Fail(InvalidRow) && Value() == old(Value())
      ensures 0 <= rowIndex < old(nrows) ==>
        Value() == OverwriteRow(old(Value()), rowIndex, row.Value(), RowCopyLength(old(Value()), row.Value()))
      ensures 0 <= rowIndex < old(nrows) ==>
        (o.Pass? <==> RowCopyLength(old(Value()), row.Value()) == old(ncols))
      ensures 0 <= rowIndex < old(nrows) && o.Fail? ==>
        o.msg == if row.nrows == 0 then InvalidRow else InvalidColumn
    {
      if !(0 <= rowIndex < nrows) {
        return Fail(InvalidRow);
      }
      var i := 0;
      while i < ncols
        invariant Valid() && nrows == old(nrows) && ncols == old(ncols)
        invariant 0 <= i <= RowCopyLength(old(Value()), row.Value())
        invariant Value() == OverwriteRow(old(Value()), rowIndex, row.Value(), i)
      {
        var v := row.Get(0, i);
        if v.Err? {
          return Fail(v.msg);
        }
        OverwriteRowStep(old(Value()), rowIndex, row.Value(), i);
        var s := Set(rowIndex, i, v.value);
        i := i + 1;
      }
      return Pass;
    }

    /** getColumn(j): column j copied into an nrows x 1 matrix. */
    method GetColumn(columnIndex: int) returns (r: Result<Matrix>)
      requires Valid()
      ensures r.Err? <==> !(0 <= columnIndex < ncols)
      ensures r.Err? ==> r.msg == InvalidColumn
      ensures r.Ok? ==> fresh(r.value) && r.value.Valid() && r.value.Value() == Column(Value(), columnIndex)
    {
      if !(0 <= columnIndex < ncols) {
        return Err(InvalidColumn);
      }
      var column := Zeros(nrows, 1);
      for i := 0 to nrows
        invariant column.Valid() && column.nrows == nrows && column.ncols == 1
        invariant forall p | 0 <= p < nrows :: column.arr[p] == [if p < i then arr[p][columnIndex] else 0.0]
      {
        var o := column.Set(i, 0, Get(i, columnIndex).value);
      }
      var copy := FromMatrix(column);
      return Ok(copy);
    }

    /** setColumn(j, column): after the index check, cell (i, j) is set to
        column.get(i, 0) for i = 0, 1, ...; a failing get ends the copy with
        the cells before it already written. */
    method SetColumn(columnIndex: int, column: Matrix) returns (o: Outcome)
      requires Valid() && column.Valid() && column != this
      modifies this
      ensures Valid()
      ensures !(0 <= columnIndex < old(ncols)) ==> o == Fail(InvalidColumn) && Value() == old(Value())
      ensures 0 <= columnIndex < old(ncols) ==>
        Value() == OverwriteColumn(old(Value()), columnIndex, column.Value(), ColumnCopyLength(old(Value()), column.Value()))
      ensures 0 <= columnIndex < old(ncols) ==>
        (o.Pass? <==> ColumnCopyLength(old(Value()), column.Value()) == old(nrows))
      ensures 0 <= columnIndex < old(ncols) && o.Fail? ==>
        o.msg == if ColumnCopyLength(old(Value()), column.Value()) >= column.nrows then InvalidRow else InvalidColumn
    {
      if !(0 <= columnIndex < ncols) {
        return Fail(InvalidColumn);
      }
      var i := 0;
      assert Value() == OverwriteColumn(old(Value()), columnIndex, column.Value(), 0);
      while i < nrows
        invariant Valid() && nrows == old(nrows) && ncols == old(ncols)
        invariant 0 <= i <= ColumnCopyLength(old(Value()), column.Value())
        invariant Value() == OverwriteColumn(old(Value()), columnIndex, column.Value(), i)
      {
        var v := column.Get(i, 0);
        if v.Err? {
          return Fail(v.msg);
        }
        OverwriteColumnStep(old(Value()), columnIndex, column.Value(), i);
        var s := Set(i, columnIndex, v.value);
        i := i + 1;
      }
      return Pass;
    }

    /** deleteRow(i): the row is spliced out and nrows decremented. */
    method DeleteRow(rowIndex: int) returns (o: Outcome)
      requires Valid()
      modifies this
      ensures Valid()
      ensures o.Pass? <==> 0 <= rowIndex < old(nrows)
      ensures o.Pass? ==> Value() == Grids.DeleteRow(old(Value()), rowIndex)
      ensures o.Fail? ==> o.msg == InvalidRow && Value() == old(Value())
    {
      if !(0 <= rowIndex < nrows) {
        return Fail(InvalidRow);
      }
      arr := arr[..rowIndex] + arr[rowIndex + 1..];
      nrows := nrows - 1;
      return Pass;
    }

    /** deleteColumn(j) as Matrix.js has it: every row, fetched through
        getRow, loses element j, and the rebuilt rows replace arr. */
    method DeleteColumn(columnIndex: int) returns (o: Outcome)
      requires Valid()
      modifies this
      ensures Valid()
      ensures o.Pass? <==> 0 <= columnIndex < old(ncols)
      ensures o.Pass? ==> Value() == Grids.DeleteColumn(old(Value()), columnIndex)
      ensures o.Fail? ==> o.msg == InvalidColumn && Value() == old(Value())
    {
      if !(0 <= columnIndex < ncols) {
        return Fail(InvalidColumn);
      }
      var rebuilt: seq<seq<real>> := [];
      for i := 0 to nrows
        invariant arr == old(arr) && nrows == old(nrows) && ncols == old(ncols)
        invariant |rebuilt| == i
        invariant forall p | 0 <= p < i :: rebuilt[p] == arr[p][..columnIndex] + arr[p][columnIndex + 1..]
      {
        var row := GetRow(i);
        var cells := row.value.arr[0];
        rebuilt := rebuilt + [cells[..columnIndex] + cells[columnIndex + 1..]];
      }
      ghost var expected := Grids.DeleteColumn(Value(), columnIndex);
      assert rebuilt == expected.arr;
      arr := rebuilt;
      ncols := ncols - 1;
      return Pass;
    }

    /** addRow(row), for a row given as an array of numbers (Matrix.ts): its
        length must be ncols; the row is pushed and nrows incremented. */
    method AddRow(row: seq<real>) returns (o: Outcome)
      requires Valid()
      modifies this
      ensures Valid()
      ensures o.Pass? <==> |row| == old(ncols)
      ensures o.Pass? ==> Value() == Grids.Vertcat(old(Value()), Mat(1, |row|, [row]))
      ensures o.Fail? ==> o.msg == RowLength && Value() == old(Value())
    {
      if |row| != ncols {
        return Fail(RowLength);
      }
      arr := arr + [row];
      nrows := nrows + 1;
      return Pass;
    }

    /** addColumn(column), for a column given as a Matrix (Matrix.js): it must
        have nrows rows; column.get(i, 0) is pushed onto row i, and ncols is
        incremented. A column matrix without columns fails at its first get,
        before anything is pushed. */
    method AddColumn(column: Matrix) returns (o: Outcome)
      requires Valid() && column.Valid() && column != this
      modifies this
      ensures Valid()
      ensures o.Pass? <==> column.nrows == old(nrows) && (old(nrows) == 0 || column.ncols > 0)
      ensures o.Pass? ==> Value() == Grids.Horzcat(old(Value()), if column.ncols == 0 then Grids.Zeros(0, 1) else Column(column.Value(), 0))
      ensures o.Fail? ==> Value() == old(Value())
      ensures o.Fail? ==> o.msg == if column.nrows != old(nrows) then ColumnLength else InvalidColumn
    {
      if column.nrows != nrows {
        return Fail(ColumnLength);
      }
      if nrows > 0 && column.ncols == 0 {
        var v := column.Get(0, 0);
        return Fail(v.msg);
      }
      ghost var added := if column.ncols == 0 then Grids.Zeros(0, 1) else Column(column.Value(), 0);
      ghost var expected := Grids.Horzcat(old(Value()), added);
      for i := 0 to nrows
        invariant |arr| == nrows == old(nrows) && ncols == old(ncols)
        invariant forall p | 0 <= p < nrows :: arr[p] == if p < i then expected.arr[p] else old(arr[p])
      {
        var value := column.Get(i, 0).value;
        arr := arr[i := arr[i] + [value]];
      }
      ncols := ncols + 1;
      assert arr == expected.arr;
      return Pass;
    }

    /** matmul(m): the inner dimensions must agree; cell (i, j) accumulates
        this(i, k) * m(k, j) for k = 0, 1, ... through get and set. */
    method Matmul(m: Matrix) returns (r: Result<Matrix>)
      requires Valid() && m.Valid()
      ensures r.Err? <==> ncols != m.nrows
      ensures r.Err? ==> r.msg == InvalidDimensions
      ensures r.Ok? ==> fresh(r.value) && r.value.Valid() && r.value.Value() == MatMul(Value(), m.Value())
    {
      if ncols != m.nrows {
        return Err(InvalidDimensions);
      }
      ghost var a, b := Value(), m.Value();
      var matrix := Zeros(nrows, m.ncols);
      for i := 0 to nrows
        invariant matrix.Valid() && matrix.nrows == nrows && matrix.ncols == m.ncols
        invariant forall p, q {:trigger matrix.arr[p][q]} | 0 <= p < nrows && 0 <= q < m.ncols ::
          matrix.arr[p][q] == if p < i then Dot(a, b, p, q, ncols) else 0.0
      {
        for j := 0 to m.ncols
          invariant matrix.Valid() && matrix.nrows == nrows && matrix.ncols == m.ncols
          invariant forall p, q {:trigger matrix.arr[p][q]} | 0 <= p < nrows && 0 <= q < m.ncols ::
            matrix.arr[p][q] == if p < i || (p == i && q < j) then Dot(a, b, p, q, ncols) else 0.0
        {
          for k := 0 to m.nrows
            invariant matrix.Valid() && matrix.nrows == nrows && matrix.ncols == m.ncols
            invariant forall p, q {:trigger matrix.arr[p][q]} | 0 <= p < nrows && 0 <= q < m.ncols ::
              matrix.arr[p][q] ==
                if p < i || (p == i && q < j) then Dot(a, b, p, q, ncols)
                else if p == i && q == j then Dot(a, b, p, q, k)
                else 0.0
          {
            var o := matrix.Set(i, j, matrix.Get(i, j).value + Get(i, k).value * m.Get(k, j).value);
          }
        }
      }
      assert matrix.arr == MatMul(a, b).arr by {
        forall p | 0 <= p < nrows ensures matrix.arr[p] == MatMul(a, b).arr[p] {
        }
      }
      return Ok(matrix);
    }

    /** row_kmatmul(row, k) as Matrix.js runs it: the cells of the row times
        k, in a new one-row matrix. Matrix.js maps the flat array of cells
        its getRow hands over; Matrix.ts maps the one-element wrapper its
        getRow builds instead, which is not modelled. */
    static method RowKMatmul(row: Matrix, k: real) returns (r: Matrix)
      requires row.Valid() && row.nrows == 1
      ensures fresh(r) && r.Valid() && r.Value() == Scale(row.Value(), k)
    {
      var cells := row.arr[0];
      var scaled := seq(|cells|, j requires 0 <= j < |cells| => cells[j] * k);
      r := FromArray([scaled]);
      assert r.arr == Scale(row.Value(), k).arr by {
        assert r.arr[0] == Scale(row.Value(), k).arr[0];
      }
    }

    /** kmatmul(k) as Matrix.js has it: a copy whose rows are replaced one by
        one by row_kmatmul(getRow(i), k); the receiver is not changed. */
    method KMatmul(k: real) returns (r: Matrix)
      requires Valid()
      ensures fresh(r) && r.Valid() && r.Value() == Scale(Value(), k)
    {
      ghost var scaled := Scale(Value(), k);
      r := FromMatrix(this);
      for i := 0 to nrows
        invariant r.Valid() && r.nrows == nrows && r.ncols == ncols
        invariant forall p | 0 <= p < nrows :: r.arr[p] == if p < i then scaled.arr[p] else arr[p]
      {
        var row := r.GetRow(i);
        var scaledRow := RowKMatmul(row.value, k);
        assert scaledRow.arr[0] == scaled.arr[i];
        var o := r.SetRow(i, scaledRow);
        assert scaledRow.arr[0][..ncols] == scaled.arr[i];
      }
      assert r.arr == scaled.arr;
    }

    /** transpose(): cell (j, i) of a fresh ncols x nrows matrix is set to
        cell (i, j). */
    method Transpose() returns (t: Matrix)
      requires Valid()
      ensures fresh(t) && t.Valid() && t.Value() == Grids.Transpose(Value())
    {
      t := Zeros(ncols, nrows);
      for i := 0 to nrows
        invariant t.Valid() && t.nrows == ncols && t.ncols == nrows
        invariant forall p, q {:trigger t.arr[p][q]} | 0 <= p < ncols && 0 <= q < nrows ::
          t.arr[p][q] == if q < i then arr[q][p] else 0.0
      {
        for j := 0 to ncols
          invariant t.Valid() && t.nrows == ncols && t.ncols == nrows
          invariant forall p, q {:trigger t.arr[p][q]} | 0 <= p < ncols && 0 <= q < nrows ::
            t.arr[p][q] == if q < i || (q == i && p < j) then arr[q][p] else 0.0
        {
          var o := t.Set(j, i, Get(i, j).value);
        }
      }
      assert t.arr == Grids.Transpose(Value()).arr by {
        forall p | 0 <= p < ncols ensures t.arr[p] == Grids.Transpose(Value()).arr[p] {
        }
      }
    }

    /** T() is transpose(). */
    method T() returns (t: Matrix)
      requires Valid()
      ensures fresh(t) && t.Valid() && t.Value() == Grids.Transpose(Value())
    {
      t := Transpose();
    }

    /** abs(): a copy in which every cell is replaced by its absolute value. */
    method Abs() returns (r: Matrix)
      requires Valid()
      ensures fresh(r) && r.Valid() && r.Value() == Grids.Abs(Value())
    {
      ghost var target := Grids.Abs(Value());
      r := FromMatrix(this);
      for i := 0 to nrows
        invariant r.Valid() && r.nrows == nrows && r.ncols == ncols
        invariant forall p, q {:trigger r.arr[p][q]} | 0 <= p < nrows && 0 <= q < ncols ::
          r.arr[p][q] == if p < i then target.arr[p][q] else arr[p][q]
      {
        for j := 0 to ncols
          invariant r.Valid() && r.nrows == nrows && r.ncols == ncols
          invariant forall p, q {:trigger r.arr[p][q]} | 0 <= p < nrows && 0 <= q < ncols ::
            r.arr[p][q] == if p < i || (p == i && q < j) then target.arr[p][q] else arr[p][q]
        {
          var x := Get(i, j).value;
          var o := r.Set(i, j, if x < 0.0 then -x else x);
        }
      }
      assert r.arr == target.arr by {
        forall p | 0 <= p < nrows ensures r.arr[p] == target.arr[p] {
        }
      }
    }

    /** horzcat(M): the row counts must agree; a copy of this, then the
        columns of M appended one by one through getColumn and addColumn. */
    method Horzcat(m: Matrix) returns (r: Result<Matrix>)
      requires Valid() && m.Valid()
      ensures r.Err? <==> nrows != m.nrows
      ensures r.Err? ==> r.msg == HorzcatRows
      ensures r.Ok? ==> fresh(r.value) && r.value.Valid() && r.value.Value() == Grids.Horzcat(Value(), m.Value())
    {
      if nrows != m.nrows {
        return Err(HorzcatRows);
      }
      var matrix := FromMatrix(this);
      EmptyPrefixes(Value(), m.Value());
      for i := 0 to m.ncols
        invariant matrix.Valid() && matrix.Value() == Grids.Horzcat(Value(), LeftColumns(m.Value(), i))
      {
        var column := m.GetColumn(i);
        assert Column(column.value.Value(), 0) == column.value.Value();
        var o := matrix.AddColumn(column.value);
        HorzcatColumnStep(Value(), m.Value(), i);
      }
      WholePrefixes(m.Value());
      return Ok(matrix);
    }

    /** vertcat(M) as Matrix.ts has it: the column counts must agree; a copy
        of this, then the rows of M appended one by one through getRow and
        addRow. */
    method Vertcat(m: Matrix) returns (r: Result<Matrix>)
      requires Valid() && m.Valid()
      ensures r.Err? <==> ncols != m.ncols
      ensures r.Err? ==> r.msg == VertcatColumns
      ensures r.Ok? ==> fresh(r.value) && r.value.Valid() && r.value.Value() == Grids.Vertcat(Value(), m.Value())
    {
      if ncols != m.ncols {
        return Err(VertcatColumns);
      }
      var matrix := FromMatrix(this);
      EmptyPrefixes(Value(), m.Value());
      for i := 0 to m.nrows
        invariant matrix.Valid() && matrix.Value() == Grids.Vertcat(Value(), TopRows(m.Value(), i))
      {
        var row := m.GetRow(i);
        var o := matrix.AddRow(row.value.arr[0]);
        VertcatRowStep(Value(), m.Value(), i);
      }
      WholePrefixes(m.Value());
      return Ok(matrix);
    }

    /** submatrix(r0, r1, c0, c1): a (r1 - r0 + 1) x (c1 - c0 + 1) matrix
        filled row by row from get(i, j); the first get that fails ends it
        with that failure. */
    method Submatrix(starrow: int, endrow: int, startcol: int, endcol: int) returns (r: Result<Matrix>)
      requires Valid() && starrow <= endrow + 1 && startcol <= endcol + 1
      ensures r.Err? <==> Grids.Submatrix(Value(), starrow, endrow, startcol, endcol).Err?
      ensures r.Err? ==> r.msg == Grids.Submatrix(Value(), starrow, endrow, startcol, endcol).msg
      ensures r.Ok? ==> fresh(r.value) && r.value.Valid()
      ensures r.Ok? ==> r.value.Value() == Grids.Submatrix(Value(), starrow, endrow, startcol, endcol).value
    {
      ghost var spec := Grids.Submatrix(Value(), starrow, endrow, startcol, endcol);
      var rows := endrow - starrow + 1;
      var columns := endcol - startcol + 1;
      var matrix := Zeros(rows, columns);
      var rowi := 0;
      var i := starrow;
      while i <= endrow
        invariant starrow <= i <= endrow + 1 && rowi == i - starrow
        invariant matrix.Valid() && matrix.nrows == rows && matrix.ncols == columns
        invariant i > starrow && startcol <= endcol ==> 0 <= starrow && i - 1 < nrows && 0 <= startcol && endcol < ncols
        invariant forall p, q {:trigger matrix.arr[p][q]} | 0 <= p < rows && 0 <= q < columns ::
          matrix.arr[p][q] == if p < rowi then arr[starrow + p][startcol + q] else 0.0
      {
        var coli := 0;
        var j := startcol;
        while j <= endcol
          invariant startcol <= j <= endcol + 1 && coli == j - startcol
          invariant matrix.Valid() && matrix.nrows == rows && matrix.ncols == columns
          invariant j > startcol ==> 0 <= i < nrows && 0 <= startcol && j - 1 < ncols
          invariant forall p, q {:trigger matrix.arr[p][q]} | 0 <= p < rows && 0 <= q < columns ::
            matrix.arr[p][q] == if p < rowi || (p == rowi && q < coli) then arr[starrow + p][startcol + q] else 0.0
        {
          var v := Get(i, j);
          if v.Err? {
            return Err(v.msg);
          }
          var o := matrix.Set(rowi, coli, v.value);
          coli := coli + 1;
          j := j + 1;
        }
        rowi := rowi + 1;
        i := i + 1;
      }
      assert matrix.arr == spec.value.arr by {
        forall p | 0 <= p < rows ensures matrix.arr[p] == spec.value.arr[p] {
        }
      }
      return Ok(matrix);
    }

    /** The nested loop of det() that copies every row but row 0 and every
        column but colDet into a fresh (n-1) x (n-1) matrix; rowInner and
        columnInner track where the next cell goes. */
    method BuildInnerMatrix(colDet: nat) returns (innerMatrix: Matrix)
      requires Valid() && nrows == ncols && colDet < nrows
      ensures fresh(innerMatrix) && innerMatrix.Valid()
      ensures innerMatrix.Value() == Determinant.InnerMatrix(Value(), colDet)
    {
      var size := nrows;
      ghost var target := Determinant.InnerMatrix(Value(), colDet);
      innerMatrix := Zeros(size - 1, size - 1);
      var row := 1;
      var rowInner := 0;
      while row < size
        invariant 1 <= row <= size && rowInner == row - 1
        invariant innerMatrix.Valid() && innerMatrix.nrows == size - 1 && innerMatrix.ncols == size - 1
        invariant forall p, q {:trigger innerMatrix.arr[p][q]} | 0 <= p < size - 1 && 0 <= q < size - 1 ::
          innerMatrix.arr[p][q] == if p < rowInner then target.arr[p][q] else 0.0
      {
        var column := 0;
        var columnInner := 0;
        while column < size
          invariant 0 <= column <= size
          invariant columnInner == if column <= colDet then column else column - 1
          invariant innerMatrix.Valid() && innerMatrix.nrows == size - 1 && innerMatrix.ncols == size - 1
          invariant forall p, q {:trigger innerMatrix.arr[p][q]} | 0 <= p < size - 1 && 0 <= q < size - 1 ::
            innerMatrix.arr[p][q] ==
              if p < rowInner || (p == rowInner && q < columnInner) then target.arr[p][q] else 0.0
        {
          if column != colDet {
            var o := innerMatrix.Set(rowInner, columnInner, Get(row, column).value);
            columnInner := columnInner + 1;
          }
          column := column + 1;
        }
        rowInner := rowInner + 1;
        row := row + 1;
      }
      assert innerMatrix.arr == target.arr by {
        forall p | 0 <= p < size - 1 ensures innerMatrix.arr[p] == target.arr[p] {
        }
      }
    }

    /** det(): the matrix must be square; the closed forms for 1 x 1 and
        2 x 2, and otherwise the expansion along row 0. */
    method Det() returns (r: Result<real>)
      requires Valid()
      ensures r.Err? <==> nrows != ncols
      ensures r.Err? ==> r.msg == NotSquare
      ensures r.Ok? ==> r.value == Determinant.Det(Value())
      decreases nrows, 2
    {
      if nrows != ncols {
        return Err(NotSquare);
      }
      if nrows == 1 {
        return Ok(Get(0, 0).value);
      } else if nrows == 2 {
        return Ok(Get(0, 0).value * Get(1, 1).value - Get(1, 0).value * Get(0, 1).value);
      }
      var sums := ExpandAlongRow0();
      Determinant.DetIsSumOfTerms(Value());
      return Ok(sums);
    }

    /** The column loop of det(): the signed terms are accumulated in `sums`
        with the running sign `retInDet`. */
    method ExpandAlongRow0() returns (sums: real)
      requires Valid() && nrows == ncols
      ensures sums == Determinant.Sum(Determinant.Terms(Value())[..nrows])
      decreases nrows, 1
    {
      ghost var m := Value();
      sums := 0.0;
      var retInDet := 1.0;
      var size := nrows;
      Determinant.SignStep(0);
      for colDet := 0 to size
        invariant sums == Determinant.Sum(Determinant.Terms(m)[..colDet])
        invariant retInDet == Determinant.Sign(colDet)
      {
        var innerMatrix := BuildInnerMatrix(colDet);
        var x := Get(0, colDet).value;
        var det := innerMatrix.Det();
        var innerDet := det.value;
        Determinant.ColumnStep(m, colDet, sums, retInDet, x, innerDet);
        sums := sums + retInDet * x * innerDet;
        retInDet := retInDet * -1.0;
      }
    }

    /** minor(i, j): the determinant of a copy with row i and column j
        deleted; deleteRow checks i first, deleteColumn then checks j, and
        det finally demands that what is left be square. */
    method Minor(i: int, j: int) returns (r: Result<real>)
      requires Valid()
      ensures !(0 <= i < nrows) ==> r == Err(InvalidRow)
      ensures 0 <= i < nrows && !(0 <= j < ncols) ==> r == Err(InvalidColumn)
      ensures 0 <= i < nrows && 0 <= j < ncols && nrows != ncols ==> r == Err(NotSquare)
      ensures 0 <= i < nrows && 0 <= j < ncols && nrows == ncols ==> r == Ok(Determinant.Minor(Value(), i, j))
    {
      var matrix := FromMatrix(this);
      var o := matrix.DeleteRow(i);
      if o.Fail? {
        return Err(o.msg);
      }
      o := matrix.DeleteColumn(j);
      if o.Fail? {
        return Err(o.msg);
      }
      r := matrix.Det();
    }

    /** cofactor(i, j): the matrix must be square; then (-1)^(i+j) times
        minor(i, j). */
    method Cofactor(i: int, j: int) returns (r: Result<real>)
      requires Valid()
      ensures nrows != ncols ==> r == Err(NotSquare)
      ensures nrows == ncols && !(0 <= i < nrows) ==> r == Err(InvalidRow)
      ensures nrows == ncols && 0 <= i < nrows && !(0 <= j < ncols) ==> r == Err(InvalidColumn)
      ensures nrows == ncols && 0 <= i < nrows && 0 <= j < ncols ==> r == Ok(Determinant.Cofactor(Value(), i, j))
    {
      if !IsSquare() {
        return Err(NotSquare);
      }
      var minor := Minor(i, j);
      if minor.Err? {
        return minor;
      }
      return Ok(Determinant.Sign(i + j) * minor.value);
    }

    /** cofactorMatrix(): zeros of the receiver's shape whose row i is
        replaced by the row of cofactor(i, j). A matrix without rows or
        without columns never reaches cofactor and comes back as zeros; any
        other matrix that is not square fails in the first cofactor. */
    method CofactorMatrix() returns (r: Result<Matrix>)
      requires Valid()
      ensures r.Err? <==> nrows != ncols && nrows != 0 && ncols != 0
      ensures r.Err? ==> r.msg == NotSquare
      ensures r.Ok? ==> fresh(r.value) && r.value.Valid()
      ensures r.Ok? && nrows == ncols ==> r.value.Value() == Determinant.CofactorMatrix(Value())
      ensures r.Ok? && nrows != ncols ==> r.value.Value() == Grids.Zeros(nrows, ncols)
    {
      ghost var expected := if nrows == ncols then Determinant.CofactorMatrix(Value()) else Grids.Zeros(nrows, ncols);
      var matrix := Zeros(nrows, ncols);
      for i := 0 to nrows
        invariant matrix.Valid() && matrix.nrows == nrows && matrix.ncols == ncols
        invariant i > 0 && ncols > 0 ==> nrows == ncols
        invariant forall p | 0 <= p < nrows :: matrix.arr[p] == if p < i then expected.arr[p] else Grids.Zeros(nrows, ncols).arr[p]
      {
        var row: seq<real> := [];
        ghost var before := matrix.Value();
        for j := 0 to ncols
          invariant matrix.Value() == before
          invariant |row| == j
          invariant j > 0 ==> nrows == ncols && forall q | 0 <= q < j :: row[q] == Determinant.Cofactor(Value(), i, q)
        {
          var c := Cofactor(i, j);
          if c.Err? {
            return Err(c.msg);
          }
          row := row + [c.value];
        }
        assert row == expected.arr[i];
        var wrapped := FromArray([row]);
        var o := matrix.SetRow(i, wrapped);
        assert row[..ncols] + Grids.Zeros(nrows, ncols).arr[i][ncols..] == row;
      }
      assert matrix.arr == expected.arr;
      return Ok(matrix);
    }

    /** adjoint() is cofactorMatrix().T(). */
    method Adjoint() returns (r: Result<Matrix>)
      requires Valid()
      ensures r.Err? <==> nrows != ncols && nrows != 0 && ncols != 0
      ensures r.Err? ==> r.msg == NotSquare
      ensures r.Ok? ==> fresh(r.value) && r.value.Valid()
      ensures r.Ok? && nrows == ncols ==> r.value.Value() == Determinant.Adjoint(Value())
      ensures r.Ok? && nrows != ncols ==> r.value.Value() == Grids.Zeros(ncols, nrows)
    {
      var cofactors := CofactorMatrix();
      if cofactors.Err? {
        return Err(cofactors.msg);
      }
      var t := cofactors.value.T();
      assert nrows != ncols ==> t.arr == Grids.Zeros(ncols, nrows).arr;
      return Ok(t);
    }

    /** inv(): the matrix must be square, then its determinant must not be
        exactly 0; the result is the adjoint times 1/det. For a 1 x 1 matrix
        this is [[0]], because the cofactor of a 1 x 1 matrix is the
        determinant of the empty matrix (Determinant.InverseAsWrittenOneByOne);
        for every other size it is the inverse. */
    method Inv() returns (r: Result<Matrix>)
      requires Valid()
      ensures r.Err? <==> nrows != ncols || Determinant.Det(Value()) == 0.0
      ensures nrows != ncols ==> r == Err(MustBeSquare)
      ensures nrows == ncols && Determinant.Det(Value()) == 0.0 ==> r == Err(Singular)
      ensures r.Ok? ==> fresh(r.value) && r.value.Valid()
      ensures r.Ok? ==> nrows == ncols && Determinant.Det(Value()) != 0.0 && r.value.Value() == Determinant.InverseAsWritten(Value())
      ensures r.Ok? && nrows != 1 ==> r.value.Value() == Determinant.Inverse(Value())
    {
      if !IsSquare() {
        return Err(MustBeSquare);
      }
      var det := Det();
      if det.value == 0.0 {
        return Err(Singular);
      }
      var adjoint := Adjoint();
      var inverse := adjoint.value.KMatmul(1.0 / det.value);
      if nrows != 1 {
        Determinant.InverseAsWrittenAgrees(Value());
      }
      return Ok(inverse);
    }

    /** LU(): the matrix must be square; Doolittle's scheme without pivoting
        fills row i of U and then column i of L for i = 0, 1, ... */
    method LU() returns (r: Result<(Matrix, Matrix)>)
      requires Valid()
      ensures r.Err? <==> nrows != ncols
      ensures r.Err? ==> r.msg == MustBeSquare
      ensures r.Ok? ==> fresh(r.value.0) && fresh(r.value.1) && r.value.0.Valid() && r.value.1.Valid()
      ensures r.Ok? ==> r.value.0.Value() == Doolittle.Lower(Value()) && r.value.1.Value() == Doolittle.Upper(Value())
    {
      if !IsSquare() {
        return Err(MustBeSquare);
      }
      ghost var a := Value();
      var size := nrows;
      var L := Zeros(size, size);
      var U := Zeros(size, size);
      for i := 0 to size
        invariant L.Valid() && L.nrows == size && L.ncols == size
        invariant U.Valid() && U.nrows == size && U.ncols == size
        invariant L != U
        invariant forall p, q {:trigger U.arr[p][q]} | 0 <= p < size && 0 <= q < size ::
          U.arr[p][q] == if p < i then Doolittle.UCell(a, p, q) else 0.0
        invariant forall p, q {:trigger L.arr[p][q]} | 0 <= p < size && 0 <= q < size ::
          L.arr[p][q] == if q < i then Doolittle.LCell(a, p, q) else 0.0
      {
        FillUpperRow(L, U, i);
        FillLowerColumn(L, U, i);
      }
      assert L.arr == Doolittle.Lower(a).arr by {
        forall p | 0 <= p < size ensures L.arr[p] == Doolittle.Lower(a).arr[p] {
        }
      }
      assert U.arr == Doolittle.Upper(a).arr by {
        forall p | 0 <= p < size ensures U.arr[p] == Doolittle.Upper(a).arr[p] {
        }
      }
      return Ok((L, U));
    }

    /** The first inner loop of LU() for row i: U(i, k) for k = i, ..., n-1 is
        a(i, k) minus the sum over j < i of L(i, j) * U(j, k). */
    method FillUpperRow(L: Matrix, U: Matrix, i: nat)
      requires Valid() && nrows == ncols && i < nrows
      requires L.Valid() && L.nrows == nrows && L.ncols == nrows
      requires U.Valid() && U.nrows == nrows && U.ncols == nrows && U != L && U != this
      requires forall p, q {:trigger U.arr[p][q]} | 0 <= p < nrows && 0 <= q < nrows ::
        U.arr[p][q] == if p < i then Doolittle.UCell(Value(), p, q) else 0.0
      requires forall p, q {:trigger L.arr[p][q]} | 0 <= p < nrows && 0 <= q < nrows ::
        L.arr[p][q] == if q < i then Doolittle.LCell(Value(), p, q) else 0.0
      modifies U
      ensures U.Valid() && U.nrows == nrows && U.ncols == nrows
      ensures forall p, q {:trigger U.arr[p][q]} | 0 <= p < nrows && 0 <= q < nrows ::
        U.arr[p][q] == if p <= i then Doolittle.UCell(Value(), p, q) else 0.0
    {
      ghost var a := Value();
      var size := nrows;
      for k := i to size
        invariant U.Valid() && U.nrows == size && U.ncols == size
        invariant forall p, q {:trigger U.arr[p][q]} | 0 <= p < size && 0 <= q < size ::
          U.arr[p][q] == if p < i || (p == i && q < k) then Doolittle.UCell(a, p, q) else 0.0
      {
        var sum := 0.0;
        for j := 0 to i
          invariant sum == Doolittle.PartialSum(a, i, k, j)
        {
          var lij := L.Get(i, j).value;
          var ujk := U.Get(j, k).value;
          sum := sum + lij * ujk;
        }
        var aik := Get(i, k).value;
        var o := U.Set(i, k, aik - sum);
      }
    }

    /** The second inner loop of LU() for column i: L(i, i) is 1, and L(k, i)
        for k > i is (a(k, i) minus the sum over j < i of L(k, j) * U(j, i))
        divided by the pivot U(i, i), through Doolittle.Div. */
    method FillLowerColumn(L: Matrix, U: Matrix, i: nat)
      requires Valid() && nrows == ncols && i < nrows
      requires L.Valid() && L.nrows == nrows && L.ncols == nrows && L != this
      requires U.Valid() && U.nrows == nrows && U.ncols == nrows && U != L
      requires forall p, q {:trigger U.arr[p][q]} | 0 <= p < nrows && 0 <= q < nrows ::
        U.arr[p][q] == if p <= i then Doolittle.UCell(Value(), p, q) else 0.0
      requires forall p, q {:trigger L.arr[p][q]} | 0 <= p < nrows && 0 <= q < nrows ::
        L.arr[p][q] == if q < i then Doolittle.LCell(Value(), p, q) else 0.0
      modifies L
      ensures L.Valid() && L.nrows == nrows && L.ncols == nrows
      ensures forall p, q {:trigger L.arr[p][q]} | 0 <= p < nrows && 0 <= q < nrows ::
        L.arr[p][q] == if q <= i then Doolittle.LCell(Value(), p, q) else 0.0
    {
      ghost var a := Value();
      var size := nrows;
      for k := i to size
        invariant L.Valid() && L.nrows == size && L.ncols == size
        invariant forall p, q {:trigger L.arr[p][q]} | 0 <= p < size && 0 <= q < size ::
          L.arr[p][q] == if q < i || (q == i && p < k) then Doolittle.LCell(a, p, q) else 0.0
      {
        if i == k {
          var o := L.Set(i, i, 1.0);
        } else {
          var sum := 0.0;
          for j := 0 to i
            invariant sum == Doolittle.PartialSum(a, k, i, j)
          {
            var lkj := L.Get(k, j).value;
            var uji := U.Get(j, i).value;
            sum := sum + lkj * uji;
          }
          var aki := Get(k, i).value;
          var uii := U.Get(i, i).value;
          var o := L.Set(k, i, Doolittle.Div(aki - sum, uii));
        }
      }
    }
  }
}
