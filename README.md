# Matrix: a verified model of the matrix package's `Matrix` class

The package's `Matrix` class holds a dense row-major grid in three fields:
`arr` (the rows), `nrows` and `ncols`. Its methods read and write cells with
bounds checks, build matrices (`zeros`, `ones`, `eye`, `fromArray`,
`fromMatrix`), change the shape in place (`deleteRow`, `deleteColumn`,
`addRow`, `addColumn`), compute products, transposes, blocks and
concatenations, and implement a small linear-algebra kernel: the
determinant by Laplace expansion along row 0, minors and cofactors, the
cofactor matrix and adjoint, the adjugate inverse, and Doolittle's LU
decomposition without pivoting. Every failure is an `assert` with a fixed
message.

The model has six modules:

- `Results`: `Result<T>` (`Ok(value)` or `Err(msg)`) and `Outcome` (`Pass`
  or `Fail(msg)`) for operations that fail, and the assert messages of the
  class as constants.
- `Grids`: a matrix as a value, `Mat(nrows, ncols, arr)` with the
  well-formedness predicate `Wf` (`|arr| == nrows`, every row of length
  `ncols`), and the structural operations as functions (set a cell, fill,
  identity, transpose, scalar product, product, delete a row or column,
  row and column, concatenations, blocks) with the lemmas that relate them
  (transposing twice, the identity as unit of the product, inverse
  scaling, splitting a concatenation back into its parts, set-after-get).
- `Determinant`: the determinant exactly as the class computes it (closed
  forms for 1 x 1 and 2 x 2, otherwise the alternating sum over row 0 of
  the cell times the determinant of the inner matrix), minors, cofactors,
  the cofactor matrix, the adjoint and the inverse, and the proofs that
  relate them.
- `Doolittle`: the cells of `L` and `U` of the LU decomposition, with the
  proof that `L` is unit lower triangular, `U` upper triangular, and
  `L x U` gives back the matrix whenever every pivot is non-zero.
- `MatrixClass`: the class `Matrix` with the fields `arr`, `nrows`, `ncols`
  and one method per method of the source, written with the source's
  loops. Each method's postcondition states the new value of the
  receiver, or the value of the fresh matrix it returns, as a function of
  `Grids`, `Determinant` or `Doolittle` applied to the old value; errors are
  `Err`/`Fail` results carrying the source's message.
- `Fixtures`: the integer matrices of the package's tests, with the
  product, scalar product, cofactor matrix and determinant the model
  computes for them, the singular matrix's zero determinant and row 0 of
  the 4 x 4 inverse.

Cells are `real`, an exact stand-in for JavaScript numbers; the tests
compare with a tolerance where the model compares exactly. The class has
two versions, `package/matrix/Matrix.ts` and the compiled
`package/matrix/Matrix.js`, which differ in `getRow`: the TypeScript one
wraps the row as a 1 x n matrix, the JavaScript one hands out the live row
itself. Each version breaks a different caller (`deleteColumn` and
`kmatmul` in the TypeScript file, `vertcat` through `addRow` in the
JavaScript file). The model gives every method the value semantics its
callers and the tests need. Where the two files differ, the method's
comment names the file whose behaviour it follows. No row is ever shared
between two matrices.

Three consequences of the code that the model keeps:

- The expansion gives 73 as the determinant of `[[5,9,2],[1,8,5],[3,6,4]]`
  (`Fixtures.DetOfA`), as the cofactor test's expected cofactors imply
  (5 x 2 + 9 x 11 + 2 x (-18)).
- `inv` rejects a matrix as singular only when its determinant is exactly
  0 (`!== 0`), not below a threshold.
- A 0 x 0 matrix skips the expansion loop and has determinant 0.

## Model

| member | source | states |
|---|---|---|
| Grids.SetCell | package/matrix/Matrix.ts:183-188 | set as a value: same shape; which cell changes is stated by Grids.GetAfterSet |
| Grids.MatMul | package/matrix/Matrix.ts:103-125 | the product has shape [a.nrows, b.ncols]; cell (i, j) is Dot over all k, the sum of a(i, k) b(k, j) accumulated from k = 0 as the loop does |
| Grids.Abs | package/matrix/Matrix.ts:383-393 | same shape, and every cell is non-negative and equal to the original cell or its negation |
| Grids.IndexError | package/matrix/Matrix.ts:190-195 | an out-of-range row is reported as "Invalid row index" before the column is looked at; a valid row with a bad column gives "Invalid column index" |
| Grids.Fill | package/matrix/Matrix.ts:45-56 | a rows x columns matrix with every cell equal to the given value |
| Grids.Zeros | package/matrix/Matrix.js:26-35 | a rows x columns matrix with every cell 0 |
| Grids.Eye | package/matrix/Matrix.ts:197-209 | an n x n matrix with 1 on the diagonal and 0 everywhere else |
| Grids.Transpose | package/matrix/Matrix.ts:368-378 | shape [ncols, nrows], and cell (j, i) of the result is cell (i, j) of the matrix |
| Grids.Scale | package/matrix/Matrix.ts:132-145 | same shape, every cell multiplied by k |
| Grids.DeleteRow | package/matrix/Matrix.js:235-239 | one row fewer, same column count; rows before i keep their place and rows after i move up by one |
| Grids.DeleteColumn | package/matrix/Matrix.js:240-250 | one column fewer, same row count; each row loses element j and keeps the order of the rest |
| Grids.Row | package/matrix/Matrix.ts:147-150 | row i as a 1 x ncols matrix |
| Grids.Column | package/matrix/Matrix.js:131-139 | column j as an nrows x 1 matrix |
| Grids.Horzcat | package/matrix/Matrix.js:337-346 | shape nrows x (ncols + M.ncols); the left block is the first matrix and the right block the second |
| Grids.Vertcat | package/matrix/Matrix.ts:423-434 | shape (nrows + M.nrows) x ncols; the top rows are the first matrix and the bottom rows the second |
| Grids.Submatrix | package/matrix/Matrix.js:277-292 | succeeds exactly when the block is empty or every corner index passes get's bounds check; then the shape is (r1-r0+1) x (c1-c0+1) and cell (i, j) is cell (r0+i, c0+j) |
| Grids.TransposeTwice | package/matrix/Matrix.ts:368-381 | transposing twice gives back the matrix |
| Grids.DotEyeLeft | package/matrix/Matrix.ts:103-125 | a partial row-by-column sum with the identity on the left picks out one cell of the right operand |
| Grids.DotEyeRight | package/matrix/Matrix.ts:103-125 | a partial row-by-column sum with the identity on the right picks out one cell of the left operand |
| Grids.MatMulEye | package/matrix/Matrix.ts:103-125 | the identity of the right size is a left and a right unit of matmul |
| Grids.ScaleInverse | package/matrix/Matrix.ts:132-145 | scaling by k and then by 1/k gives back the matrix when k is non-zero |
| Grids.DotScaleRight | package/matrix/Matrix.ts:103-145 | scaling the right operand scales every partial row-by-column sum |
| Grids.MatMulScaleRight | package/matrix/Matrix.ts:103-145 | A x (B times k) equals (A x B) times k |
| Grids.HorzcatSplit | package/matrix/Matrix.js:277-292 | the two blocks of horzcat(A, B) taken back out with submatrix are A and B |
| Grids.VertcatSplit | package/matrix/Matrix.js:277-292 | the two blocks of vertcat(A, B) taken back out with submatrix are A and B |
| Grids.SubmatrixWhole | package/matrix/Matrix.js:277-292 | the submatrix spanning every row and column is the matrix itself |
| Grids.GetAfterSet | package/matrix/Matrix.ts:183-195 | after set(row, column, v), get returns v at that cell and the old value at every other cell |
| Grids.SetOfGet | package/matrix/Matrix.ts:183-195 | writing back the value get returns changes nothing, and writing the same value twice equals writing it once |
| Grids.SetRowOfGetRow | package/matrix/Matrix.ts:147-160 | a full row copy replaces row i with the source row and leaves every other row; writing back getRow(i) changes nothing |
| Grids.SetColumnOfGetColumn | package/matrix/Matrix.js:131-147 | a full column copy replaces column j with the source column and leaves every other cell; writing back getColumn(j) changes nothing |
| Grids.AbsIdempotent | package/matrix/Matrix.ts:383-393 | abs is idempotent and every cell of its result is non-negative |
| Grids.HorzcatColumnStep | package/matrix/Matrix.js:337-346 | appending column k of B to A next to B's first k columns gives A next to B's first k+1 columns |
| Grids.VertcatRowStep | package/matrix/Matrix.ts:423-434 | appending row k of B below A over B's first k rows gives A over B's first k+1 rows |
| Grids.OverwriteRowStep | package/matrix/Matrix.js:123-130 | copying k+1 cells of a row is copying k cells and then setting cell k |
| Grids.OverwriteColumnStep | package/matrix/Matrix.js:140-147 | copying k+1 cells of a column is copying k cells and then setting cell k |
| Determinant.InnerMatrix | package/matrix/Matrix.ts:226-238 | the inner matrix for column c is (n-1) x (n-1), and its cell (i, j) is cell (i+1, j) of the matrix, or (i+1, j+1) from column c on |
| Determinant.InnerMatrixIsMinorMatrix | package/matrix/Matrix.js:184-197 | the inner matrix det builds for column c is the matrix minor(0, c) builds by deleteRow(0) then deleteColumn(c) |
| Determinant.MinorMatrixCells | package/matrix/Matrix.ts:304-311 | cell (r, c) of the matrix minor(i, j) builds is cell (r or r+1, c or c+1) of the matrix, skipping row i and column j |
| Determinant.DetExpandsAlongRow0 | package/matrix/Matrix.ts:215-244 | for n >= 2 the determinant is the sum over c of (-1)^c times cell (0, c) times the determinant of the inner matrix; for n = 2 the closed form agrees with that expansion |
| Determinant.DetIsSumOfTerms | package/matrix/Matrix.ts:222-242 | what the column loop accumulates after all n columns is the determinant, for every n except 1 (a 0 x 0 matrix gives 0) |
| Determinant.ColumnStep | package/matrix/Matrix.ts:239-240 | one pass of the column loop adds the next term to the running sum and flips the sign |
| Determinant.SignStep | package/matrix/Matrix.ts:224-240 | the sign starts at 1 and each column multiplies it by -1 |
| Determinant.DetOfEmpty | package/matrix/Matrix.ts:221-243 | a 0 x 0 matrix has determinant 0 |
| Determinant.DetThree | package/matrix/Matrix.ts:215-244 | a 3 x 3 determinant is a(ei - hf) - b(di - gf) + c(dh - ge) in the code's order of factors |
| Determinant.Det | package/matrix/Matrix.ts:215-244 | det as the code computes it: the cell for 1 x 1, a d - c b for 2 x 2, else the alternating row-0 sum; its properties are stated by DetExpandsAlongRow0, DetIsCofactorExpansion, DetThree and DetOfEmpty |
| Determinant.Minor | package/matrix/Matrix.ts:304-311 | the det of the matrix with row i and column j deleted; its cells are stated by MinorMatrixCells |
| Determinant.Cofactor | package/matrix/Matrix.ts:313-318 | (-1)^(i+j) times minor(i, j); DetIsCofactorExpansion states its relation to det |
| Determinant.DetOfTransposeSmall | package/matrix/Matrix.ts:215-244 | det(A) = det(transpose(A)) for every square matrix up to 3 x 3, with transpose as at package/matrix/Matrix.ts:368-378 |
| Determinant.InnerDetsOfThree | package/matrix/Matrix.ts:219-239 | the three inner matrices of a 3 x 3 matrix go through the 2 x 2 closed form: ei - hf, di - gf and dh - ge |
| Determinant.CofactorMatrix | package/matrix/Matrix.ts:320-333 | same shape as the matrix, and cell (i, j) is cofactor(i, j) |
| Determinant.Adjoint | package/matrix/Matrix.ts:356-358 | cell (i, j) of the adjoint is cofactor(j, i): the transpose of the cofactor matrix |
| Determinant.TermsAreCofactorTerms | package/matrix/Matrix.ts:226-241 | the terms the determinant loop adds are cell (0, c) times cofactor(0, c) |
| Determinant.DetIsCofactorExpansion | package/matrix/Matrix.ts:304-318 | for n >= 2, det equals the sum over c of cell (0, c) times cofactor(0, c) |
| Determinant.CofactorOfOneByOne | package/matrix/Matrix.ts:304-318 | the cofactor of a 1 x 1 matrix is the determinant of the empty matrix, 0 |
| Determinant.InverseAsWrittenOneByOne | package/matrix/Matrix.ts:356-366 | inv as written sends [[a]] with a != 0 to [[0]], which is not an inverse of [[a]] |
| Determinant.Adjugate | package/matrix/Matrix.ts:356-366 | the adjugate is the adjoint for every size except 1 x 1, where it is [[1]] |
| Determinant.AdjugateOverCells | package/matrix/Matrix.ts:360-366 | cell (i, j) of the adjugate times 1/d is cofactor(j, i)/d, or 1/d for a 1 x 1 matrix |
| Determinant.InverseCells | package/matrix/Matrix.ts:360-366 | cell (i, j) of the corrected inverse is cofactor(j, i)/det, or 1/det for a 1 x 1 matrix |
| Determinant.InverseAsWritten | package/matrix/Matrix.ts:360-366 | inv as the code has it: the adjoint times 1/det, a square matrix of the same size |
| Determinant.AdjointOverCells | package/matrix/Matrix.ts:356-366 | cell (i, j) of the adjoint times 1/d is cofactor(j, i)/d |
| Determinant.InverseAsWrittenCells | package/matrix/Matrix.ts:360-366 | cell (i, j) of inv as written is cofactor(j, i)/det for every size, 1 x 1 included |
| Determinant.InverseAsWrittenAgrees | package/matrix/Matrix.ts:356-366 | for every size except 1 x 1, inv as written equals the corrected inverse |
| Determinant.Inverse | package/matrix/Matrix.ts:360-366 | the corrected inverse: the adjugate times 1/det, a square matrix of the same size; its cells are given by Determinant.InverseCells |
| Determinant.AdjugateIdentityOne | package/matrix/Matrix.ts:356-366 | for 1 x 1 matrices, A x adj(A) = det(A) times I |
| Determinant.AdjugateOfTwoByTwo | package/matrix/Matrix.ts:356-358 | the adjugate of [[a, b], [c, d]] is [[d, -b], [-c, a]] |
| Determinant.AdjugateIdentityTwo | package/matrix/Matrix.ts:356-366 | for 2 x 2 matrices, A x adj(A) = det(A) times I |
| Determinant.RightInverseOver | package/matrix/Matrix.ts:360-366 | whenever A x adj(A) = d times I with d != 0, A times the adjugate scaled by 1/d is the identity |
| Determinant.InverseIsRightInverseSmall | package/matrix/Matrix.ts:360-366 | for 1 x 1 and 2 x 2 matrices with non-zero determinant, A x inv(A) is the identity |
| Doolittle.Div | package/matrix/Matrix.ts:276 | the quotient times a non-zero divisor gives back the dividend |
| Doolittle.UCell | package/matrix/Matrix.ts:256-263 | U(i, k): A(i, k) minus the accumulated sum for i <= k, 0 below the diagonal; stated by Doolittle.CellEquations and Doolittle.Triangular |
| Doolittle.LCell | package/matrix/Matrix.ts:266-277 | L(k, i): 1 on the diagonal, 0 above, the accumulated difference over U(i, i) below; stated by Doolittle.CellEquations and Doolittle.Triangular |
| Doolittle.Lower | package/matrix/Matrix.ts:266-277 | L is n x n and cell (k, i) is the value LU stores there |
| Doolittle.Upper | package/matrix/Matrix.ts:256-263 | U is n x n and cell (i, k) is the value LU stores there |
| Doolittle.Triangular | package/matrix/Matrix.ts:246-282 | L has 1 on its diagonal and 0 above it; U has 0 below its diagonal |
| Doolittle.CellEquations | package/matrix/Matrix.ts:256-277 | U(i, k) = A(i, k) - the sum over j < i of L(i, j) U(j, k), and L(k, i) U(i, i) = A(k, i) - the sum over j < i of L(k, j) U(j, i) when U(i, i) != 0 |
| Doolittle.DotIsPartialSum | package/matrix/Matrix.ts:256-277 | the first n terms of row r of L times column c of U are the running sum LU accumulates |
| Doolittle.DotTail | package/matrix/Matrix.ts:246-282 | the terms of that sum past min(r, c) are 0, because L and U are triangular |
| Doolittle.ProductCell | package/matrix/Matrix.ts:246-282 | with every pivot non-zero, cell (r, c) of L x U is cell (r, c) of the matrix |
| Doolittle.Product | package/matrix/Matrix.ts:246-282 | with every pivot non-zero, L x U is the matrix |
| MatrixClass.Matrix.constructor | package/matrix/Matrix.ts:8-12 | a new matrix is 0 x 0 with no rows |
| MatrixClass.Matrix.IsSquare | package/matrix/Matrix.ts:14-16 | true exactly when nrows equals ncols |
| MatrixClass.Matrix.Size | package/matrix/Matrix.ts:211-213 | [nrows, ncols] |
| MatrixClass.Matrix.Get | package/matrix/Matrix.ts:190-195 | the cell when both indices are in range, otherwise the row or column error |
| MatrixClass.Matrix.Set | package/matrix/Matrix.ts:183-188 | in range: exactly that one cell takes the new value, shape and every other cell unchanged; out of range: the error and no change |
| MatrixClass.Matrix.Zeros | package/matrix/Matrix.js:26-35 | a fresh rows x columns matrix of zeros |
| MatrixClass.Matrix.Ones | package/matrix/Matrix.ts:45-56 | a fresh rows x columns matrix of ones |
| MatrixClass.Matrix.FromArray | package/matrix/Matrix.js:47-58 | a fresh matrix holding the given rows, with nrows the number of rows and ncols the length of the first row (1 for no rows) |
| MatrixClass.Matrix.FromMatrix | package/matrix/Matrix.js:59-72 | a fresh matrix with the same shape and cells, sharing nothing |
| MatrixClass.Matrix.Eye | package/matrix/Matrix.ts:197-209 | fails with "Param argument must be a positive number" when size <= 0, else the fresh identity of that size |
| MatrixClass.Matrix.GetRow | package/matrix/Matrix.ts:147-150 | fails for a bad index, else a fresh 1 x ncols copy of row i |
| MatrixClass.Matrix.SetRow | package/matrix/Matrix.js:123-130 | fails for a bad index with no change; else copies the source's first row into row i cell by cell, and reports the failed get when the source row is too short, after copying the cells before it |
| MatrixClass.Matrix.GetColumn | package/matrix/Matrix.js:131-139 | fails for a bad index, else a fresh nrows x 1 copy of column j |
| MatrixClass.Matrix.SetColumn | package/matrix/Matrix.js:140-147 | fails for a bad index with no change; else copies the source's first column into column j cell by cell, and reports the failed get when the source column is too short, after copying the cells before it |
| MatrixClass.Matrix.DeleteRow | package/matrix/Matrix.js:235-239 | fails with "Invalid row index" and no change unless 0 <= i < nrows; else the new value is DeleteRow of the old one |
| MatrixClass.Matrix.DeleteColumn | package/matrix/Matrix.js:240-250 | fails with "Invalid column index" and no change unless 0 <= j < ncols; else the new value is DeleteColumn of the old one |
| MatrixClass.Matrix.AddRow | package/matrix/Matrix.ts:395-399 | fails with the row-length message and no change unless the row has ncols cells; else the row is appended below |
| MatrixClass.Matrix.AddColumn | package/matrix/Matrix.js:329-336 | fails with the column-length message unless the column has nrows rows, and with get's column error when it has rows but no column; else column 0 of the argument is appended on the right; on failure nothing changes |
| MatrixClass.Matrix.Matmul | package/matrix/Matrix.ts:103-125 | fails with "Invalid matrices dimensions" exactly when ncols != m.nrows; else a fresh [nrows, m.ncols] matrix whose cell (i, j) is the sum over k of this(i, k) m(k, j) |
| MatrixClass.Matrix.RowKMatmul | package/matrix/Matrix.js:104-107 | a fresh one-row matrix with every cell of the row times k |
| MatrixClass.Matrix.KMatmul | package/matrix/Matrix.js:108-118 | a fresh matrix of the same shape with every cell times k; the receiver is unchanged |
| MatrixClass.Matrix.Transpose | package/matrix/Matrix.ts:368-377 | a fresh matrix that is the transpose |
| MatrixClass.Matrix.T | package/matrix/Matrix.ts:379-381 | the same result as transpose |
| MatrixClass.Matrix.Abs | package/matrix/Matrix.ts:383-393 | a fresh matrix of the absolute values of the cells |
| MatrixClass.Matrix.Horzcat | package/matrix/Matrix.js:337-346 | fails exactly when the row counts differ; else a fresh matrix holding this and M side by side; neither operand changes |
| MatrixClass.Matrix.Vertcat | package/matrix/Matrix.ts:423-434 | fails exactly when the column counts differ; else a fresh matrix holding this above M; neither operand changes |
| MatrixClass.Matrix.Submatrix | package/matrix/Matrix.js:277-292 | fails exactly when a corner index fails get's bounds check, with get's message; else the fresh block |
| MatrixClass.Matrix.BuildInnerMatrix | package/matrix/Matrix.ts:228-238 | the fresh matrix the loops fill for column c is the inner matrix for c |
| MatrixClass.Matrix.Det | package/matrix/Matrix.ts:215-244 | fails with "Matrix is not square" exactly when nrows != ncols; else the determinant |
| MatrixClass.Matrix.ExpandAlongRow0 | package/matrix/Matrix.ts:222-242 | the column loop with its running sums and alternating retInDet returns the sum of all n terms of the expansion |
| MatrixClass.Matrix.Minor | package/matrix/Matrix.ts:304-311 | deleteRow's error for a bad row, deleteColumn's for a bad column, det's for a non-square matrix, else the minor; the receiver is untouched |
| MatrixClass.Matrix.Cofactor | package/matrix/Matrix.ts:313-318 | "Matrix is not square" first, then minor's errors, else (-1)^(i+j) times the minor |
| MatrixClass.Matrix.CofactorMatrix | package/matrix/Matrix.ts:320-333 | fails with "Matrix is not square" exactly when the shape is non-square with both sizes non-zero; a square matrix gives its cofactor matrix |
| MatrixClass.Matrix.Adjoint | package/matrix/Matrix.ts:356-358 | cofactorMatrix's error, else the transpose of the cofactor matrix |
| MatrixClass.Matrix.Inv | package/matrix/Matrix.ts:360-366 | "Matrix must be square" first, then "Matrix is singular" exactly when det is 0, else the adjoint times 1/det, as written: cell (i, j) is cofactor(j, i)/det; this is the inverse for every size except 1 x 1, where it is [[0]] (see Findings) |
| MatrixClass.Matrix.LU | package/matrix/Matrix.ts:246-282 | fails with "Matrix must be square" exactly when nrows != ncols; else fresh L and U equal to Doolittle's L and U |
| MatrixClass.Matrix.FillUpperRow | package/matrix/Matrix.ts:255-264 | fills row i of U from column i on with A(i, k) minus the accumulated sum, leaving every other cell of U |
| MatrixClass.Matrix.FillLowerColumn | package/matrix/Matrix.ts:266-277 | puts 1 at L(i, i) and fills column i of L below the diagonal with the accumulated difference over U(i, i), leaving every other cell of L |
| Fixtures.ProductOfAB | package/tests/multiply.test.js:12-48 | the 3 x 3 test matrix times the 3 x 4 one is [[89,10,-15,94],[26,-18,-3,39],[33,-3,-9,56]] |
| Fixtures.DoubledA | package/tests/multiply.test.js:12-58 | the 3 x 3 test matrix times 2 is [[10,18,4],[2,16,10],[6,12,8]] |
| Fixtures.DetOfA | package/tests/cofactor.test.js:9-13 | the determinant of [[5,9,2],[1,8,5],[3,6,4]] is 73 |
| Fixtures.CofactorOfThree | package/matrix/Matrix.ts:304-318 | cofactor (i, j) of a 3 x 3 matrix is the signed 2 x 2 determinant of the other rows and columns |
| Fixtures.CofactorRowOfA | package/tests/cofactor.test.js:9-27 | each row of the test matrix's cofactor matrix is the expected row |
| Fixtures.CofactorsOfA | package/tests/cofactor.test.js:9-27 | the cofactor matrix of [[5,9,2],[1,8,5],[3,6,4]] is [[2,11,-18],[-24,14,-3],[29,-23,31]] |
| Fixtures.ExpansionOfA | package/tests/cofactor.test.js:9-27 | 5 x 2 + 9 x 11 + 2 x (-18), the expansion with those cofactors, is 73 |
| Fixtures.SingularHasZeroDet | package/tests/inverse.test.js:20-51 | [[2,1,2],[1,0,1],[4,1,4]] has determinant exactly 0, so inv fails with "Matrix is singular" |
| Fixtures.InnerDetOfInvertible | package/tests/inverse.test.js:13-18 | the four inner determinants of the 4 x 4 test matrix are -12, 56, 4 and -4 |
| Fixtures.DetOfInvertible | package/tests/inverse.test.js:13-43 | the 4 x 4 test matrix has determinant 88 |
| Fixtures.MinorOfInvertible | package/tests/inverse.test.js:13-18 | minor(j, 0) of the 4 x 4 test matrix is -12, -76, -60, 36 for j = 0..3 |
| Fixtures.CofactorOfInvertible | package/tests/inverse.test.js:13-18 | cofactor(j, 0) of the 4 x 4 test matrix is -12, 76, -60, -36 for j = 0..3 |
| Fixtures.InverseCellFrom | package/matrix/Matrix.ts:360-366 | for n >= 2, cell (i, j) of the inverse is the value of cofactor(j, i) over the value of det |
| Fixtures.InverseCellOfInvertible | package/tests/inverse.test.js:32-43 | row 0 of the inverse of the 4 x 4 test matrix is -12/88, 76/88, -60/88, -36/88, the values the test rounds to -0.1364, 0.8636, -0.6818, -0.4091 |

## Left out

- `rand`: draws cells from `Math.random`; randomness is not modelled.
- The `console.log` calls in `multiply` and `cofactorMatrix`: diagnostic output only.
- `multiply`: it dispatches on the argument's runtime type to `matmul` or `kmatmul`, which are modelled as `MatrixClass.Matrix.Matmul` and `MatrixClass.Matrix.KMatmul`. Its `null` branch for an argument that is neither a number nor a matrix, and the other `typeof`/`instanceof`/`Array.isArray` checks, cannot be reached with Dafny's types.
- IEEE-754 rounding and the tests' tolerance: cells are exact reals. The 4 x 4 inverse is compared exactly, as fractions over 88.
- Doolittle.Div: a zero pivot makes the division give Infinity or NaN in JavaScript. The model's division gives 0 there, and `Doolittle.Product` assumes every pivot is non-zero.
- Reference aliasing. `fromArray` stores the caller's array, and the JavaScript `getRow` hands out the live row. The model has value semantics throughout. MatrixClass.Matrix.SetRow, MatrixClass.Matrix.SetColumn and MatrixClass.Matrix.AddColumn require the argument to be a different object from the receiver.
- MatrixClass.Matrix.FromArray: takes only a rectangular array of rows. The flat-array form and ragged rows are not modelled.
- MatrixClass.Matrix.AddRow: takes only a row given as numbers. The matrix form reads `row.arr[0]`, which the JavaScript `getRow` breaks.
- MatrixClass.Matrix.AddColumn: takes only a column given as a matrix. The array form is not modelled.
- Determinant.DetOfTransposeSmall: det(A) = det(transpose(A)) is proved for n <= 3 only; the general case needs the expansion along a column, which is not part of this model.
- Sizes that are negative or not integers are ruled out by the types (`nat`), except in `eye`, whose check is modelled, and in `submatrix`, which computes its sizes from the indices (see the two lines below).
- Grids.Submatrix: requires `r0 <= r1 + 1 && c0 <= c1 + 1`, so ranges reversed by two or more are not modelled. There Matrix.js:277-292 calls `zeros` with a negative size: a negative column count throws a RangeError from `new Array`, and a negative row count (with a column count of at least 0) returns a matrix whose row count is negative, which `nat` sizes cannot hold.
- MatrixClass.Matrix.Submatrix: the same requires and the same two unmodelled outcomes as Grids.Submatrix, for the method on the class.
- The broken paths of the two `getRow` versions are not reproduced. In the TypeScript file, `row_kmatmul` multiplies the wrapped row as a whole and returns a 1 x 1 matrix, so `kmatmul` fails with "Invalid column index" in `setRow` on every matrix with a row and at least two columns. Also in the TypeScript file, `deleteColumn` splices the one-element wrapper instead of the row, so every row becomes empty (column 0) or stays whole one level deeper (any other column). In the JavaScript file, `addRow` reads the length of a number, so `vertcat` fails with "New row must have the same number of columns" whenever the second matrix has a row and a column, and throws a TypeError (the length of `undefined`) when it has rows but no columns.
- The test-only API that neither source file defines: `cof`, `diff`, `norm`, `shape`, `isSingular`, `iterrows`, `itercolumns`, `sub`, `max`, and the constructor taking an array.
- The message text "Invalid matrices dimensions. Got [3,4]x[3,3]" expected by one test. The code's message is "Invalid matrices dimensions".
- `package/types/Types.ts`: type aliases only.
- Determinant.InverseIsRightInverseSmall: the adjugate identity A x adj(A) = det(A) I, and so A x inv(A) = I, is proved for 1 x 1 and 2 x 2 matrices only. The general case needs Laplace expansion along every row, which is not part of this model.
- Fixtures.InverseCellOfInvertible: only row 0 of the 4 x 4 test inverse is computed. The other cells follow from `Determinant.InverseCells` the same way.
- The determinant and LU loops are split into helper methods (`BuildInnerMatrix`, `ExpandAlongRow0`, `FillUpperRow`, `FillLowerColumn`). Each helper runs the loop or loop body the source inlines, with its steps in the source's order.

## Findings

| source | as written | input that shows it | evidently intended | confidence | as-written member | corrected member |
|---|---|---|---|---|---|---|
| package/matrix/Matrix.ts:356-366 (and package/matrix/Matrix.js:293-301) | `inv` scales the adjoint, whose only cell for a 1 x 1 matrix is cofactor(0, 0) = det of the empty 0 x 0 matrix = 0 | `[[a]]` with any a != 0: det is a, so inv passes both checks and returns `[[0]]` | `[[1/a]]`: the adjugate of a 1 x 1 matrix is `[[1]]` | not executed | Determinant.InverseAsWrittenOneByOne | Determinant.InverseIsRightInverseSmall |

`MatrixClass.Matrix.Inv` follows the code: its result is `Determinant.InverseAsWritten`, which `Determinant.InverseAsWrittenAgrees` shows equal to the corrected `Determinant.Inverse` for every size except 1 x 1. The corrected inverse, built on `Determinant.Adjugate`, is the one the inverse properties are proved about.
