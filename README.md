# S21Matrix in Dafny

This project models `S21Matrix`, the C++ matrix class of the matrixplus
repository. An `S21Matrix` owns a dense `rows_ x cols_` buffer of doubles.
Its operations are:

- element-wise sum, difference and scaling;
- tolerant equality;
- transpose and product;
- a determinant by Gaussian elimination with counted row swaps;
- the cofactor matrix and the inverse;
- bounds-checked element access and resizing;
- the operator forms of all of these.

The model has five modules:

- `Errors` (errors.dfy) holds the failure kinds. The class throws
  `std::out_of_range` with a distinct message for each: "incorrect matrix",
  "different dimensions of matrices", "sides are not equal", "matrix is not
  square", "Determinant = 0" and "index outside matrix". Each message is one
  `Error` constructor. An operation returns `Result<T>`, and a `void` one
  returns `Outcome`.
- `Grids` (grids.dfy) holds the buffer as a value (`Grid = seq<seq<real>>`). It
  states, as functions on values, what the element-wise operations, transpose,
  product, equality and resizing compute. Lemmas state the properties of those
  values.
- `Elimination` (elimination.dfy) holds what `Triangulate` computes, step by
  step, as functions:
  - the pivot search that swaps every nonzero row below a zero pivot into
    place;
  - the `SumStr` elimination;
  - the swap count, the diagonal product and the determinant.

  Lemmas prove what the algorithm guarantees: zeros below every pivot, the swap
  count and when swaps happen, that an upper-triangular matrix is left alone,
  and worked small cases.
- `Cofactors` (cofactors.dfy) holds `Minor`, the cofactor matrix and the
  inverse, with their sign pattern, transpose symmetry and the 1 x 1 and
  2 x 2 cases, where the product with the inverse is the identity.
- `S21MatrixOop` (s21_matrix.dfy) holds the class itself. It has the fields
  `rows`, `cols` and `matrix`, and methods that run the source's own loops.
  Each method's postcondition ties its result or new state to the value
  functions above.
  - Mutators update `matrix` in place, cell by cell.
  - `const` methods have no `modifies` clause, so they cannot change the
    receiver.
  - Failing calls leave the receiver as it was.

`TestCases` (test_cases.dfy) states several cases of the repository's tests
as lemmas: determinants -578, 10 and 11.4, a 2 x 2 product, a refused
product, the inverse of [2], two singular 3 x 3 matrices that have no
inverse, and refusals of the empty and of a non-square matrix.

## Model

| member | source | states |
|---|---|---|
| S21MatrixOop.S21Matrix.constructor | src/s21_matrix_oop.cc:6 | the default matrix is 0 x 0 with no cells |
| S21MatrixOop.S21Matrix.Create | src/s21_matrix_oop.cc:8-11 | construction succeeds iff both dimensions are at least 1 (otherwise InvalidDimension); the new matrix is rows x cols with every cell 0 |
| S21MatrixOop.S21Matrix.CopyOf | src/s21_matrix_oop.cc:13-16 | the copy constructor fails exactly on an empty original (MallocMatrix(0, 0) throws); otherwise a fresh matrix with the same dimensions and cells |
| S21MatrixOop.S21Matrix.Move | src/s21_matrix_oop.cc:18-26 | the new matrix takes the other's dimensions and cells; the other is left 0 x 0 |
| S21MatrixOop.NewBuffer | src/s21_matrix_oop.cc:305-308 | the allocated buffer is x rows of y zero cells |
| S21MatrixOop.S21Matrix.MallocMatrix | src/s21_matrix_oop.cc:301-311 | a dimension below 1 is refused and nothing changes; otherwise the matrix is x x y and all zeros |
| S21MatrixOop.S21Matrix.ZeroMatrix | src/s21_matrix_oop.cc:351-357 | every cell becomes 0 and the shape stays |
| S21MatrixOop.S21Matrix.CopyMatrix | src/s21_matrix_oop.cc:333-349 | the receiver gets the other's dimensions and every one of its cells; copying a matrix onto itself keeps its shape and makes every cell 0, because the cells are read back from the new zero-filled buffer |
| S21MatrixOop.S21Matrix.GetRows | src/s21_matrix_oop.cc:235 | the row count is the number of rows in the buffer |
| S21MatrixOop.S21Matrix.GetCols | src/s21_matrix_oop.cc:237 | the column count is the length of every row, and positive when there are rows |
| S21MatrixOop.S21Matrix.At | src/s21_matrix_oop.cc:226-231 | reading (x, y) fails with IndexOutOfRange iff x or y is outside the matrix; otherwise it yields exactly cell (x, y) |
| S21MatrixOop.S21Matrix.SetAt | src/s21_matrix_oop.cc:226-231 | writing (x, y) fails iff the read would, and then changes nothing; otherwise only cell (x, y) changes and reads back as the value written |
| S21MatrixOop.S21Matrix.CheckMistakes | src/s21_matrix_oop.cc:384-398 | check 1 passes iff neither operand is empty, check 2 iff the shapes agree, check 3 iff cols equals other.rows; each failure has its own error kind |
| S21MatrixOop.S21Matrix.CheckMistakes2 | src/s21_matrix_oop.cc:400-410 | check 1 passes iff the matrix is nonempty, check 2 iff it is square |
| S21MatrixOop.S21Matrix.SumMatrix | src/s21_matrix_oop.cc:34-42 | the new matrix is Add of the old operands (also when other is this); a refused call changes nothing |
| S21MatrixOop.S21Matrix.SubMatrix | src/s21_matrix_oop.cc:60-68 | the new matrix is Sub of the old operands; a refused call changes nothing |
| S21MatrixOop.S21Matrix.MulNumber | src/s21_matrix_oop.cc:70-77 | the new matrix is Scale of the old one; an empty matrix is refused and left alone |
| S21MatrixOop.S21Matrix.EqMatrix | src/s21_matrix_oop.cc:44-58 | the answer is true iff ApproxEqual holds, that is equal shapes and every cell within 1e-6; it never fails |
| S21MatrixOop.S21Matrix.Transpose | src/s21_matrix_oop.cc:96-105 | an empty matrix is refused; otherwise a fresh cols x rows matrix equal to Transposed of this one, which is unchanged |
| S21MatrixOop.S21Matrix.MulMatrix | src/s21_matrix_oop.cc:79-94 | the new matrix is MulAsWritten of the old operands: empty operands and cols != other.rows are refused without change, and cell (i, j) is the dot product of row i and column j |
| S21MatrixOop.S21Matrix.Sdvig | src/s21_matrix_oop.cc:359-364 | rows i and j exchange places, nothing else changes, and the answer is -1 |
| S21MatrixOop.S21Matrix.SumStr | src/s21_matrix_oop.cc:313-315 | row `row` gains k times row `ro`, cell by cell; every other row stays |
| S21MatrixOop.S21Matrix.SearchPivot | src/s21_matrix_oop.cc:369-375 | the pivot search leaves the grid and swap count SwapBelow describes (one Sdvig per nonzero cell below a zero pivot, each adding 1 to znak) |
| S21MatrixOop.S21Matrix.EliminateColumn | src/s21_matrix_oop.cc:376-378 | the rows below the pivot become what EliminateBelow describes |
| S21MatrixOop.S21Matrix.Triangulate | src/s21_matrix_oop.cc:366-382 | other ends up as Triangulation of this matrix, and the answer is -(1 + number of swaps) |
| S21MatrixOop.S21Matrix.Determinant | src/s21_matrix_oop.cc:150-163 | the answer is Elimination.Determinant of the matrix: refused when empty or not square, otherwise (-1)^swaps times the product of the triangulated diagonal; the receiver is unchanged |
| S21MatrixOop.S21Matrix.Minor | src/s21_matrix_oop.cc:317-331 | other becomes MinorOf(matrix, x, y): cell (i, j) is cell (i + [i >= x], j + [j >= y]) |
| S21MatrixOop.S21Matrix.CofactorAt | src/s21_matrix_oop.cc:114-118 | one inner pass fails with InvalidDimension for a 1 x 1 matrix (its 0 x 0 minor cannot be allocated); otherwise it yields cofactor (i, j) |
| S21MatrixOop.S21Matrix.ComplementRow | src/s21_matrix_oop.cc:113-119 | the inner loop fills row i of the result with the cofactors of row i and leaves every other row alone |
| S21MatrixOop.S21Matrix.CalcComplements | src/s21_matrix_oop.cc:107-124 | the answer agrees with Cofactors.CalcComplements: refused when empty, not square, or 1 x 1; otherwise the cofactor matrix |
| S21MatrixOop.S21Matrix.InverseMatrix | src/s21_matrix_oop.cc:126-148 | the answer agrees with Cofactors.Inverse: refused when empty, not square, or when abs(det) < 1e-7; otherwise the adjugate times 1/det, or [1/a00] for 1 x 1 |
| S21MatrixOop.S21Matrix.SetRows | src/s21_matrix_oop.cc:241-261 | the new matrix is ResizeRows of the old one (n rows, same cols); n < 1 or an empty matrix is refused without change |
| S21MatrixOop.S21Matrix.SetCols | src/s21_matrix_oop.cc:263-283 | the new matrix is ResizeCols of the old one (same rows, n cols); n < 1 or an empty matrix is refused without change |
| S21MatrixOop.S21Matrix.Plus | src/s21_matrix_oop.cc:167-171 | a + b is a fresh matrix equal to Add(a, b), with Add's errors; a is unchanged |
| S21MatrixOop.S21Matrix.Minus | src/s21_matrix_oop.cc:173-177 | a - b is a fresh matrix equal to Sub(a, b), with Sub's errors |
| S21MatrixOop.S21Matrix.Times | src/s21_matrix_oop.cc:179-183 | a * b is a fresh matrix equal to MulAsWritten(a, b), with its errors |
| S21MatrixOop.S21Matrix.TimesNumber | src/s21_matrix_oop.cc:185-189 | a * k is a fresh matrix equal to Scale(a, k); an empty a is refused |
| S21MatrixOop.NumberTimes | src/s21_matrix_oop.cc:191-194 | k * a equals Scale(a, k), exactly as a * k |
| S21MatrixOop.S21Matrix.PlusAssign | src/s21_matrix_oop.cc:196-199 | a += b leaves a equal to Add of the old values |
| S21MatrixOop.S21Matrix.MinusAssign | src/s21_matrix_oop.cc:201-204 | a -= b leaves a equal to Sub of the old values |
| S21MatrixOop.S21Matrix.TimesAssign | src/s21_matrix_oop.cc:206-209 | a *= b leaves a equal to MulAsWritten of the old values |
| S21MatrixOop.S21Matrix.TimesNumberAssign | src/s21_matrix_oop.cc:211-214 | a *= k leaves a equal to Scale of the old value |
| S21MatrixOop.S21Matrix.Equals | src/s21_matrix_oop.cc:216-219 | a == b is true iff ApproxEqual(a, b) |
| S21MatrixOop.S21Matrix.Assign | src/s21_matrix_oop.cc:221-224 | a = b gives a b's dimensions and cells; a = a keeps a's shape and makes every cell 0 |
| Grids.Zero | src/s21_matrix_oop.cc:351-357 | the zero buffer has the requested shape and every cell 0 |
| Grids.Add | src/s21_matrix_oop.cc:34-42 | the sum succeeds iff both operands are nonempty and of one shape; an empty operand gives InvalidDimension, unequal shapes DimensionMismatch; the shape is kept |
| Grids.Sub | src/s21_matrix_oop.cc:60-68 | the difference has the same checks and errors as the sum, and keeps the shape |
| Grids.Scale | src/s21_matrix_oop.cc:70-77 | scaling succeeds iff the matrix is nonempty, and keeps the shape |
| Grids.AddCommutes | src/s21_matrix_oop.cc:34-42 | a + b and b + a agree, errors included |
| Grids.SubUndoesAdd | src/s21_matrix_oop.cc:60-68 | subtracting b from a successful a + b gives a back |
| Grids.ScaleTwice | src/s21_matrix_oop.cc:70-77 | scaling by k1 and then k2 is scaling by k1 * k2 |
| Grids.Scaled | src/s21_matrix_oop.cc:72-76 | every cell (i, j) of the scaled matrix is cell (i, j) times k, and the shape is kept |
| Grids.Transposed | src/s21_matrix_oop.cc:98-103 | the transpose is cols x rows and its cell (j, i) is cell (i, j) |
| Grids.Transpose | src/s21_matrix_oop.cc:96-105 | transposing succeeds iff the matrix is nonempty, and gives a cols x rows matrix |
| Grids.TransposeInvolutive | src/s21_matrix_oop.cc:96-105 | transposing twice gives the matrix back |
| Grids.MulAsWritten | src/s21_matrix_oop.cc:79-94 | the product succeeds iff neither operand is empty and cols == other.rows, with InvalidDimension or ShapeMismatch otherwise; the result keeps the receiver's rows x cols |
| Grids.MulAsWrittenIsProduct | src/s21_matrix_oop.cc:79-94 | each result cell in a column below other.cols is the true product's cell, and the rest are 0; the result is the product iff other.cols == cols |
| Grids.DotOfZeros | src/s21_matrix_oop.cc:85-88 | the running sum res is 0 when row i of the receiver, or column j of the other, is 0 in the cells summed |
| Grids.DotIdentity | src/s21_matrix_oop.cc:84-88 | the dot product loop against the identity picks out one cell |
| Grids.ProductIdentityRight | src/s21_matrix_oop.cc:79-94 | multiplying by the identity gives the matrix back |
| Grids.RowTimesDotsStep | src/s21_matrix_oop.cc:85-88 | lengthening every inner dot product of a x (b x c) by one term adds (a x b)(i, n) times c(n, j) |
| Grids.DotOfProductRow | src/s21_matrix_oop.cc:85-88 | the dot product of row i of a x b with column j of c is the sum over k of a(i, k) times the dot product of row k of b with column j of c |
| Grids.RowTimesDotsIsDot | src/s21_matrix_oop.cc:85-88 | that sum is the dot product of row i of a with column j of b x c |
| Grids.ProductAssociative | src/s21_matrix_oop.cc:79-94 | the product is associative: (a x b) x c == a x (b x c) for nonempty operands of matching shapes |
| Grids.ApproxEqualReflexive | src/s21_matrix_oop.cc:44-58 | every matrix equals itself |
| Grids.ApproxEqualSymmetric | src/s21_matrix_oop.cc:44-58 | equality does not depend on operand order |
| Grids.ApproxEqualNotTransitive | src/s21_matrix_oop.cc:44-58 | with the 1e-6 tolerance, [0] == [1e-6] and [1e-6] == [2e-6] but [0] != [2e-6] |
| Grids.ResizeRows | src/s21_matrix_oop.cc:241-261 | resizing rows succeeds iff n >= 1 and the matrix is nonempty; the result has n rows and the old column count |
| Grids.ResizeCols | src/s21_matrix_oop.cc:263-283 | resizing columns succeeds iff n >= 1 and the matrix is nonempty; the result has the old row count and n columns |
| Grids.ResizeRowsRoundTrip | src/s21_matrix_oop.cc:241-261 | growing the rows and shrinking back gives the matrix back |
| Grids.ResizeColsRoundTrip | src/s21_matrix_oop.cc:263-283 | growing the columns and shrinking back gives the matrix back |
| Grids.ResizeRowsShrinkThenGrow | src/s21_matrix_oop.cc:241-261 | shrinking to n rows and growing back keeps the first n rows and zeroes the rest |
| Grids.ResizeColsShrinkThenGrow | src/s21_matrix_oop.cc:263-283 | shrinking to n columns and growing back keeps the first n columns and zeroes the rest |
| Elimination.SwapRows | src/s21_matrix_oop.cc:359-364 | rows i and j trade places and every other row stays |
| Elimination.AddScaledRow | src/s21_matrix_oop.cc:313-315 | row `row` gains k times row `ro`, cell by cell; every other row stays |
| Elimination.Factor | src/s21_matrix_oop.cc:378 | with a nonzero pivot, the multiplier is the one that makes cell (j, i) plus multiplier times the pivot 0; with a zero pivot it is 0 (see Findings) |
| Elimination.SwapBelow | src/s21_matrix_oop.cc:369-375 | the pivot search keeps the matrix square and its size and never lowers the swap count; what it swaps and counts is stated by SwapBelowCount and PivotSearch |
| Elimination.EliminateBelow | src/s21_matrix_oop.cc:376-378 | the elimination keeps the matrix square and its size; that it clears the column is EliminateBelowClears |
| Elimination.PivotColumn | src/s21_matrix_oop.cc:368-379 | one outer pass keeps the matrix square and its size; that it clears its column is PivotColumnClears |
| Elimination.TriangulateFrom | src/s21_matrix_oop.cc:368-380 | the remaining passes keep the matrix square and its size; that they leave it upper triangular is TriangulateFromClears |
| Elimination.Triangulation | src/s21_matrix_oop.cc:366-382 | Triangulate keeps the matrix square and its size; that its result is upper triangular is TriangulationIsUpperTriangular |
| Elimination.DiagProduct | src/s21_matrix_oop.cc:157-159 | the product of the first n diagonal cells is 0 iff one of those cells is 0 |
| Elimination.Sign | src/s21_matrix_oop.cc:156 | the sign read off the swap count is +1 or -1, and +1 exactly for an even count |
| Elimination.Det | src/s21_matrix_oop.cc:150-163 | the determinant is 0 iff the triangulated matrix has a 0 on its diagonal, and its magnitude is that of the diagonal product |
| Elimination.Determinant | src/s21_matrix_oop.cc:150-153 | the determinant is refused with InvalidDimension when empty and NotSquare when not square, and succeeds otherwise |
| Elimination.SwapRowsKeepsZeroBelow | src/s21_matrix_oop.cc:359-364 | swapping two rows at or below column m keeps the zeros below the diagonal in the columns before m |
| Elimination.AddScaledRowKeepsZeroBelow | src/s21_matrix_oop.cc:313-315 | adding a multiple of pivot row i to a lower row keeps the zeros in the columns before i |
| Elimination.SwapBelowLeavesPivot | src/s21_matrix_oop.cc:369-375 | after the pivot search, either the pivot is nonzero or the whole column below it is zero |
| Elimination.EliminateBelowClears | src/s21_matrix_oop.cc:376-378 | with a nonzero pivot (or an all-zero column), the elimination zeroes column i below the diagonal |
| Elimination.PivotColumnClears | src/s21_matrix_oop.cc:368-379 | one outer pass clears its column below the diagonal and keeps the earlier columns clear |
| Elimination.TriangulateFromClears | src/s21_matrix_oop.cc:368-380 | the remaining passes leave an upper-triangular matrix |
| Elimination.TriangulationIsUpperTriangular | src/s21_matrix_oop.cc:366-382 | Triangulate's result has zeros everywhere below the diagonal |
| Elimination.SwapBelowCount | src/s21_matrix_oop.cc:369-375 | the pivot search makes one swap for every nonzero cell it meets below, without stopping at the first |
| Elimination.NoNonzeroMeansNoSwap | src/s21_matrix_oop.cc:369-375 | with no nonzero cell below, the search changes nothing and the column below is zero |
| Elimination.PivotSearch | src/s21_matrix_oop.cc:369-375 | on a zero pivot, the swap count grows by the number of nonzero cells below, and the pivot becomes nonzero iff one of them exists; otherwise nothing changes |
| Elimination.SwapBelowNonzeroPivot | src/s21_matrix_oop.cc:369-375 | once a swap happens, or if the pivot was already nonzero, the pivot is nonzero afterwards |
| Elimination.SwapBelowOfUpper | src/s21_matrix_oop.cc:369-375 | on an upper-triangular matrix the pivot search swaps nothing |
| Elimination.AddScaledRowByZero | src/s21_matrix_oop.cc:313-315 | adding 0 times a row changes nothing |
| Elimination.EliminateBelowOfUpper | src/s21_matrix_oop.cc:376-378 | on an upper-triangular matrix the elimination changes nothing |
| Elimination.TriangulateFromOfUpper | src/s21_matrix_oop.cc:368-380 | on an upper-triangular matrix the remaining passes change nothing |
| Elimination.TriangulationOfUpper | src/s21_matrix_oop.cc:366-382 | an upper-triangular matrix is left as it is, with no swaps |
| Elimination.TriangulationIdempotent | src/s21_matrix_oop.cc:366-382 | triangulating a triangulated matrix changes nothing |
| Elimination.DetOfUpper | src/s21_matrix_oop.cc:150-163 | the determinant of an upper-triangular matrix is its diagonal product |
| Elimination.DiagProductOfIdentity | src/s21_matrix_oop.cc:157-159 | the diagonal product of the identity is 1 |
| Elimination.DetOfIdentity | src/s21_matrix_oop.cc:150-163 | the identity has determinant 1 |
| Elimination.SwapBelowKeepsColumnZero | src/s21_matrix_oop.cc:369-375 | row swaps keep an all-zero column all zero |
| Elimination.EliminateBelowKeepsColumnZero | src/s21_matrix_oop.cc:376-378 | row additions keep an all-zero column all zero |
| Elimination.TriangulateFromKeepsColumnZero | src/s21_matrix_oop.cc:368-380 | the whole elimination keeps an all-zero column all zero |
| Elimination.DetOfZeroColumn | src/s21_matrix_oop.cc:150-163 | a matrix with an all-zero column has determinant 0 |
| Elimination.DetOfOne | src/s21_matrix_oop.cc:150-163 | the determinant of any 1 x 1 matrix is its one cell |
| Elimination.DetOfTwo | src/s21_matrix_oop.cc:150-163 | the determinant of [[a, b], [c, d]] is a*d - b*c, zero pivot included |
| Elimination.DetOfTwoNonzeroPivot | src/s21_matrix_oop.cc:150-163 | with a nonzero pivot a, the elimination of [[a, b], [c, d]] gives a*d - b*c without a swap |
| Elimination.DetOfTwoSwapped | src/s21_matrix_oop.cc:150-163 | with pivot 0 over a nonzero c, the one swap makes the determinant of [[0, b], [c, d]] equal to -(b*c) |
| Elimination.TriangulationOfSecond | src/s21_matrix_oop.cc:368-380 | the passes from column 1 leave a 2 x 2 matrix as it is |
| Elimination.EliminateBelowAsWritten | src/s21_matrix_oop.cc:376-378 | as written, the elimination divides by the pivot, and yields nothing when the pivot is 0 |
| Elimination.TriangulateFromAsWritten | src/s21_matrix_oop.cc:368-380 | as written, the passes yield nothing once a division by a zero pivot happens |
| Elimination.TriangulationAsWritten | src/s21_matrix_oop.cc:366-382 | as written, Triangulate is defined only when no pivot it divides by is 0 |
| Elimination.EliminateBelowAsWrittenAgrees | src/s21_matrix_oop.cc:376-378 | wherever the as-written elimination is defined, it equals the guarded one |
| Elimination.TriangulateFromAsWrittenAgrees | src/s21_matrix_oop.cc:368-380 | wherever the as-written passes are defined, they equal the guarded ones |
| Elimination.TriangulationAsWrittenAgrees | src/s21_matrix_oop.cc:366-382 | wherever the as-written Triangulate is defined, it equals the guarded one |
| Elimination.ZeroColumnDividesByZero | src/s21_matrix_oop.cc:378 | on [[0, 0], [0, 1]] the as-written Triangulate divides 0 by 0, while the guarded determinant is 0 |
| Elimination.EliminateBelowAsWrittenFails | src/s21_matrix_oop.cc:376-378 | the as-written elimination divides by zero only when the pivot is 0 |
| Elimination.EliminateBelowKeepsUpperRows | src/s21_matrix_oop.cc:376-378 | the elimination from row j on changes no row above j |
| Elimination.SwapBelowKeepsUpperRows | src/s21_matrix_oop.cc:369-375 | the pivot search in column i changes no row above row i |
| Elimination.TriangulateFromKeepsUpperRows | src/s21_matrix_oop.cc:368-380 | the passes from column i on change no row above row i |
| Elimination.TriangulateFromAsWrittenFails | src/s21_matrix_oop.cc:368-380 | where the as-written passes divide by zero, the guarded ones leave a 0 on the diagonal |
| Elimination.AsWrittenFailureMeansZeroDet | src/s21_matrix_oop.cc:366-382 | every matrix on which the as-written Triangulate divides by zero has determinant 0 |
| Cofactors.MinorOf | src/s21_matrix_oop.cc:317-331 | the minor of an n x n matrix is (n-1) x (n-1) and square |
| Cofactors.SkipUnskip | src/s21_matrix_oop.cc:321-328 | the i2/j2 shift maps minor indices onto matrix indices other than x, one to one |
| Cofactors.MinorKeepsCell | src/s21_matrix_oop.cc:317-331 | every cell outside row x and column y appears in the minor, at the shifted position |
| Cofactors.MinorOfTransposed | src/s21_matrix_oop.cc:317-331 | the minor (y, x) of the transpose is the transpose of the minor (x, y) |
| Cofactors.CofactorSign | src/s21_matrix_oop.cc:118 | pow(-1.0, i + j) is +1 or -1, and +1 exactly when i + j is even |
| Cofactors.Complements | src/s21_matrix_oop.cc:110-121 | the cofactor matrix of an n x n matrix is n x n |
| Cofactors.CalcComplements | src/s21_matrix_oop.cc:107-124 | the cofactor matrix succeeds iff the matrix is square and at least 2 x 2; a non-square one gives NotSquare, an empty or 1 x 1 one InvalidDimension |
| Cofactors.CofactorSignCheckerboard | src/s21_matrix_oop.cc:118 | (-1)^(i+j) is symmetric, flips with each step along a row or column, and is 1 on the diagonal |
| Cofactors.Inverse | src/s21_matrix_oop.cc:126-148 | the inverse succeeds iff the matrix is nonempty, square and abs(det) >= 1e-7, with InvalidDimension, NotSquare or Singular otherwise; it keeps the shape |
| Cofactors.InverseIsReciprocal | src/s21_matrix_oop.cc:141-144 | an invertible 1 x 1 matrix has the inverse [1/a00] |
| Cofactors.MinorOfTwo | src/s21_matrix_oop.cc:317-331 | a minor of a 2 x 2 matrix is the cell opposite the removed one |
| Cofactors.MinorDetOfTwo | src/s21_matrix_oop.cc:114-117 | the determinant of a minor of a 2 x 2 matrix is the cell opposite the removed one |
| Cofactors.CofactorOfTwo | src/s21_matrix_oop.cc:114-118 | cofactor (x, y) of a 2 x 2 matrix is the cell opposite it, times (-1)^(x+y) |
| Cofactors.ComplementsOfTwo | src/s21_matrix_oop.cc:107-124 | the cofactor matrix of [[a, b], [c, d]] is [[d, -c], [-b, a]] |
| Cofactors.InverseOfTwoValue | src/s21_matrix_oop.cc:126-148 | an invertible 2 x 2 matrix has the inverse [[d, -b], [-c, a]] / (a*d - b*c) |
| Cofactors.AdjugateProductOfTwo | src/s21_matrix_oop.cc:126-148 | a 2 x 2 matrix times that adjugate over its determinant is the identity |
| Cofactors.InverseOfTwo | src/s21_matrix_oop.cc:126-148 | an invertible 2 x 2 matrix times the inverse InverseMatrix returns is the identity |
| Cofactors.InverseOfOne | src/s21_matrix_oop.cc:141-144 | an invertible 1 x 1 matrix times its inverse is the identity |
| Cofactors.ReciprocalProduct | src/s21_matrix_oop.cc:141-144 | [x] times [1/x] is the 1 x 1 identity |
| TestCases.DeterminantOfFourByFour | src/test.cc:212-231 | the 4 x 4 test matrix has determinant -578 |
| TestCases.DeterminantOfTen | src/test.cc:233-237 | the determinant of [10] is 10 |
| TestCases.DeterminantOfTwoByTwo | src/test.cc:239-247 | the determinant of [[1.1, 3.5], [-2, 4]] is 11.4 |
| TestCases.ProductOfTwoByTwo | src/test.cc:170-188 | [[3, 2], [-6.6, 0]] times [[-7, 0], [-3.5, 2]] is [[-28, 4], [46.2, 0]] |
| TestCases.ProductShapeMismatch | src/test.cc:202-208 | a 2 x 3 matrix times a 2 x 2 one is refused with ShapeMismatch |
| TestCases.InverseOfTwoIsHalf | src/test.cc:863-869 | the inverse of [2] is [0.5] |
| TestCases.NineTriangulation | src/test.cc:344-354 | the elimination of [[1, 2, 3], [4, 5, 6], [7, 8, 9]] leaves a zero last row, with no swap |
| TestCases.InverseOfNineIsRefused | src/test.cc:344-354 | [[1, 2, 3], [4, 5, 6], [7, 8, 9]] has no inverse (Singular) |
| TestCases.FlatTriangulation | src/test.cc:397-410 | the elimination of [[1, 4, 1], [3, 7, 2], [3, 2, 1]] leaves a zero last row, with no swap |
| TestCases.FlatIsSingular | src/test.cc:397-410 | [[1, 4, 1], [3, 7, 2], [3, 2, 1]] has determinant exactly 0 and no inverse |
| TestCases.EmptyHasNoTranspose | src/test.cc:858-861 | the empty matrix has no transpose |
| TestCases.EmptyHasNoComplements | src/test.cc:871-874 | the empty matrix has no cofactor matrix |
| TestCases.EmptyHasNoDeterminant | src/test.cc:905-908 | the empty matrix has no determinant |
| TestCases.NonSquareHasNoDeterminant | src/test.cc:248-251 | a 4 x 3 matrix has no determinant |

## Left out

- Elements are mathematical reals, not IEEE-754 doubles. Rounding, NaN and
  infinities are not modelled, and neither is `pow(-1, i + j)`, which only
  ever yields +1 or -1 (`CofactorSign`). The tolerances 1e-6 and 1e-7 are
  named real constants.
- `rows_` and `cols_` are unbounded integers. The overflow of a 32-bit `int`
  is not modelled.
- Raw memory is not modelled: `new`/`delete`, the `delete` versus `delete[]`
  mismatch in `CopyMatrix`, `Remove` and the destructor. The buffer is a
  sequence of row values that methods reassign. `Sdvig` exchanges two row
  values rather than two row pointers.
- Buffer aliasing is not modelled. Two matrices never share a buffer, which
  the class's copy and move semantics also ensure.
- S21MatrixOop.S21Matrix.MulMatrix requires other.cols <= cols when the
  operands are nonempty and cols == other.rows. A wider other makes the
  source write past the end of its rows x cols temporary.
- S21MatrixOop.S21Matrix.Times and S21MatrixOop.S21Matrix.TimesAssign carry
  the same requirement, through MulMatrix.
- S21MatrixOop.S21Matrix.InverseMatrix refuses with Singular wherever the
  guarded determinant is 0. Where the source's Triangulate divides by zero,
  as on [[0, 0], [0, 1]], its determinant is NaN, `fabs(NaN) < 1e-7` is false
  at line 131, and the source returns a matrix of NaN cells instead of
  throwing. The model does not reproduce that NaN result.
- S21MatrixOop.S21Matrix.CalcComplements writes the guarded determinant of
  each minor. Where a minor's elimination meets a zero pivot with a zero
  below it, the source writes a NaN cofactor; the model writes the value of
  the guarded elimination instead.
- Cofactors.Inverse: that a matrix times its inverse is the identity is proved
  only for 1 x 1 and 2 x 2 matrices (InverseOfOne, InverseOfTwo). The general
  case needs the cofactor expansion of the determinant, which the
  elimination model does not provide.
- Elimination.Factor guards the division at line 378 of
  src/s21_matrix_oop.cc. The multiplier is 0 where the pivot is still 0 after
  the pivot search, instead of the NaN the source computes. See Findings.
- Several loops run as helper methods of the class:
  - `Triangulate`'s pivot search and elimination loops
    (S21MatrixOop.S21Matrix.SearchPivot, EliminateColumn);
  - `CalcComplements`' inner loop and the body of one pass
    (S21MatrixOop.S21Matrix.ComplementRow, CofactorAt).

  The loops and their order are the source's.
- The `const` and `noexcept` markers of the header are captured as follows:
  - const methods have no `modifies` clause;
  - the noexcept ones (`EqMatrix`, `GetRows`, `GetCols`, the default and move
    constructors) return no error.

  Nothing beyond that is modelled.
- The gtest harness and `main` in src/test.cc are not part of this model.
  Several of their cases are stated in `TestCases`.
- S21MatrixOop.S21Matrix.InverseMatrix's result for a 1 x 1 matrix is the
  copy with its one cell replaced. In the source, the extra 1 x 1 matrix
  `tmp2` built in that branch is never used, so it is not modelled.

## Findings

| source | as written | input that shows it | evidently intended | confidence | as-written member | corrected member |
|---|---|---|---|---|---|---|
| src/s21_matrix_oop.cc:376-378 | the elimination always divides by the pivot `other.matrix_[i][i]`, also when the pivot search found no nonzero cell and the pivot is still 0 | [[0, 0], [0, 1]]: the pivot in column 0 is 0 and nothing below it is nonzero, so SumStr gets -0/0 (NaN) and the determinant comes out NaN instead of 0; likewise [[1, 1, 1], [1, 1, 1], [0, 0, 1]], whose pivot in column 1 is 0 after the first pass | a column with no nonzero pivot needs no elimination (multiplier 0); then a 0 stays on the diagonal (no later pass touches that row), so on every matrix where the source divides by zero the determinant is 0 | high, not executed | Elimination.ZeroColumnDividesByZero | Elimination.AsWrittenFailureMeansZeroDet |
