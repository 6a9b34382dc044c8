/**
  Worked cases from the repository's test suite, stated on the value model:
  the inputs and the expected answers are the tests' own.
 */
module TestCases {
  import opened Errors
  import opened Grids
  import opened Elimination
  import opened Cofactors

  /** Determinant of the 1 x 1 matrix [10] is 10. */
  lemma DeterminantOfTen()
    ensures Determinant([[10.0]]) == Success(10.0)
  {
    DetOfOne([[10.0]]);
  }

  /** One SumStr step of the elimination, given the new row cell by cell. */
  lemma RowStep(g: Grid, j: nat, i: nat, row: seq<real>)
    requires Square(g) && i < |g| && j < |g| && |row| == |g|
    requires forall c :: 0 <= c < |g| ==> row[c] == g[j][c] + g[i][c] * Factor(g, j, i)
    ensures AddScaledRow(g, j, i, Factor(g, j, i)) == g[j := row]
  {
    var r := AddScaledRow(g, j, i, Factor(g, j, i));
    assert r[j] == row;
  }

  /** The 4 x 4 matrix of the first determinant test, and its grid after each column of the elimination. */
  const Four: Grid := [[9.0, 2.0, 2.0, 4.0], [3.0, 4.0, 4.0, 4.0], [4.0, 4.0, 9.0, 9.0], [1.0, 1.0, 5.0, 1.0]]
  const FourAfter0: Grid := [[9.0, 2.0, 2.0, 4.0], [0.0, 10.0 / 3.0, 10.0 / 3.0, 8.0 / 3.0],
    [0.0, 28.0 / 9.0, 73.0 / 9.0, 65.0 / 9.0], [0.0, 7.0 / 9.0, 43.0 / 9.0, 5.0 / 9.0]]
  const FourAfter1: Grid := FourAfter0[2 := [0.0, 0.0, 5.0, 71.0 / 15.0]][3 := [0.0, 0.0, 4.0, -1.0 / 15.0]]
  const FourAfter2: Grid := FourAfter1[3 := [0.0, 0.0, 0.0, -289.0 / 75.0]]

  /** Column 0: the pivot 9 is nonzero, and rows 1 to 3 gain -1/3, -4/9 and -1/9 times row 0. */
  lemma FourColumn0()
    ensures Square(Four) && PivotColumn(State(Four, 0), 0) == State(FourAfter0, 0)
  {
    var a1 := Four[1 := FourAfter0[1]];
    var a2 := a1[2 := FourAfter0[2]];
    RowStep(Four, 1, 0, FourAfter0[1]);
    RowStep(a1, 2, 0, FourAfter0[2]);
    RowStep(a2, 3, 0, FourAfter0[3]);
    assert a2[3 := FourAfter0[3]] == FourAfter0;
  }

  /** Columns 1 to 3: rows 2 and 3 gain -14/15 and -7/30 times row 1, then row 3 gains -4/5 times row 2. */
  lemma FourColumns123()
    ensures Square(FourAfter0) && TriangulateFrom(State(FourAfter0, 0), 1) == State(FourAfter2, 0)
  {
    var b2 := FourAfter0[2 := FourAfter1[2]];
    RowStep(FourAfter0, 2, 1, FourAfter1[2]);
    RowStep(b2, 3, 1, FourAfter1[3]);
    assert b2[3 := FourAfter1[3]] == FourAfter1;
    assert PivotColumn(State(FourAfter0, 0), 1) == State(FourAfter1, 0);
    RowStep(FourAfter1, 3, 2, FourAfter2[3]);
    assert PivotColumn(State(FourAfter1, 0), 2) == State(FourAfter2, 0);
    assert PivotColumn(State(FourAfter2, 0), 3) == State(FourAfter2, 0);
    assert TriangulateFrom(State(FourAfter2, 0), 3) == State(FourAfter2, 0);
    assert TriangulateFrom(State(FourAfter1, 0), 2) == State(FourAfter2, 0);
  }

  /** The first determinant test: the 4 x 4 matrix has determinant -578, reached with no row swap. */
  lemma DeterminantOfFourByFour()
    ensures Determinant(Four) == Success(-578.0)
  {
    FourColumn0();
    FourColumns123();
    assert Triangulation(Four) == State(FourAfter2, 0);
    assert FourAfter2[1][1] == 10.0 / 3.0 && FourAfter2[2][2] == 5.0 && FourAfter2[3][3] == -289.0 / 75.0;
    assert DiagProduct(FourAfter2, 1) == 9.0;
    assert DiagProduct(FourAfter2, 2) == 30.0;
    assert DiagProduct(FourAfter2, 3) == 150.0;
    assert DiagProduct(FourAfter2, 4) == -578.0;
  }

  /** Two singular 3 x 3 matrices of the inverse tests, and their grids after columns 0 and 1: the last row vanishes. */
  const Nine: Grid := [[1.0, 2.0, 3.0], [4.0, 5.0, 6.0], [7.0, 8.0, 9.0]]
  const NineAfter0: Grid := [[1.0, 2.0, 3.0], [0.0, -3.0, -6.0], [0.0, -6.0, -12.0]]
  const NineAfter1: Grid := NineAfter0[2 := [0.0, 0.0, 0.0]]
  const Flat: Grid := [[1.0, 4.0, 1.0], [3.0, 7.0, 2.0], [3.0, 2.0, 1.0]]
  const FlatAfter0: Grid := [[1.0, 4.0, 1.0], [0.0, -5.0, -1.0], [0.0, -10.0, -2.0]]
  const FlatAfter1: Grid := FlatAfter0[2 := [0.0, 0.0, 0.0]]

  /** The last pass of a 3 x 3 elimination whose last row is 0: no swap, no change. */
  lemma LastPassOfZeroRow(g: Grid)
    requires Square(g) && |g| == 3 && g[2] == [0.0, 0.0, 0.0]
    ensures TriangulateFrom(State(g, 0), 2) == State(g, 0)
  {
    assert SwapBelow(State(g, 0), 2, 3) == State(g, 0);
    assert PivotColumn(State(g, 0), 2) == State(g, 0);
    assert TriangulateFrom(State(g, 0), 3) == State(g, 0);
  }

  /** [[1, 2, 3], [4, 5, 6], [7, 8, 9]]: row 1 gains -4 and row 2 -7 times row 0, then row 2 gains -2 times row 1. */
  lemma NineTriangulation()
    ensures Square(Nine) && Triangulation(Nine) == State(NineAfter1, 0)
  {
    var a1 := Nine[1 := NineAfter0[1]];
    RowStep(Nine, 1, 0, NineAfter0[1]);
    RowStep(a1, 2, 0, NineAfter0[2]);
    assert a1[2 := NineAfter0[2]] == NineAfter0;
    assert PivotColumn(State(Nine, 0), 0) == State(NineAfter0, 0);
    RowStep(NineAfter0, 2, 1, NineAfter1[2]);
    assert PivotColumn(State(NineAfter0, 0), 1) == State(NineAfter1, 0);
    LastPassOfZeroRow(NineAfter1);
    assert TriangulateFrom(State(NineAfter0, 0), 1) == State(NineAfter1, 0);
  }

  /** [[1, 4, 1], [3, 7, 2], [3, 2, 1]]: rows 1 and 2 gain -3 times row 0, then row 2 gains -2 times row 1. */
  lemma FlatTriangulation()
    ensures Square(Flat) && Triangulation(Flat) == State(FlatAfter1, 0)
  {
    var a1 := Flat[1 := FlatAfter0[1]];
    RowStep(Flat, 1, 0, FlatAfter0[1]);
    RowStep(a1, 2, 0, FlatAfter0[2]);
    assert a1[2 := FlatAfter0[2]] == FlatAfter0;
    assert PivotColumn(State(Flat, 0), 0) == State(FlatAfter0, 0);
    RowStep(FlatAfter0, 2, 1, FlatAfter1[2]);
    assert PivotColumn(State(FlatAfter0, 0), 1) == State(FlatAfter1, 0);
    LastPassOfZeroRow(FlatAfter1);
    assert TriangulateFrom(State(FlatAfter0, 0), 1) == State(FlatAfter1, 0);
  }

  /** [[1, 2, 3], [4, 5, 6], [7, 8, 9]] is singular: InverseMatrix refuses it. */
  lemma InverseOfNineIsRefused()
    ensures Inverse(Nine) == Failure(Singular)
  {
    NineTriangulation();
    assert Triangulation(Nine).grid[2][2] == 0.0;
  }

  /** [[1, 4, 1], [3, 7, 2], [3, 2, 1]] has determinant exactly 0, and InverseMatrix refuses it. */
  lemma FlatIsSingular()
    ensures Determinant(Flat) == Success(0.0)
    ensures Inverse(Flat) == Failure(Singular)
  {
    FlatTriangulation();
    assert Triangulation(Flat).grid[2][2] == 0.0;
  }

  /** Determinant of [[1.1, 3.5], [-2, 4]] is 11.4. */
  lemma DeterminantOfTwoByTwo()
    ensures Determinant([[1.1, 3.5], [-2.0, 4.0]]) == Success(11.4)
  {
    DetOfTwo(1.1, 3.5, -2.0, 4.0);
  }

  /** [[3, 2], [-6.6, 0]] times [[-7, 0], [-3.5, 2]] is [[-28, 4], [46.2, 0]]. */
  lemma ProductOfTwoByTwo()
    ensures MulAsWritten([[3.0, 2.0], [-6.6, 0.0]], [[-7.0, 0.0], [-3.5, 2.0]])
      == Success([[-28.0, 4.0], [46.2, 0.0]])
  {
    var a, b := [[3.0, 2.0], [-6.6, 0.0]], [[-7.0, 0.0], [-3.5, 2.0]];
    assert Dot(a, b, 0, 0, 1) == -21.0 && Dot(a, b, 0, 0, 2) == -28.0;
    assert Dot(a, b, 0, 1, 1) == 0.0 && Dot(a, b, 0, 1, 2) == 4.0;
    assert Dot(a, b, 1, 0, 1) == 46.2 && Dot(a, b, 1, 0, 2) == 46.2;
    assert Dot(a, b, 1, 1, 1) == 0.0 && Dot(a, b, 1, 1, 2) == 0.0;
    var r := MulAsWritten(a, b).value;
    assert r[0] == [-28.0, 4.0];
    assert r[1] == [46.2, 0.0];
    assert r == [[-28.0, 4.0], [46.2, 0.0]];
  }

  /** A 2 x 3 matrix times a 2 x 2 one is refused: the width is not the other's height. */
  lemma ProductShapeMismatch()
    ensures MulAsWritten(Zero(2, 3), Zero(2, 2)) == Failure(ShapeMismatch)
  {
  }

  /** The inverse of [2] is [0.5]. */
  lemma InverseOfTwoIsHalf()
    ensures Inverse([[2.0]]) == Success([[0.5]])
  {
    InverseIsReciprocal([[2.0]]);
  }

  /** The empty matrix has no transpose. */
  lemma EmptyHasNoTranspose()
    ensures Transpose([]) == Failure(InvalidDimension)
  {
  }

  /** The empty matrix has no cofactor matrix. */
  lemma EmptyHasNoComplements()
    ensures CalcComplements([]) == Failure(InvalidDimension)
  {
  }

  /** The empty matrix has no determinant. */
  lemma EmptyHasNoDeterminant()
    ensures Determinant([]) == Failure(InvalidDimension)
  {
  }

  /** A 4 x 3 matrix has no determinant. */
  lemma NonSquareHasNoDeterminant()
    ensures Determinant(Zero(4, 3)) == Failure(NotSquare)
  {
  }
}
