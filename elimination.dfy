/**
  The elimination engine behind Determinant, stated on values: Triangulate's
  Gaussian elimination of a copy of the matrix (the pivot search with Sdvig,
  the row operations with SumStr), the number of row swaps it counts, and the
  determinant read off its result. The lemmas give what the algorithm itself
  guarantees: zeros below every pivot, how many swaps the pivot search makes,
  that an upper-triangular matrix is left alone, and small cases worked out.
 */
module Elimination {
  import opened Errors
  import opened Grids

  /** The working copy during Triangulate, and how many row swaps (Sdvig calls) it has made. */
  datatype State = State(grid: Grid, swaps: nat)

  /** A square matrix; the determinant engine is only ever run on one. */
  predicate Square(g: Grid) { Rect(g) && IsSquare(g) }

  /** Cells below the diagonal are 0 in every column before m. */
  predicate ZeroBelowUpTo(g: Grid, m: nat)
    requires Square(g) && m <= |g|
  {
    forall r, c :: 0 <= c < m && c < r < |g| ==> g[r][c] == 0.0
  }

  /** Every cell below the diagonal is 0. */
  predicate UpperTriangular(g: Grid)
    requires Square(g)
  {
    forall r, c :: 0 <= c < r < |g| ==> g[r][c] == 0.0
  }

  /** Sdvig(i, j): rows i and j exchange places. */
  function SwapRows(g: Grid, i: nat, j: nat): (r: Grid)
    requires i < |g| && j < |g|
    ensures |r| == |g| && r[i] == g[j] && r[j] == g[i]
    ensures forall k :: 0 <= k < |g| && k != i && k != j ==> r[k] == g[k]
    ensures Square(g) ==> Square(r)
  {
    g[i := g[j]][j := g[i]]
  }

  /** SumStr(row, ro, k): row `row` gains k times row `ro`; no other row changes. */
  function AddScaledRow(g: Grid, row: nat, ro: nat, k: real): (r: Grid)
    requires Square(g) && row < |g| && ro < |g|
    ensures Square(r) && |r| == |g|
    ensures forall x :: 0 <= x < |g| && x != row ==> r[x] == g[x]
    ensures forall c :: 0 <= c < |g| ==> r[row][c] == g[row][c] + g[ro][c] * k
  {
    g[row := seq(|g|, c requires 0 <= c < |g| => g[row][c] + g[ro][c] * k)]
  }

  /**
    The multiplier Triangulate hands to SumStr for row j and pivot row i:
    -g[j][i] / g[i][i]. Where the pivot is 0 the source divides by zero; here
    the multiplier is 0 instead (see the Findings in the README).
   */
  function Factor(g: Grid, j: nat, i: nat): (k: real)
    requires Square(g) && i < |g| && j < |g|
    ensures g[i][i] != 0.0 ==> g[j][i] + g[i][i] * k == 0.0
    ensures g[i][i] == 0.0 ==> k == 0.0
  {
    if g[i][i] == 0.0 then 0.0 else -g[j][i] / g[i][i]
  }

  /**
    Triangulate's pivot search in column i, from row j on: every row whose
    cell in column i is nonzero is swapped into row i, one after the other,
    without stopping at the first; each swap is counted.
   */
  function SwapBelow(s: State, i: nat, j: nat): (r: State)
    requires Square(s.grid) && i < j <= |s.grid|
    ensures Square(r.grid) && |r.grid| == |s.grid| && r.swaps >= s.swaps
    decreases |s.grid| - j
  {
    if j == |s.grid| then s
    else if s.grid[j][i] != 0.0 then SwapBelow(State(SwapRows(s.grid, j, i), s.swaps + 1), i, j + 1)
    else SwapBelow(s, i, j + 1)
  }

  /** Triangulate's elimination loop in column i, from row j on: SumStr(j, i, Factor) for each row below. */
  function EliminateBelow(g: Grid, i: nat, j: nat): (r: Grid)
    requires Square(g) && i < j <= |g|
    ensures Square(r) && |r| == |g|
    decreases |g| - j
  {
    if j == |g| then g else EliminateBelow(AddScaledRow(g, j, i, Factor(g, j, i)), i, j + 1)
  }

  /** One pass of Triangulate's outer loop: the pivot search when the pivot is 0, then the elimination. */
  function PivotColumn(s: State, i: nat): (r: State)
    requires Square(s.grid) && i < |s.grid|
    ensures Square(r.grid) && |r.grid| == |s.grid|
  {
    var t := if s.grid[i][i] == 0.0 then SwapBelow(s, i, i + 1) else s;
    State(EliminateBelow(t.grid, i, i + 1), t.swaps)
  }

  /** Triangulate's outer loop from column i on. */
  function TriangulateFrom(s: State, i: nat): (r: State)
    requires Square(s.grid) && i <= |s.grid|
    ensures Square(r.grid) && |r.grid| == |s.grid|
    decreases |s.grid| - i
  {
    if i == |s.grid| then s else TriangulateFrom(PivotColumn(s, i), i + 1)
  }

  /** Triangulate: the eliminated copy, and the number of row swaps it took. */
  function Triangulation(g: Grid): (r: State)
    requires Square(g)
    ensures Square(r.grid) && |r.grid| == |g|
  {
    TriangulateFrom(State(g, 0), 0)
  }

  /** The product of the first n diagonal cells. */
  function DiagProduct(g: Grid, n: nat): (r: real)
    requires Square(g) && n <= |g|
    ensures r == 0.0 <==> exists k :: 0 <= k < n && g[k][k] == 0.0
  {
    if n == 0 then 1.0 else DiagProduct(g, n - 1) * g[n - 1][n - 1]
  }

  /** (-1) to the power of the swap count. */
  function Sign(swaps: nat): (r: real)
    ensures r == 1.0 || r == -1.0
    ensures r == 1.0 <==> swaps % 2 == 0
  {
    if swaps % 2 == 0 then 1.0 else -1.0
  }

  /** The determinant: the sign of the swap count times the product of the triangulated diagonal. */
  function Det(g: Grid): (r: real)
    requires Square(g)
    ensures r == 0.0 <==> exists k :: 0 <= k < |g| && Triangulation(g).grid[k][k] == 0.0
    ensures Abs(r) == Abs(DiagProduct(Triangulation(g).grid, |g|))
  {
    var t := Triangulation(g);
    Sign(t.swaps) * DiagProduct(t.grid, |g|)
  }

  /** Determinant with its checks: CheckMistakes2(1) refuses an empty matrix, CheckMistakes2(2) a non-square one. */
  function Determinant(g: Grid): (r: Result<real>)
    requires WellFormed(g)
    ensures r.Success? <==> !IsEmpty(g) && IsSquare(g)
    ensures r.Failure? ==> r.error == if IsEmpty(g) then InvalidDimension else NotSquare
  {
    if IsEmpty(g) then Failure(InvalidDimension)
    else if !IsSquare(g) then Failure(NotSquare)
    else Success(Det(g))
  }

  // ---------------------------------------------------------------------------
  // Zeros below every pivot
  // ---------------------------------------------------------------------------

  lemma SwapRowsKeepsZeroBelow(g: Grid, m: nat, a: nat, b: nat)
    requires Square(g) && m <= |g| && ZeroBelowUpTo(g, m)
    requires m <= a < |g| && m <= b < |g|
    ensures ZeroBelowUpTo(SwapRows(g, a, b), m)
  {
    var r := SwapRows(g, a, b);
    forall x, c | 0 <= c < m && c < x < |g| ensures r[x][c] == 0.0 {
      if x == a {
        assert r[x] == g[b];
      } else if x == b {
        assert r[x] == g[a];
      }
    }
  }

  lemma AddScaledRowKeepsZeroBelow(g: Grid, i: nat, j: nat, k: real)
    requires Square(g) && i < j < |g| && ZeroBelowUpTo(g, i)
    ensures ZeroBelowUpTo(AddScaledRow(g, j, i, k), i)
  {
    var r := AddScaledRow(g, j, i, k);
    forall x, c | 0 <= c < i && c < x < |g| ensures r[x][c] == 0.0 {
      if x == j {
        assert r[x][c] == g[j][c] + g[i][c] * k;
      }
    }
  }

  /**
    The pivot search leaves the columns before i cleared, and afterwards the
    pivot is nonzero unless column i is 0 below it.
   */
  lemma {:induction false} SwapBelowLeavesPivot(s: State, i: nat, j: nat)
    requires Square(s.grid) && i < j <= |s.grid| && ZeroBelowUpTo(s.grid, i)
    requires s.grid[i][i] != 0.0 || forall r :: i < r < j ==> s.grid[r][i] == 0.0
    ensures var t := SwapBelow(s, i, j);
      ZeroBelowUpTo(t.grid, i) &&
      (t.grid[i][i] != 0.0 || forall r :: i < r < |s.grid| ==> t.grid[r][i] == 0.0)
    decreases |s.grid| - j
  {
    if j < |s.grid| {
      if s.grid[j][i] != 0.0 {
        var g := SwapRows(s.grid, j, i);
        SwapRowsKeepsZeroBelow(s.grid, i, j, i);
        assert g[i][i] == s.grid[j][i];
        SwapBelowLeavesPivot(State(g, s.swaps + 1), i, j + 1);
      } else {
        SwapBelowLeavesPivot(s, i, j + 1);
      }
    }
  }

  /** The elimination in column i clears it below the pivot and keeps the earlier columns clear. */
  lemma {:induction false} EliminateBelowClears(g: Grid, i: nat, j: nat)
    requires Square(g) && i < j <= |g| && ZeroBelowUpTo(g, i)
    requires forall r :: i < r < j ==> g[r][i] == 0.0
    requires g[i][i] != 0.0 || forall r :: j <= r < |g| ==> g[r][i] == 0.0
    ensures ZeroBelowUpTo(EliminateBelow(g, i, j), i + 1)
    decreases |g| - j
  {
    if j == |g| {
    } else {
      var f := Factor(g, j, i);
      var h := AddScaledRow(g, j, i, f);
      AddScaledRowKeepsZeroBelow(g, i, j, f);
      assert h[i] == g[i];
      assert h[j][i] == 0.0 by {
        assert h[j][i] == g[j][i] + g[i][i] * f;
        if g[i][i] != 0.0 {
          assert g[i][i] * (-g[j][i] / g[i][i]) == -g[j][i];
        }
      }
      EliminateBelowClears(h, i, j + 1);
    }
  }

  lemma PivotColumnClears(s: State, i: nat)
    requires Square(s.grid) && i < |s.grid| && ZeroBelowUpTo(s.grid, i)
    ensures ZeroBelowUpTo(PivotColumn(s, i).grid, i + 1)
  {
    var t := if s.grid[i][i] == 0.0 then SwapBelow(s, i, i + 1) else s;
    SwapBelowLeavesPivot(s, i, i + 1);
    EliminateBelowClears(t.grid, i, i + 1);
  }

  lemma {:induction false} TriangulateFromClears(s: State, i: nat)
    requires Square(s.grid) && i <= |s.grid| && ZeroBelowUpTo(s.grid, i)
    ensures UpperTriangular(TriangulateFrom(s, i).grid)
    decreases |s.grid| - i
  {
    if i < |s.grid| {
      PivotColumnClears(s, i);
      TriangulateFromClears(PivotColumn(s, i), i + 1);
    }
  }

  /** Triangulate leaves zeros below every diagonal cell. */
  lemma TriangulationIsUpperTriangular(g: Grid)
    requires Square(g)
    ensures UpperTriangular(Triangulation(g).grid)
  {
    TriangulateFromClears(State(g, 0), 0);
  }

  // ---------------------------------------------------------------------------
  // The pivot search and its swap count
  // ---------------------------------------------------------------------------

  /** How many of the rows from j on have a nonzero cell in column i. */
  function NonzeroFrom(g: Grid, i: nat, j: nat): nat
    requires Square(g) && i < |g| && j <= |g|
    decreases |g| - j
  {
    if j == |g| then 0 else (if g[j][i] != 0.0 then 1 else 0) + NonzeroFrom(g, i, j + 1)
  }

  lemma {:induction false} NonzeroFromOnlyReadsBelow(g: Grid, h: Grid, i: nat, j: nat)
    requires Square(g) && Square(h) && |g| == |h| && i < |g| && j <= |g|
    requires forall r :: j <= r < |g| ==> g[r] == h[r]
    ensures NonzeroFrom(g, i, j) == NonzeroFrom(h, i, j)
    decreases |g| - j
  {
    if j < |g| {
      NonzeroFromOnlyReadsBelow(g, h, i, j + 1);
    }
  }

  /** The pivot search swaps once for every row below whose cell in column i is nonzero. */
  lemma {:induction false} SwapBelowCount(s: State, i: nat, j: nat)
    requires Square(s.grid) && i < j <= |s.grid|
    ensures SwapBelow(s, i, j).swaps == s.swaps + NonzeroFrom(s.grid, i, j)
    decreases |s.grid| - j
  {
    if j < |s.grid| {
      if s.grid[j][i] != 0.0 {
        var g := SwapRows(s.grid, j, i);
        SwapBelowCount(State(g, s.swaps + 1), i, j + 1);
        NonzeroFromOnlyReadsBelow(g, s.grid, i, j + 1);
      } else {
        SwapBelowCount(s, i, j + 1);
      }
    }
  }

  lemma {:induction false} NoNonzeroMeansNoSwap(s: State, i: nat, j: nat)
    requires Square(s.grid) && i < j <= |s.grid|
    requires NonzeroFrom(s.grid, i, j) == 0
    ensures SwapBelow(s, i, j) == s
    ensures forall r :: j <= r < |s.grid| ==> s.grid[r][i] == 0.0
    decreases |s.grid| - j
  {
    if j < |s.grid| {
      NoNonzeroMeansNoSwap(s, i, j + 1);
    }
  }

  /**
    A zero pivot with a nonzero cell somewhere below it is replaced by a
    nonzero one; with none below, nothing is swapped. Either way the count
    grows by the number of nonzero cells below.
   */
  lemma PivotSearch(s: State, i: nat)
    requires Square(s.grid) && i < |s.grid| && s.grid[i][i] == 0.0
    ensures var t := SwapBelow(s, i, i + 1);
      && t.swaps == s.swaps + NonzeroFrom(s.grid, i, i + 1)
      && (t.grid[i][i] != 0.0 <==> exists r :: i < r < |s.grid| && s.grid[r][i] != 0.0)
      && (t.grid[i][i] == 0.0 ==> t == s)
  {
    var t := SwapBelow(s, i, i + 1);
    SwapBelowCount(s, i, i + 1);
    if NonzeroFrom(s.grid, i, i + 1) == 0 {
      NoNonzeroMeansNoSwap(s, i, i + 1);
    } else {
      assert t.swaps > s.swaps;
      SwapBelowNonzeroPivot(s, i, i + 1);
      var r :| i < r < |s.grid| && s.grid[r][i] != 0.0 by {
        NonzeroWitness(s.grid, i, i + 1);
      }
    }
  }

  lemma {:induction false} NonzeroWitness(g: Grid, i: nat, j: nat)
    requires Square(g) && i < |g| && j <= |g| && NonzeroFrom(g, i, j) > 0
    ensures exists r :: j <= r < |g| && g[r][i] != 0.0
    decreases |g| - j
  {
    if g[j][i] == 0.0 {
      NonzeroWitness(g, i, j + 1);
    }
  }

  /** Once a swap has been made in column i, the pivot is nonzero. */
  lemma {:induction false} SwapBelowNonzeroPivot(s: State, i: nat, j: nat)
    requires Square(s.grid) && i < j <= |s.grid|
    ensures var t := SwapBelow(s, i, j); t.swaps > s.swaps ==> t.grid[i][i] != 0.0
    ensures var t := SwapBelow(s, i, j); s.grid[i][i] != 0.0 ==> t.grid[i][i] != 0.0
    decreases |s.grid| - j
  {
    if j < |s.grid| {
      if s.grid[j][i] != 0.0 {
        var g := SwapRows(s.grid, j, i);
        assert g[i][i] != 0.0;
        SwapBelowNonzeroPivot(State(g, s.swaps + 1), i, j + 1);
      } else {
        SwapBelowNonzeroPivot(s, i, j + 1);
      }
    }
  }

  // ---------------------------------------------------------------------------
  // An upper-triangular matrix is left alone
  // ---------------------------------------------------------------------------

  lemma {:induction false} SwapBelowOfUpper(s: State, i: nat, j: nat)
    requires Square(s.grid) && i < j <= |s.grid| && UpperTriangular(s.grid)
    ensures SwapBelow(s, i, j) == s
    decreases |s.grid| - j
  {
    if j < |s.grid| {
      SwapBelowOfUpper(s, i, j + 1);
    }
  }

  lemma AddScaledRowByZero(g: Grid, row: nat, ro: nat)
    requires Square(g) && row < |g| && ro < |g|
    ensures AddScaledRow(g, row, ro, 0.0) == g
  {
    var r := AddScaledRow(g, row, ro, 0.0);
    assert r[row] == g[row];
    assert r == g;
  }

  lemma {:induction false} EliminateBelowOfUpper(g: Grid, i: nat, j: nat)
    requires Square(g) && i < j <= |g| && UpperTriangular(g)
    ensures EliminateBelow(g, i, j) == g
    decreases |g| - j
  {
    if j < |g| {
      assert Factor(g, j, i) == 0.0;
      AddScaledRowByZero(g, j, i);
      EliminateBelowOfUpper(g, i, j + 1);
    }
  }

  lemma {:induction false} TriangulateFromOfUpper(s: State, i: nat)
    requires Square(s.grid) && i <= |s.grid| && UpperTriangular(s.grid)
    ensures TriangulateFrom(s, i) == s
    decreases |s.grid| - i
  {
    if i < |s.grid| {
      if s.grid[i][i] == 0.0 {
        SwapBelowOfUpper(s, i, i + 1);
      }
      EliminateBelowOfUpper(s.grid, i, i + 1);
      assert PivotColumn(s, i) == s;
      TriangulateFromOfUpper(s, i + 1);
    }
  }

  /** Triangulate changes nothing in an upper-triangular matrix and swaps no rows. */
  lemma TriangulationOfUpper(g: Grid)
    requires Square(g) && UpperTriangular(g)
    ensures Triangulation(g) == State(g, 0)
  {
    TriangulateFromOfUpper(State(g, 0), 0);
  }

  /** Triangulating twice is triangulating once: the second run swaps nothing and changes nothing. */
  lemma TriangulationIdempotent(g: Grid)
    requires Square(g)
    ensures var t := Triangulation(g).grid; Triangulation(t) == State(t, 0)
  {
    TriangulationIsUpperTriangular(g);
    TriangulationOfUpper(Triangulation(g).grid);
  }

  /** The determinant of an upper-triangular matrix is the product of its diagonal. */
  lemma DetOfUpper(g: Grid)
    requires Square(g) && UpperTriangular(g)
    ensures Det(g) == DiagProduct(g, |g|)
  {
    TriangulationOfUpper(g);
  }

  /** The diagonal of the identity holds only ones, so every partial diagonal product is 1. */
  lemma {:induction false} DiagProductOfIdentity(n: nat, k: nat)
    requires k <= n
    ensures DiagProduct(Identity(n), k) == 1.0
  {
    if k > 0 {
      DiagProductOfIdentity(n, k - 1);
    }
  }

  /** The identity has determinant 1. */
  lemma DetOfIdentity(n: nat)
    ensures Det(Identity(n)) == 1.0
  {
    DetOfUpper(Identity(n));
    DiagProductOfIdentity(n, n);
  }

  // ---------------------------------------------------------------------------
  // A zero column, and small cases
  // ---------------------------------------------------------------------------

  predicate ColumnZero(g: Grid, c: nat)
    requires Rect(g) && c < Width(g)
  {
    forall r :: 0 <= r < |g| ==> g[r][c] == 0.0
  }

  lemma {:induction false} SwapBelowKeepsColumnZero(s: State, i: nat, j: nat, c: nat)
    requires Square(s.grid) && i < j <= |s.grid| && c < |s.grid| && ColumnZero(s.grid, c)
    ensures ColumnZero(SwapBelow(s, i, j).grid, c)
    decreases |s.grid| - j
  {
    if j < |s.grid| {
      if s.grid[j][i] != 0.0 {
        SwapBelowKeepsColumnZero(State(SwapRows(s.grid, j, i), s.swaps + 1), i, j + 1, c);
      } else {
        SwapBelowKeepsColumnZero(s, i, j + 1, c);
      }
    }
  }

  lemma {:induction false} EliminateBelowKeepsColumnZero(g: Grid, i: nat, j: nat, c: nat)
    requires Square(g) && i < j <= |g| && c < |g| && ColumnZero(g, c)
    ensures ColumnZero(EliminateBelow(g, i, j), c)
    decreases |g| - j
  {
    if j < |g| {
      var h := AddScaledRow(g, j, i, Factor(g, j, i));
      assert h[j][c] == 0.0;
      EliminateBelowKeepsColumnZero(h, i, j + 1, c);
    }
  }

  lemma {:induction false} TriangulateFromKeepsColumnZero(s: State, i: nat, c: nat)
    requires Square(s.grid) && i <= |s.grid| && c < |s.grid| && ColumnZero(s.grid, c)
    ensures ColumnZero(TriangulateFrom(s, i).grid, c)
    decreases |s.grid| - i
  {
    if i < |s.grid| {
      var t := if s.grid[i][i] == 0.0 then SwapBelow(s, i, i + 1) else s;
      SwapBelowKeepsColumnZero(s, i, i + 1, c);
      EliminateBelowKeepsColumnZero(t.grid, i, i + 1, c);
      TriangulateFromKeepsColumnZero(PivotColumn(s, i), i + 1, c);
    }
  }
  /** A matrix with a column of zeros has determinant 0. */
  lemma DetOfZeroColumn(g: Grid, c: nat)
    requires Square(g) && c < |g| && ColumnZero(g, c)
    ensures Det(g) == 0.0
  {
    var t := Triangulation(g);
    TriangulateFromKeepsColumnZero(State(g, 0), 0, c);
    assert t.grid[c][c] == 0.0;
  }

  /** The determinant of a 1 x 1 matrix is its one element. */
  lemma DetOfOne(g: Grid)
    requires Square(g) && |g| == 1
    ensures Det(g) == g[0][0]
  {
    var s := State(g, 0);
    assert SwapBelow(s, 0, 1) == s;
    assert EliminateBelow(g, 0, 1) == g;
    assert PivotColumn(s, 0) == s;
    assert TriangulateFrom(s, 1) == s;
    assert Triangulation(g) == s;
    assert DiagProduct(g, 1) == DiagProduct(g, 0) * g[0][0];
  }

  /** Elimination computes a*d - b*c for a 2 x 2 matrix, whichever pivot case it takes. */
  lemma DetOfTwo(a: real, b: real, c: real, d: real)
    ensures Square([[a, b], [c, d]]) && Det([[a, b], [c, d]]) == a * d - b * c
  {
    if a != 0.0 {
      DetOfTwoNonzeroPivot(a, b, c, d);
    } else if c != 0.0 {
      DetOfTwoSwapped(b, c, d);
    } else {
      DetOfZeroColumn([[a, b], [c, d]], 0);
    }
  }

  /** A nonzero pivot: row 1 gains -c/a times row 0, and the diagonal is a, d - b*c/a. */
  lemma DetOfTwoNonzeroPivot(a: real, b: real, c: real, d: real)
    requires a != 0.0
    ensures Square([[a, b], [c, d]]) && Det([[a, b], [c, d]]) == a * d - b * c
  {
    var g := [[a, b], [c, d]];
    var h := AddScaledRow(g, 1, 0, -c / a);
    assert EliminateBelow(g, 0, 1) == EliminateBelow(h, 0, 2) == h;
    assert PivotColumn(State(g, 0), 0) == State(h, 0);
    assert h[1][1] == d - b * c / a;
    TriangulationOfSecond(h, 0);
    assert Triangulation(g) == State(h, 0);
    assert h[0] == g[0];
    assert DiagProduct(h, 1) == a;
    assert DiagProduct(h, 2) == a * (d - b * c / a);
    assert a * (d - b * c / a) == a * d - b * c;
  }

  /** A zero pivot over a nonzero cell: the rows swap once, and the diagonal is c, b with the sign flipped. */
  lemma DetOfTwoSwapped(b: real, c: real, d: real)
    requires c != 0.0
    ensures Square([[0.0, b], [c, d]]) && Det([[0.0, b], [c, d]]) == -(b * c)
  {
    var g := [[0.0, b], [c, d]];
    var sw := SwapRows(g, 1, 0);
    assert sw == [[c, d], [0.0, b]];
    assert SwapBelow(State(g, 0), 0, 1) == SwapBelow(State(sw, 1), 0, 2) == State(sw, 1);
    AddScaledRowByZero(sw, 1, 0);
    assert EliminateBelow(sw, 0, 1) == EliminateBelow(AddScaledRow(sw, 1, 0, Factor(sw, 1, 0)), 0, 2) == sw;
    assert PivotColumn(State(g, 0), 0) == State(sw, 1);
    TriangulationOfSecond(sw, 1);
    assert Triangulation(g) == State(sw, 1);
    assert DiagProduct(sw, 1) == c;
    assert DiagProduct(sw, 2) == c * b;
  }

  /** For a 2 x 2 matrix whose first column is done, the second pass changes nothing. */
  lemma TriangulationOfSecond(g: Grid, swaps: nat)
    requires Square(g) && |g| == 2
    ensures var t := TriangulateFrom(State(g, swaps), 1); t == State(g, swaps)
  {
    var s := State(g, swaps);
    assert SwapBelow(s, 1, 2) == s;
    assert EliminateBelow(g, 1, 2) == g;
    assert PivotColumn(s, 1) == s;
  }

  // ---------------------------------------------------------------------------
  // Triangulate as written: the division by a zero pivot
  // ---------------------------------------------------------------------------

  /**
    The elimination loop as the source writes it: it always divides by the
    pivot, so with a zero pivot and a row below it, it divides by zero (the
    double arithmetic then yields NaN). None marks that division.
   */
  function EliminateBelowAsWritten(g: Grid, i: nat, j: nat): (r: Option<Grid>)
    requires Square(g) && i < j <= |g|
    ensures r.Some? ==> Square(r.value) && |r.value| == |g|
    decreases |g| - j
  {
    if j == |g| then Some(g)
    else if g[i][i] == 0.0 then None
    else EliminateBelowAsWritten(AddScaledRow(g, j, i, -g[j][i] / g[i][i]), i, j + 1)
  }

  function TriangulateFromAsWritten(s: State, i: nat): (r: Option<State>)
    requires Square(s.grid) && i <= |s.grid|
    ensures r.Some? ==> Square(r.value.grid) && |r.value.grid| == |s.grid|
    decreases |s.grid| - i
  {
    if i == |s.grid| then Some(s)
    else
      var t := if s.grid[i][i] == 0.0 then SwapBelow(s, i, i + 1) else s;
      match EliminateBelowAsWritten(t.grid, i, i + 1)
      case None => None
      case Some(h) => TriangulateFromAsWritten(State(h, t.swaps), i + 1)
  }

  /** Triangulate as written; None when it divides by zero. */
  function TriangulationAsWritten(g: Grid): (r: Option<State>)
    requires Square(g)
  {
    TriangulateFromAsWritten(State(g, 0), 0)
  }

  datatype Option<T> = None | Some(value: T)

  lemma {:induction false} EliminateBelowAsWrittenAgrees(g: Grid, i: nat, j: nat)
    requires Square(g) && i < j <= |g|
    requires EliminateBelowAsWritten(g, i, j).Some?
    ensures EliminateBelowAsWritten(g, i, j).value == EliminateBelow(g, i, j)
    decreases |g| - j
  {
    if j < |g| {
      EliminateBelowAsWrittenAgrees(AddScaledRow(g, j, i, Factor(g, j, i)), i, j + 1);
    }
  }

  lemma {:induction false} TriangulateFromAsWrittenAgrees(s: State, i: nat)
    requires Square(s.grid) && i <= |s.grid|
    requires TriangulateFromAsWritten(s, i).Some?
    ensures TriangulateFromAsWritten(s, i).value == TriangulateFrom(s, i)
    decreases |s.grid| - i
  {
    if i < |s.grid| {
      var t := if s.grid[i][i] == 0.0 then SwapBelow(s, i, i + 1) else s;
      EliminateBelowAsWrittenAgrees(t.grid, i, i + 1);
      TriangulateFromAsWrittenAgrees(PivotColumn(s, i), i + 1);
    }
  }

  /** Wherever the source's Triangulate does not divide by zero, the guarded one computes the same thing. */
  lemma TriangulationAsWrittenAgrees(g: Grid)
    requires Square(g) && TriangulationAsWritten(g).Some?
    ensures TriangulationAsWritten(g).value == Triangulation(g)
  {
    TriangulateFromAsWrittenAgrees(State(g, 0), 0);
  }

  /**
    [[0, 0], [0, 1]]: the pivot is 0 and so is the cell below it, so the
    source divides 0 by 0 and its determinant is NaN; the intended value,
    which the guarded elimination gives, is 0.
   */
  lemma ZeroColumnDividesByZero()
    ensures Square([[0.0, 0.0], [0.0, 1.0]])
    ensures TriangulationAsWritten([[0.0, 0.0], [0.0, 1.0]]).None?
    ensures Det([[0.0, 0.0], [0.0, 1.0]]) == 0.0
  {
    var g := [[0.0, 0.0], [0.0, 1.0]];
    assert SwapBelow(State(g, 0), 0, 1) == SwapBelow(State(g, 0), 0, 2) == State(g, 0);
    DetOfZeroColumn(g, 0);
  }

  /** The source's elimination divides by zero only when the pivot is 0. */
  lemma {:induction false} EliminateBelowAsWrittenFails(g: Grid, i: nat, j: nat)
    requires Square(g) && i < j <= |g| && EliminateBelowAsWritten(g, i, j).None?
    ensures g[i][i] == 0.0
    decreases |g| - j
  {
    if g[i][i] != 0.0 {
      var h := AddScaledRow(g, j, i, -g[j][i] / g[i][i]);
      EliminateBelowAsWrittenFails(h, i, j + 1);
    }
  }

  /** The elimination from row j on changes no row above j. */
  lemma {:induction false} EliminateBelowKeepsUpperRows(g: Grid, i: nat, j: nat)
    requires Square(g) && i < j <= |g|
    ensures forall r :: 0 <= r < j ==> EliminateBelow(g, i, j)[r] == g[r]
    decreases |g| - j
  {
    if j < |g| {
      EliminateBelowKeepsUpperRows(AddScaledRow(g, j, i, Factor(g, j, i)), i, j + 1);
    }
  }

  /** The pivot search in column i changes no row above row i. */
  lemma {:induction false} SwapBelowKeepsUpperRows(s: State, i: nat, j: nat)
    requires Square(s.grid) && i < j <= |s.grid|
    ensures forall r :: 0 <= r < i ==> SwapBelow(s, i, j).grid[r] == s.grid[r]
    decreases |s.grid| - j
  {
    if j < |s.grid| {
      if s.grid[j][i] != 0.0 {
        SwapBelowKeepsUpperRows(State(SwapRows(s.grid, j, i), s.swaps + 1), i, j + 1);
      } else {
        SwapBelowKeepsUpperRows(s, i, j + 1);
      }
    }
  }

  /** Once pass i is over, no later pass touches rows 0 to i: Triangulate from column i on keeps the rows above i. */
  lemma {:induction false} TriangulateFromKeepsUpperRows(s: State, i: nat)
    requires Square(s.grid) && i <= |s.grid|
    ensures forall r :: 0 <= r < i ==> TriangulateFrom(s, i).grid[r] == s.grid[r]
    decreases |s.grid| - i
  {
    if i < |s.grid| {
      var t := if s.grid[i][i] == 0.0 then SwapBelow(s, i, i + 1) else s;
      SwapBelowKeepsUpperRows(s, i, i + 1);
      EliminateBelowKeepsUpperRows(t.grid, i, i + 1);
      TriangulateFromKeepsUpperRows(PivotColumn(s, i), i + 1);
    }
  }

  /**
    Wherever the source's Triangulate divides by zero, the pivot of that pass
    is 0, and the guarded elimination leaves that 0 on the diagonal.
   */
  lemma {:induction false} TriangulateFromAsWrittenFails(s: State, i: nat)
    requires Square(s.grid) && i <= |s.grid| && TriangulateFromAsWritten(s, i).None?
    ensures exists k :: i <= k < |s.grid| && TriangulateFrom(s, i).grid[k][k] == 0.0
    decreases |s.grid| - i
  {
    var t := if s.grid[i][i] == 0.0 then SwapBelow(s, i, i + 1) else s;
    var p := PivotColumn(s, i);
    EliminateBelowKeepsUpperRows(t.grid, i, i + 1);
    assert p.grid[i] == t.grid[i];
    match EliminateBelowAsWritten(t.grid, i, i + 1)
    case None =>
      EliminateBelowAsWrittenFails(t.grid, i, i + 1);
      TriangulateFromKeepsUpperRows(p, i + 1);
      assert TriangulateFrom(s, i).grid[i][i] == 0.0;
    case Some(h) =>
      EliminateBelowAsWrittenAgrees(t.grid, i, i + 1);
      assert State(h, t.swaps) == p;
      TriangulateFromAsWrittenFails(p, i + 1);
  }

  /**
    Every matrix on which the source's Triangulate divides by zero has
    determinant 0: the correct answer there is 0, where the source's is NaN.
   */
  lemma AsWrittenFailureMeansZeroDet(g: Grid)
    requires Square(g) && TriangulationAsWritten(g).None?
    ensures Det(g) == 0.0
  {
    TriangulateFromAsWrittenFails(State(g, 0), 0);
  }
}
