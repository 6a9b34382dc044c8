/**
  The cells of an S21Matrix as a value, and the operations of the class that
  only map or combine cells, stated on that value: sum, difference, scaling,
  transpose, product, tolerant equality and resizing. The class in
  s21_matrix.dfy runs the source's loops and is proved to produce exactly
  these values; the lemmas here are what those values satisfy.
 */
module Grids {
  import opened Errors

  /** The buffer matrix_, row by row: g[i][j] is matrix_[i][j]. */
  type Grid = seq<seq<real>>

  /** EqMatrix treats two cells as equal when they differ by at most 1e-6. */
  const EqualityTolerance: real := 0.000001

  function Abs(x: real): real { if x < 0.0 then -x else x }

  /** The number of columns, read off the first row. */
  function Width(g: Grid): nat { if |g| == 0 then 0 else |g[0]| }

  /** Every row has the same length. */
  predicate Rect(g: Grid) { forall i :: 0 <= i < |g| ==> |g[i]| == Width(g) }

  /** The shapes an S21Matrix can have: rows x cols with both at least 1, or 0 x 0. */
  predicate WellFormed(g: Grid) { Rect(g) && (|g| > 0 ==> Width(g) > 0) }

  /** rows_ < 1 || cols_ < 1, for a well-formed grid. */
  predicate IsEmpty(g: Grid) { |g| == 0 }

  predicate SameShape(a: Grid, b: Grid) { |a| == |b| && Width(a) == Width(b) }

  predicate IsSquare(g: Grid) { Width(g) == |g| }

  /** The buffer MallocMatrix allocates (value-initialised) and ZeroMatrix writes. */
  function Zero(r: nat, c: nat): (z: Grid)
    ensures |z| == r && Rect(z) && (r > 0 ==> Width(z) == c)
    ensures forall i, j :: 0 <= i < r && 0 <= j < c ==> |z[i]| == c && z[i][j] == 0.0
  {
    seq(r, _ => seq(c, _ => 0.0))
  }

  /** The n x n identity, for stating what an inverse is. */
  function Identity(n: nat): (e: Grid)
    ensures |e| == n && Rect(e) && IsSquare(e)
  {
    seq(n, i => seq(n, j => if i == j then 1.0 else 0.0))
  }

  // ---------------------------------------------------------------------------
  // Sum, difference, scaling
  // ---------------------------------------------------------------------------

  /**
    SumMatrix on values: CheckMistakes(other, 1) rejects an empty operand,
    CheckMistakes(other, 2) a different shape, and only then are cells added.
   */
  function Add(a: Grid, b: Grid): (r: Result<Grid>)
    requires WellFormed(a) && WellFormed(b)
    ensures r.Success? <==> !IsEmpty(a) && !IsEmpty(b) && SameShape(a, b)
    ensures r.Failure? ==> r.error == if IsEmpty(a) || IsEmpty(b) then InvalidDimension else DimensionMismatch
    ensures r.Success? ==> WellFormed(r.value) && SameShape(r.value, a)
  {
    if IsEmpty(a) || IsEmpty(b) then Failure(InvalidDimension)
    else if !SameShape(a, b) then Failure(DimensionMismatch)
    else Success(seq(|a|, i requires 0 <= i < |a| =>
                   seq(Width(a), j requires 0 <= j < Width(a) => a[i][j] + b[i][j])))
  }

  /** SubMatrix on values: the same checks as Add, then the cell-wise difference. */
  function Sub(a: Grid, b: Grid): (r: Result<Grid>)
    requires WellFormed(a) && WellFormed(b)
    ensures r.Success? <==> !IsEmpty(a) && !IsEmpty(b) && SameShape(a, b)
    ensures r.Failure? ==> r.error == if IsEmpty(a) || IsEmpty(b) then InvalidDimension else DimensionMismatch
    ensures r.Success? ==> WellFormed(r.value) && SameShape(r.value, a)
  {
    if IsEmpty(a) || IsEmpty(b) then Failure(InvalidDimension)
    else if !SameShape(a, b) then Failure(DimensionMismatch)
    else Success(seq(|a|, i requires 0 <= i < |a| =>
                   seq(Width(a), j requires 0 <= j < Width(a) => a[i][j] - b[i][j])))
  }

  /** MulNumber on values: CheckMistakes2(1) rejects an empty receiver, then every cell is scaled. */
  function Scale(a: Grid, k: real): (r: Result<Grid>)
    requires WellFormed(a)
    ensures r.Success? <==> !IsEmpty(a)
    ensures r.Failure? ==> r.error == InvalidDimension
    ensures r.Success? ==> WellFormed(r.value) && SameShape(r.value, a)
  {
    if IsEmpty(a) then Failure(InvalidDimension)
    else Success(Scaled(a, k))
  }

  /** Every cell multiplied by k, with no check. */
  function Scaled(a: Grid, k: real): (r: Grid)
    requires Rect(a)
    ensures |r| == |a| && Rect(r) && Width(r) == Width(a)
    ensures forall i, j :: 0 <= i < |a| && 0 <= j < Width(a) ==> r[i][j] == a[i][j] * k
  {
    seq(|a|, i requires 0 <= i < |a| => seq(Width(a), j requires 0 <= j < Width(a) => a[i][j] * k))
  }

  /** The sum and the difference commute with their checks: a + b and b + a fail alike or agree. */
  lemma AddCommutes(a: Grid, b: Grid)
    requires WellFormed(a) && WellFormed(b)
    ensures Add(a, b) == Add(b, a)
  {
    if Add(a, b).Success? {
      var s, t := Add(a, b).value, Add(b, a).value;
      assert |s| == |t|;
      forall i | 0 <= i < |s| ensures s[i] == t[i] {
        assert |s[i]| == |t[i]|;
        forall j | 0 <= j < |s[i]| ensures s[i][j] == t[i][j] {
          assert s[i][j] == a[i][j] + b[i][j];
        }
      }
      assert s == t;
    }
  }

  /** (A + B) - B == A, exactly, for every pair SumMatrix accepts. */
  lemma SubUndoesAdd(a: Grid, b: Grid)
    requires WellFormed(a) && WellFormed(b)
    requires Add(a, b).Success?
    ensures Sub(Add(a, b).value, b) == Success(a)
  {
    var s := Add(a, b).value;
    var d := Sub(s, b).value;
    assert |d| == |a|;
    forall i | 0 <= i < |a| ensures d[i] == a[i] {
      assert |d[i]| == |a[i]|;
      forall j | 0 <= j < |a[i]| ensures d[i][j] == a[i][j] {
        assert d[i][j] == (a[i][j] + b[i][j]) - b[i][j];
      }
    }
    assert d == a;
  }

  /** (A * k1) * k2 == A * (k1 * k2). */
  lemma ScaleTwice(a: Grid, k1: real, k2: real)
    requires WellFormed(a) && !IsEmpty(a)
    ensures Scale(Scale(a, k1).value, k2) == Scale(a, k1 * k2)
  {
    var s := Scale(Scale(a, k1).value, k2).value;
    var t := Scale(a, k1 * k2).value;
    forall i | 0 <= i < |a| ensures s[i] == t[i] {
      assert |s[i]| == |t[i]|;
      forall j | 0 <= j < Width(a) ensures s[i][j] == t[i][j] {
        assert s[i][j] == (a[i][j] * k1) * k2;
        assert t[i][j] == a[i][j] * (k1 * k2);
      }
    }
    assert s == t;
  }

  // ---------------------------------------------------------------------------
  // Transpose
  // ---------------------------------------------------------------------------

  /** The cols x rows grid with cell (i, j) taken from (j, i). */
  function Transposed(g: Grid): (t: Grid)
    requires Rect(g)
    ensures |t| == Width(g) && Rect(t) && (|t| > 0 ==> Width(t) == |g|)
    ensures forall i, j :: 0 <= i < |g| && 0 <= j < Width(g) ==> t[j][i] == g[i][j]
  {
    seq(Width(g), i requires 0 <= i < Width(g) => seq(|g|, j requires 0 <= j < |g| => g[j][i]))
  }

  /** Transpose on values: CheckMistakes2(1) rejects an empty receiver. */
  function Transpose(g: Grid): (r: Result<Grid>)
    requires WellFormed(g)
    ensures r.Success? <==> !IsEmpty(g)
    ensures r.Failure? ==> r.error == InvalidDimension
    ensures r.Success? ==> WellFormed(r.value) && |r.value| == Width(g) && Width(r.value) == |g|
  {
    if IsEmpty(g) then Failure(InvalidDimension) else Success(Transposed(g))
  }

  /** Transposing twice gives the matrix back. */
  lemma TransposeInvolutive(g: Grid)
    requires WellFormed(g)
    ensures Transposed(Transposed(g)) == g
  {
    var t := Transposed(Transposed(g));
    assert |t| == |g|;
    forall i | 0 <= i < |g| ensures t[i] == g[i] {
      assert |t[i]| == |g[i]|;
      forall j | 0 <= j < |g[i]| ensures t[i][j] == g[i][j] {
      }
    }
  }

  // ---------------------------------------------------------------------------
  // Product
  // ---------------------------------------------------------------------------

  /** The running sum res of MulMatrix's inner loop: a(i,0)*b(0,j) + ... + a(i,n-1)*b(n-1,j). */
  function Dot(a: Grid, b: Grid, i: nat, j: nat, n: nat): real
    requires Rect(a) && Rect(b)
    requires i < |a| && j < Width(b) && n <= Width(a) && n <= |b|
  {
    if n == 0 then 0.0 else Dot(a, b, i, j, n - 1) + a[i][n - 1] * b[n - 1][j]
  }

  /** A row of a or a column of b that is 0 in its first n cells makes the dot product 0. */
  lemma {:induction false} DotOfZeros(a: Grid, b: Grid, i: nat, j: nat, n: nat)
    requires Rect(a) && Rect(b)
    requires i < |a| && j < Width(b) && n <= Width(a) && n <= |b|
    ensures (forall k :: 0 <= k < n ==> a[i][k] == 0.0) ==> Dot(a, b, i, j, n) == 0.0
    ensures (forall k :: 0 <= k < n ==> b[k][j] == 0.0) ==> Dot(a, b, i, j, n) == 0.0
  {
    if n > 0 {
      DotOfZeros(a, b, i, j, n - 1);
    }
  }

  /** The matrix product: rows(a) x cols(b), cell (i, j) the dot product of row i and column j. */
  function Product(a: Grid, b: Grid): (p: Grid)
    requires Rect(a) && Rect(b) && Width(a) == |b|
    ensures |p| == |a| && Rect(p) && (|p| > 0 ==> Width(p) == Width(b))
  {
    seq(|a|, i requires 0 <= i < |a| =>
      seq(Width(b), j requires 0 <= j < Width(b) => Dot(a, b, i, j, Width(a))))
  }

  /** When MulMatrix's checks pass, it writes only columns below other.cols into a rows x cols temporary. */
  predicate MulInBounds(a: Grid, b: Grid) {
    !IsEmpty(a) && !IsEmpty(b) && Width(a) == |b| ==> Width(b) <= Width(a)
  }

  /**
    MulMatrix on values, as the source writes it: CheckMistakes(other, 1)
    rejects an empty operand, CheckMistakes(other, 3) a width that is not the
    other's height; the result then keeps the receiver's rows x cols shape,
    and its columns from other.cols on stay 0.
   */
  function MulAsWritten(a: Grid, b: Grid): (r: Result<Grid>)
    requires WellFormed(a) && WellFormed(b) && MulInBounds(a, b)
    ensures r.Success? <==> !IsEmpty(a) && !IsEmpty(b) && Width(a) == |b|
    ensures r.Failure? ==> r.error == if IsEmpty(a) || IsEmpty(b) then InvalidDimension else ShapeMismatch
    ensures r.Success? ==> WellFormed(r.value) && SameShape(r.value, a)
  {
    if IsEmpty(a) || IsEmpty(b) then Failure(InvalidDimension)
    else if Width(a) != |b| then Failure(ShapeMismatch)
    else Success(seq(|a|, i requires 0 <= i < |a| =>
                   seq(Width(a), j requires 0 <= j < Width(a) =>
                     if j < Width(b) then Dot(a, b, i, j, Width(a)) else 0.0)))
  }

  /**
    What MulMatrix computes, against the matrix product: the first other.cols
    columns are the product's, the rest are 0, and the two agree exactly when
    other.cols == cols (every square product, in particular).
   */
  lemma MulAsWrittenIsProduct(a: Grid, b: Grid)
    requires WellFormed(a) && WellFormed(b) && MulInBounds(a, b)
    requires !IsEmpty(a) && !IsEmpty(b) && Width(a) == |b|
    ensures var r := MulAsWritten(a, b).value;
      forall i, j :: 0 <= i < |a| && 0 <= j < Width(a) ==>
        r[i][j] == if j < Width(b) then Product(a, b)[i][j] else 0.0
    ensures MulAsWritten(a, b) == Success(Product(a, b)) <==> Width(b) == Width(a)
  {
    var r := MulAsWritten(a, b).value;
    var p := Product(a, b);
    if Width(b) == Width(a) {
      forall i | 0 <= i < |a| ensures r[i] == p[i] {
        assert |r[i]| == |p[i]|;
        forall j | 0 <= j < |r[i]| ensures r[i][j] == p[i][j] {
          assert r[i][j] == Dot(a, b, i, j, Width(a));
        }
      }
      assert r == p;
    } else {
      assert |r[0]| != |p[0]|;
    }
  }

  /** Dot product against a column of the identity picks out one cell. */
  lemma {:induction false} DotIdentity(a: Grid, i: nat, j: nat, n: nat)
    requires Rect(a) && i < |a| && j < Width(a) && n <= Width(a)
    ensures Dot(a, Identity(Width(a)), i, j, n) == if j < n then a[i][j] else 0.0
  {
    if n > 0 {
      DotIdentity(a, i, j, n - 1);
    }
  }

  /** A * I == A. */
  lemma ProductIdentityRight(a: Grid)
    requires WellFormed(a)
    ensures Product(a, Identity(Width(a))) == a
  {
    var p := Product(a, Identity(Width(a)));
    forall i | 0 <= i < |a| ensures p[i] == a[i] {
      forall j | 0 <= j < Width(a) ensures p[i][j] == a[i][j] {
        DotIdentity(a, i, j, Width(a));
      }
    }
  }

  /** For row i of a and column j of c: the sum over k < m of a(i,k) * (b x c)(k, j), with the inner sum cut at n. */
  ghost function RowTimesDots(a: Grid, b: Grid, c: Grid, i: nat, j: nat, m: nat, n: nat): real
    requires Rect(a) && Rect(b) && Rect(c)
    requires i < |a| && j < Width(c) && m <= Width(a) && m <= |b| && n <= Width(b) && n <= |c|
  {
    if m == 0 then 0.0 else RowTimesDots(a, b, c, i, j, m - 1, n) + a[i][m - 1] * Dot(b, c, m - 1, j, n)
  }

  /** With an empty inner sum every term is 0. */
  lemma {:induction false} RowTimesDotsOfNone(a: Grid, b: Grid, c: Grid, i: nat, j: nat, m: nat)
    requires Rect(a) && Rect(b) && Rect(c)
    requires i < |a| && j < Width(c) && m <= Width(a) && m <= |b|
    ensures RowTimesDots(a, b, c, i, j, m, 0) == 0.0
  {
    if m > 0 {
      RowTimesDotsOfNone(a, b, c, i, j, m - 1);
    }
  }

  /** The rearrangement behind one step of the exchange of sums. */
  lemma Regroup(s: real, d: real, x: real, y: real, u: real, v: real)
    ensures (s + d * v) + x * (y + u * v) == (s + x * y) + (d + x * u) * v
  {
  }

  /** Lengthening every inner sum by the term for n adds (a x b)(i, n) * c(n, j). */
  lemma {:induction false} RowTimesDotsStep(a: Grid, b: Grid, c: Grid, i: nat, j: nat, m: nat, n: nat)
    requires Rect(a) && Rect(b) && Rect(c)
    requires i < |a| && j < Width(c) && m <= Width(a) && m <= |b| && n < Width(b) && n < |c|
    ensures RowTimesDots(a, b, c, i, j, m, n + 1) == RowTimesDots(a, b, c, i, j, m, n) + Dot(a, b, i, n, m) * c[n][j]
  {
    if m > 0 {
      RowTimesDotsStep(a, b, c, i, j, m - 1, n);
      Regroup(RowTimesDots(a, b, c, i, j, m - 1, n), Dot(a, b, i, n, m - 1),
        a[i][m - 1], Dot(b, c, m - 1, j, n), b[m - 1][n], c[n][j]);
    }
  }

  /**
    The exchange of the two sums: when row i of ab holds the dot products of
    row i of a with the columns of b, summing ab(i, l) * c(l, j) over l < n is
    summing a(i, k) * (b x c)(k, j) over k, inner sums cut at n.
   */
  lemma {:induction false} DotOfProductRow(ab: Grid, a: Grid, b: Grid, c: Grid, i: nat, j: nat, n: nat)
    requires Rect(ab) && Rect(a) && Rect(b) && Rect(c)
    requires Width(a) == |b| && Width(b) == |c| && i < |a| && i < |ab| && j < Width(c)
    requires n <= |c| && n <= Width(ab)
    requires forall l :: 0 <= l < n ==> ab[i][l] == Dot(a, b, i, l, Width(a))
    ensures Dot(ab, c, i, j, n) == RowTimesDots(a, b, c, i, j, Width(a), n)
  {
    if n == 0 {
      RowTimesDotsOfNone(a, b, c, i, j, Width(a));
    } else {
      DotOfProductRow(ab, a, b, c, i, j, n - 1);
      RowTimesDotsStep(a, b, c, i, j, Width(a), n - 1);
    }
  }

  /** The same sum read the other way: it is the dot product of row i of a with column j of b x c. */
  lemma {:induction false} RowTimesDotsIsDot(a: Grid, b: Grid, c: Grid, i: nat, j: nat, m: nat)
    requires WellFormed(a) && WellFormed(b) && WellFormed(c) && !IsEmpty(b) && !IsEmpty(c)
    requires Width(a) == |b| && Width(b) == |c| && i < |a| && j < Width(c) && m <= |b|
    ensures RowTimesDots(a, b, c, i, j, m, Width(b)) == Dot(a, Product(b, c), i, j, m)
  {
    if m > 0 {
      RowTimesDotsIsDot(a, b, c, i, j, m - 1);
    }
  }

  /** The matrix product is associative: (a x b) x c == a x (b x c). */
  lemma ProductAssociative(a: Grid, b: Grid, c: Grid)
    requires WellFormed(a) && WellFormed(b) && WellFormed(c) && !IsEmpty(a) && !IsEmpty(b) && !IsEmpty(c)
    requires Width(a) == |b| && Width(b) == |c|
    ensures Product(Product(a, b), c) == Product(a, Product(b, c))
  {
    var l, r := Product(Product(a, b), c), Product(a, Product(b, c));
    forall i | 0 <= i < |a| ensures l[i] == r[i] {
      forall j | 0 <= j < Width(c) ensures l[i][j] == r[i][j] {
        DotOfProductRow(Product(a, b), a, b, c, i, j, |c|);
        RowTimesDotsIsDot(a, b, c, i, j, |b|);
      }
    }
  }

  // ---------------------------------------------------------------------------
  // Equality with tolerance
  // ---------------------------------------------------------------------------

  /** EqMatrix: the same shape, and no pair of cells more than 1e-6 apart. */
  predicate ApproxEqual(a: Grid, b: Grid)
    requires Rect(a) && Rect(b)
  {
    SameShape(a, b) &&
    forall i, j :: 0 <= i < |a| && 0 <= j < Width(a) ==> Abs(a[i][j] - b[i][j]) <= EqualityTolerance
  }

  lemma ApproxEqualReflexive(a: Grid)
    requires Rect(a)
    ensures ApproxEqual(a, a)
  {
    assert Abs(0.0) == 0.0;
    assert forall i, j :: 0 <= i < |a| && 0 <= j < Width(a) ==> a[i][j] - a[i][j] == 0.0;
  }

  lemma ApproxEqualSymmetric(a: Grid, b: Grid)
    requires Rect(a) && Rect(b)
    ensures ApproxEqual(a, b) <==> ApproxEqual(b, a)
  {
    if ApproxEqual(a, b) {
      forall i, j | 0 <= i < |b| && 0 <= j < Width(b) ensures Abs(b[i][j] - a[i][j]) <= EqualityTolerance {
        assert Abs(a[i][j] - b[i][j]) <= EqualityTolerance;
      }
    }
    if ApproxEqual(b, a) {
      forall i, j | 0 <= i < |a| && 0 <= j < Width(a) ensures Abs(a[i][j] - b[i][j]) <= EqualityTolerance {
        assert Abs(b[i][j] - a[i][j]) <= EqualityTolerance;
      }
    }
  }

  /** The tolerance makes EqMatrix intransitive: 0 ~ 1e-6 and 1e-6 ~ 2e-6, but not 0 ~ 2e-6. */
  lemma ApproxEqualNotTransitive()
    ensures ApproxEqual([[0.0]], [[0.000001]]) && ApproxEqual([[0.000001]], [[0.000002]])
    ensures !ApproxEqual([[0.0]], [[0.000002]])
  {
    assert Abs([[0.0]][0][0] - [[0.000002]][0][0]) > EqualityTolerance;
  }

  // ---------------------------------------------------------------------------
  // Resizing
  // ---------------------------------------------------------------------------

  /**
    SetRows on values: n < 1 is refused, and so is an empty receiver (the new
    buffer would have 0 columns, which MallocMatrix refuses). The first
    min(n, rows) rows are kept and any new row is 0.
   */
  function ResizeRows(g: Grid, n: int): (r: Result<Grid>)
    requires WellFormed(g)
    ensures r.Success? <==> n >= 1 && !IsEmpty(g)
    ensures r.Failure? ==> r.error == InvalidDimension
    ensures r.Success? ==> WellFormed(r.value) && |r.value| == n && Width(r.value) == Width(g)
  {
    if n < 1 then Failure(InvalidDimension)
    else if Width(g) < 1 then Failure(InvalidDimension)
    else Success(seq(n, i requires 0 <= i < n =>
                   seq(Width(g), j requires 0 <= j < Width(g) => if i < |g| then g[i][j] else 0.0)))
  }

  /** SetCols on values: the same, with the roles of rows and columns exchanged. */
  function ResizeCols(g: Grid, n: int): (r: Result<Grid>)
    requires WellFormed(g)
    ensures r.Success? <==> n >= 1 && !IsEmpty(g)
    ensures r.Failure? ==> r.error == InvalidDimension
    ensures r.Success? ==> WellFormed(r.value) && |r.value| == |g| && Width(r.value) == n
  {
    if n < 1 then Failure(InvalidDimension)
    else if |g| < 1 then Failure(InvalidDimension)
    else Success(seq(|g|, i requires 0 <= i < |g| =>
                   seq(n, j requires 0 <= j < n => if j < Width(g) then g[i][j] else 0.0)))
  }

  /** Growing the row count and shrinking it back restores the matrix. */
  lemma ResizeRowsRoundTrip(g: Grid, n: int)
    requires WellFormed(g) && !IsEmpty(g) && n >= |g|
    ensures ResizeRows(ResizeRows(g, n).value, |g|) == Success(g)
  {
    var r := ResizeRows(ResizeRows(g, n).value, |g|).value;
    forall i | 0 <= i < |g| ensures r[i] == g[i] {
      assert |r[i]| == |g[i]|;
      forall j | 0 <= j < |g[i]| ensures r[i][j] == g[i][j] {
      }
    }
    assert r == g;
  }

  /** Growing the column count and shrinking it back restores the matrix. */
  lemma ResizeColsRoundTrip(g: Grid, n: int)
    requires WellFormed(g) && !IsEmpty(g) && n >= Width(g)
    ensures ResizeCols(ResizeCols(g, n).value, Width(g)) == Success(g)
  {
    var r := ResizeCols(ResizeCols(g, n).value, Width(g)).value;
    forall i | 0 <= i < |g| ensures r[i] == g[i] {
      assert |r[i]| == |g[i]|;
      forall j | 0 <= j < |g[i]| ensures r[i][j] == g[i][j] {
      }
    }
    assert r == g;
  }

  /** Shrinking the row count and growing it back keeps the surviving rows and zero-fills the dropped ones. */
  lemma ResizeRowsShrinkThenGrow(g: Grid, n: int)
    requires WellFormed(g) && 1 <= n <= |g|
    ensures var r := ResizeRows(ResizeRows(g, n).value, |g|).value;
      SameShape(r, g) &&
      forall i, j :: 0 <= i < |g| && 0 <= j < Width(g) ==> r[i][j] == if i < n then g[i][j] else 0.0
  {
  }

  /** Shrinking the column count and growing it back keeps the surviving columns and zero-fills the dropped ones. */
  lemma ResizeColsShrinkThenGrow(g: Grid, n: int)
    requires WellFormed(g) && 1 <= n <= Width(g)
    ensures var r := ResizeCols(ResizeCols(g, n).value, Width(g)).value;
      SameShape(r, g) &&
      forall i, j :: 0 <= i < |g| && 0 <= j < Width(g) ==> r[i][j] == if j < n then g[i][j] else 0.0
  {
  }
}
