/**
  Minors, the cofactor matrix (CalcComplements) and the inverse
  (InverseMatrix), stated on values. The determinant they use is the one the
  elimination engine computes.
 */
module Cofactors {
  import opened Errors
  import opened Grids
  import opened Elimination

  /** InverseMatrix refuses a matrix whose determinant is below 1e-7 in magnitude. */
  const SingularityThreshold: real := 0.0000001

  /** Index i of a minor, as an index of the matrix it is cut from when line x is removed. */
  function Skip(i: nat, x: nat): nat { if i >= x then i + 1 else i }

  /** The other way: where index p of the matrix lands in the minor that drops line x. */
  function Unskip(p: nat, x: nat): nat { if p > x then p - 1 else p }

  /** Minor(x, y): the (n-1) x (n-1) matrix left when row x and column y are removed. */
  function MinorOf(g: Grid, x: nat, y: nat): (m: Grid)
    requires Square(g) && x < |g| && y < |g|
    ensures Square(m) && |m| == |g| - 1
  {
    seq(|g| - 1, i requires 0 <= i < |g| - 1 =>
      seq(|g| - 1, j requires 0 <= j < |g| - 1 => g[Skip(i, x)][Skip(j, y)]))
  }

  /** Skip and Unskip are inverse: no index of the minor maps onto the removed line x. */
  lemma SkipUnskip(n: nat, x: nat)
    requires x < n
    ensures forall i: nat :: i < n - 1 ==> Skip(i, x) < n && Skip(i, x) != x && Unskip(Skip(i, x), x) == i
    ensures forall p: nat :: p < n && p != x ==> Unskip(p, x) < n - 1 && Skip(Unskip(p, x), x) == p
  {
  }

  /** Every cell outside row x and column y appears in the minor, at the place Unskip gives. */
  lemma MinorKeepsCell(g: Grid, x: nat, y: nat, p: nat, q: nat)
    requires Square(g) && x < |g| && y < |g|
    requires p < |g| && q < |g| && p != x && q != y
    ensures Unskip(p, x) < |g| - 1 && Unskip(q, y) < |g| - 1
    ensures MinorOf(g, x, y)[Unskip(p, x)][Unskip(q, y)] == g[p][q]
  {
    SkipUnskip(|g|, x);
    SkipUnskip(|g|, y);
  }

  /** The minor of the transpose is the transpose of the minor, with the removed row and column exchanged. */
  lemma MinorOfTransposed(g: Grid, x: nat, y: nat)
    requires Square(g) && x < |g| && y < |g|
    ensures Square(Transposed(g)) && MinorOf(Transposed(g), y, x) == Transposed(MinorOf(g, x, y))
  {
    var t := Transposed(g);
    var a := MinorOf(t, y, x);
    var b := Transposed(MinorOf(g, x, y));
    assert |a| == |b|;
    forall i | 0 <= i < |a| ensures a[i] == b[i] {
      assert |a[i]| == |b[i]|;
    }
  }

  /** pow(-1.0, i + j): +1 on cells whose coordinates sum to an even number, -1 elsewhere. */
  function CofactorSign(i: nat, j: nat): (r: real)
    ensures r == 1.0 || r == -1.0
    ensures r == 1.0 <==> (i + j) % 2 == 0
  {
    if (i + j) % 2 == 0 then 1.0 else -1.0
  }

  /** The cofactor matrix: cell (i, j) is the signed determinant of the minor without row i and column j. */
  function Complements(g: Grid): (c: Grid)
    requires Square(g)
    ensures Square(c) && |c| == |g|
  {
    seq(|g|, i requires 0 <= i < |g| =>
      seq(|g|, j requires 0 <= j < |g| => CofactorSign(i, j) * Det(MinorOf(g, i, j))))
  }

  /** Cell (i, j) of the cofactor matrix is (-1)^(i+j) times the determinant of minor (i, j). */
  lemma CofactorCell(g: Grid, i: nat, j: nat)
    requires Square(g) && i < |g| && j < |g|
    ensures Complements(g)[i][j] == CofactorSign(i, j) * Det(MinorOf(g, i, j))
  {
  }

  /**
    CalcComplements with its checks: CheckMistakes2(1) refuses an empty
    matrix, CheckMistakes2(2) a non-square one, and a 1 x 1 matrix fails when
    its 0 x 0 minor is allocated.
   */
  function CalcComplements(g: Grid): (r: Result<Grid>)
    requires WellFormed(g)
    ensures r.Success? <==> IsSquare(g) && |g| >= 2
    ensures r.Failure? ==> r.error == if !IsEmpty(g) && !IsSquare(g) then NotSquare else InvalidDimension
    ensures r.Success? ==> WellFormed(r.value) && SameShape(r.value, g)
  {
    if IsEmpty(g) then Failure(InvalidDimension)
    else if !IsSquare(g) then Failure(NotSquare)
    else if |g| == 1 then Failure(InvalidDimension)
    else Success(Complements(g))
  }

  /** The cofactor signs form a checkerboard: neighbours along a row or a column have opposite signs. */
  lemma CofactorSignCheckerboard(i: nat, j: nat)
    ensures CofactorSign(i, j) == CofactorSign(j, i)
    ensures CofactorSign(i + 1, j) == -CofactorSign(i, j)
    ensures CofactorSign(i, j + 1) == -CofactorSign(i, j)
    ensures CofactorSign(i, i) == 1.0
  {
  }

  /**
    InverseMatrix on values: an empty matrix is refused (CheckMistakes2(1)),
    a non-square one fails in Determinant, a determinant below 1e-7 in
    magnitude is refused; otherwise the adjugate (the transposed cofactor
    matrix) is scaled by 1/det, and a 1 x 1 matrix is inverted directly.
   */
  function Inverse(g: Grid): (r: Result<Grid>)
    requires WellFormed(g)
    ensures r.Success? <==> !IsEmpty(g) && IsSquare(g) && Abs(Det(g)) >= SingularityThreshold
    ensures r.Failure? ==>
      r.error == if IsEmpty(g) then InvalidDimension else if !IsSquare(g) then NotSquare else Singular
    ensures r.Success? ==> WellFormed(r.value) && SameShape(r.value, g)
  {
    if IsEmpty(g) then Failure(InvalidDimension)
    else if !IsSquare(g) then Failure(NotSquare)
    else if Abs(Det(g)) < SingularityThreshold then Failure(Singular)
    else if |g| > 1 then Success(Scaled(Transposed(Complements(g)), 1.0 / Det(g)))
    else
      DetOfOne(g);
      Success([[1.0 / g[0][0]]])
  }

  /** When InverseMatrix's checks pass on a 1 x 1 matrix, the inverse holds the reciprocal of its element. */
  lemma InverseIsReciprocal(g: Grid)
    requires WellFormed(g) && |g| == 1 && IsSquare(g) && Abs(g[0][0]) >= SingularityThreshold
    ensures Inverse(g) == Success([[1.0 / g[0][0]]])
  {
    DetOfOne(g);
  }

  /** When InverseMatrix's checks pass on a matrix larger than 1 x 1, the inverse is the adjugate over the determinant. */
  lemma InverseIsScaledAdjugate(g: Grid)
    requires WellFormed(g) && IsSquare(g) && |g| > 1 && Abs(Det(g)) >= SingularityThreshold
    ensures Inverse(g) == Success(Scaled(Transposed(Complements(g)), 1.0 / Det(g)))
  {
  }

  /** A minor of a 2 x 2 matrix is the 1 x 1 matrix holding the cell opposite the removed one. */
  lemma MinorOfTwo(g: Grid, x: nat, y: nat, v: real)
    requires Square(g) && |g| == 2 && x < 2 && y < 2 && v == g[1 - x][1 - y]
    ensures MinorOf(g, x, y) == [[v]]
  {
    var m := MinorOf(g, x, y);
    assert m[0][0] == v;
    assert m[0] == [v];
  }

  /** The determinant of a minor of a 2 x 2 matrix is the cell opposite the removed one. */
  lemma MinorDetOfTwo(g: Grid, x: nat, y: nat, v: real)
    requires Square(g) && |g| == 2 && x < 2 && y < 2 && v == g[1 - x][1 - y]
    ensures Det(MinorOf(g, x, y)) == v
  {
    MinorOfTwo(g, x, y, v);
    DetOfOne([[v]]);
  }

  /** The cofactor matrix of [[a, b], [c, d]] is [[d, -c], [-b, a]]. */
  lemma ComplementsOfTwo(a: real, b: real, c: real, d: real)
    ensures Square([[a, b], [c, d]])
    ensures Complements([[a, b], [c, d]]) == [[d, -c], [-b, a]]
  {
    var g := [[a, b], [c, d]];
    var k := Complements(g);
    CofactorOfTwo(g, 0, 0, d);
    CofactorOfTwo(g, 0, 1, c);
    CofactorOfTwo(g, 1, 0, b);
    CofactorOfTwo(g, 1, 1, a);
    assert k[0] == [d, -c];
    assert k[1] == [-b, a];
  }

  /** Cofactor (x, y) of a 2 x 2 matrix is the cell opposite, with the checkerboard sign. */
  lemma CofactorOfTwo(g: Grid, x: nat, y: nat, v: real)
    requires Square(g) && |g| == 2 && x < 2 && y < 2 && v == g[1 - x][1 - y]
    ensures Complements(g)[x][y] == CofactorSign(x, y) * v
  {
    CofactorCell(g, x, y);
    MinorDetOfTwo(g, x, y, v);
  }

  /** Dot products of length 2, written out. */
  lemma DotOfTwo(a: Grid, b: Grid, i: nat, j: nat)
    requires Rect(a) && Rect(b) && Width(a) == 2 && |b| == 2 && i < |a| && j < Width(b)
    ensures Dot(a, b, i, j, 2) == a[i][0] * b[0][j] + a[i][1] * b[1][j]
  {
    assert Dot(a, b, i, j, 1) == a[i][0] * b[0][j];
  }

  /** Multiplying by 1/D is dividing by D. */
  lemma ScaleByReciprocal(x: real, D: real)
    requires D != 0.0
    ensures x * (1.0 / D) == x / D
  {
  }

  /** The inverse of an invertible [[a, b], [c, d]] is [[d, -b], [-c, a]] divided by ad - bc. */
  lemma InverseOfTwoValue(a: real, b: real, c: real, d: real)
    requires Abs(a * d - b * c) >= SingularityThreshold
    ensures var g := [[a, b], [c, d]]; var D := a * d - b * c;
      && WellFormed(g) && Inverse(g).Success?
      && var m := Inverse(g).value;
      && |m| == 2 && |m[0]| == 2 && |m[1]| == 2
      && m[0][0] == d / D && m[0][1] == -b / D
      && m[1][0] == -c / D && m[1][1] == a / D
  {
    var g := [[a, b], [c, d]];
    var D := a * d - b * c;
    DetOfTwo(a, b, c, d);
    InverseIsScaledAdjugate(g);
    ComplementsOfTwo(a, b, c, d);
    AdjugateOverDeterminant(a, b, c, d, D, Inverse(g).value);
  }

  /** The cells of the adjugate [[d, -b], [-c, a]] scaled by 1/D. */
  lemma AdjugateOverDeterminant(a: real, b: real, c: real, d: real, D: real, m: Grid)
    requires D != 0.0 && m == Scaled(Transposed([[d, -c], [-b, a]]), 1.0 / D)
    ensures |m| == 2 && |m[0]| == 2 && |m[1]| == 2
    ensures m[0][0] == d / D && m[0][1] == -b / D && m[1][0] == -c / D && m[1][1] == a / D
  {
    var cof := [[d, -c], [-b, a]];
    assert m[0][0] == cof[0][0] * (1.0 / D) == d * (1.0 / D);
    assert m[0][1] == cof[1][0] * (1.0 / D) == -b * (1.0 / D);
    assert m[1][0] == cof[0][1] * (1.0 / D) == -c * (1.0 / D);
    assert m[1][1] == cof[1][1] * (1.0 / D) == a * (1.0 / D);
    ScaleByReciprocal(d, D);
    ScaleByReciprocal(-b, D);
    ScaleByReciprocal(-c, D);
    ScaleByReciprocal(a, D);
  }

  /** The four dot products of [[a, b], [c, d]] with the adjugate over D = ad - bc. */
  lemma CrossTerms(a: real, b: real, c: real, d: real, D: real)
    requires D == a * d - b * c && D != 0.0
    ensures a * (d / D) + b * (-c / D) == 1.0
    ensures a * (-b / D) + b * (a / D) == 0.0
    ensures c * (d / D) + d * (-c / D) == 0.0
    ensures c * (-b / D) + d * (a / D) == 1.0
  {
    assert a * (d / D) + b * (-c / D) == (a * d - b * c) / D;
    assert c * (-b / D) + d * (a / D) == (a * d - b * c) / D;
  }

  /** [[a, b], [c, d]] times [[d, -b], [-c, a]] / (ad - bc) is the identity whenever ad - bc is not zero. */
  lemma AdjugateProductOfTwo(a: real, b: real, c: real, d: real, inv: Grid)
    requires a * d - b * c != 0.0
    requires |inv| == 2 && |inv[0]| == 2 && |inv[1]| == 2
    requires var D := a * d - b * c;
      && inv[0][0] == d / D && inv[0][1] == -b / D
      && inv[1][0] == -c / D && inv[1][1] == a / D
    ensures Rect(inv) && Product([[a, b], [c, d]], inv) == Identity(2)
  {
    var D := a * d - b * c;
    var g := [[a, b], [c, d]];
    var p := Product(g, inv);
    DotOfTwo(g, inv, 0, 0);
    DotOfTwo(g, inv, 0, 1);
    DotOfTwo(g, inv, 1, 0);
    DotOfTwo(g, inv, 1, 1);
    CrossTerms(a, b, c, d, D);
    assert p[0][0] == 1.0 && p[0][1] == 0.0;
    assert p[1][0] == 0.0 && p[1][1] == 1.0;
    assert p[0] == [1.0, 0.0];
    assert p[1] == [0.0, 1.0];
    var e := Identity(2);
    assert e[0] == [1.0, 0.0];
    assert e[1] == [0.0, 1.0];
    assert p == e;
  }

  /** An invertible 2 x 2 matrix times its inverse is the identity. */
  lemma InverseOfTwo(a: real, b: real, c: real, d: real)
    requires Abs(a * d - b * c) >= SingularityThreshold
    ensures WellFormed([[a, b], [c, d]]) && Inverse([[a, b], [c, d]]).Success?
    ensures Product([[a, b], [c, d]], Inverse([[a, b], [c, d]]).value) == Identity(2)
  {
    InverseOfTwoValue(a, b, c, d);
    AdjugateProductOfTwo(a, b, c, d, Inverse([[a, b], [c, d]]).value);
  }

  /** A 1 x 1 matrix [[x]] with |x| >= 1e-7 has the inverse [[1/x]], and their product is the identity. */
  lemma InverseOfOne(g: Grid)
    requires WellFormed(g) && |g| == 1 && IsSquare(g) && Abs(g[0][0]) >= SingularityThreshold
    ensures Inverse(g) == Success([[1.0 / g[0][0]]])
    ensures Product(g, Inverse(g).value) == Identity(1)
  {
    InverseIsReciprocal(g);
    ReciprocalProduct(g);
  }

  /** [[x]] times [[1/x]] is the 1 x 1 identity. */
  lemma ReciprocalProduct(g: Grid)
    requires WellFormed(g) && |g| == 1 && IsSquare(g) && g[0][0] != 0.0
    ensures Product(g, [[1.0 / g[0][0]]]) == Identity(1)
  {
    var x := g[0][0];
    var inv := [[1.0 / x]];
    var p := Product(g, inv);
    assert Dot(g, inv, 0, 0, 1) == x * (1.0 / x);
    assert p[0][0] == 1.0;
    assert p[0] == [1.0];
    var e := Identity(1);
    assert e[0][0] == 1.0;
    assert e[0] == [1.0];
    assert p == [[1.0]] == e;
  }
}
