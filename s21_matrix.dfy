/**
  The S21Matrix class itself: rows_, cols_ and the buffer they describe,
  with the methods that build, change and read it. Each method runs the
  source's loops over the buffer and is proved against the value-level
  definitions of the Grids, Elimination and Cofactors modules.
 */
module S21MatrixOop {
  import opened Errors
  import opened Grids
  import opened Elimination
  import opened Cofactors

  /** matrix_[i][j] = v: one cell changes, the shape and every other cell stay. */
  function WithCell(g: Grid, i: nat, j: nat, v: real): (r: Grid)
    requires Rect(g) && i < |g| && j < Width(g)
    ensures |r| == |g| && Rect(r) && Width(r) == Width(g) && (WellFormed(g) ==> WellFormed(r))
    ensures r[i][j] == v
    ensures forall p :: 0 <= p < |g| && p != i ==> r[p] == g[p]
    ensures forall q :: 0 <= q < Width(g) && q != j ==> r[i][q] == g[i][q]
  {
    g[i := g[i][j := v]]
  }

  /** Two matrices of one shape with equal cells are equal. */
  lemma CellwiseEqual(a: Grid, b: Grid)
    requires Rect(a) && Rect(b) && SameShape(a, b)
    requires forall p, q :: 0 <= p < |a| && 0 <= q < Width(a) ==> a[p][q] == b[p][q]
    ensures a == b
  {
    forall p | 0 <= p < |a| ensures a[p] == b[p] {
      assert |a[p]| == |b[p]|;
    }
  }

  /** Writing the one cell of a 1 x 1 matrix gives the matrix holding just that value. */
  lemma SingleCell(g: Grid, v: real)
    requires Rect(g) && |g| == 1 && Width(g) == 1
    ensures WithCell(g, 0, 0, v) == [[v]]
  {
    CellwiseEqual(WithCell(g, 0, 0, v), [[v]]);
  }

  /** The buffer MallocMatrix allocates: x rows of y value-initialised cells, row by row. */
  method NewBuffer(x: nat, y: nat) returns (g: Grid)
    ensures g == Zero(x, y)
  {
    g := [];
    var i := 0;
    while i < x
      invariant 0 <= i <= x
      invariant g == Zero(i, y)
    {
      g := g + [seq(y, _ => 0.0)];
      i := i + 1;
    }
  }

  class S21Matrix {
    var rows: int
    var cols: int
    var matrix: Grid

    /** rows_ and cols_ describe the buffer: rows_ rows of cols_ cells each, or 0 x 0 with no buffer. */
    ghost predicate Valid()
      reads this
    {
      WellFormed(matrix) && rows == |matrix| && cols == Width(matrix)
    }

    /** S21Matrix(): the empty 0 x 0 matrix. */
    constructor()
      ensures Valid() && rows == 0 && cols == 0 && matrix == []
    {
      rows, cols, matrix := 0, 0, [];
    }

    /** S21Matrix(rows, cols): MallocMatrix refuses a dimension below 1, then ZeroMatrix clears every cell. */
    static method Create(r: int, c: int) returns (res: Result<S21Matrix>)
      ensures res.Success? <==> r >= 1 && c >= 1
      ensures res.Failure? ==> res.error == InvalidDimension
      ensures res.Success? ==> fresh(res.value) && res.value.Valid()
      ensures res.Success? ==> res.value.rows == r && res.value.cols == c && res.value.matrix == Zero(r, c)
    {
      var m := new S21Matrix();
      var o := m.MallocMatrix(r, c);
      if o.Fail? {
        return Failure(o.error);
      }
      m.ZeroMatrix();
      return Success(m);
    }

    /** S21Matrix(const S21Matrix&): MallocMatrix with the other's dimensions, so an empty original is refused. */
    static method CopyOf(other: S21Matrix) returns (res: Result<S21Matrix>)
      requires other.Valid()
      ensures res.Success? <==> !IsEmpty(other.matrix)
      ensures res.Failure? ==> res.error == InvalidDimension
      ensures res.Success? ==> fresh(res.value) && res.value.Valid()
      ensures res.Success? ==> res.value.rows == other.rows && res.value.cols == other.cols && res.value.matrix == other.matrix
    {
      var m := new S21Matrix();
      var o := m.MallocMatrix(other.rows, other.cols);
      if o.Fail? {
        return Failure(o.error);
      }
      m.CopyMatrix(other);
      return Success(m);
    }

    /** S21Matrix(S21Matrix&&): the new matrix takes the other's dimensions and buffer; the other is left 0 x 0. */
    constructor Move(other: S21Matrix)
      requires other.Valid()
      modifies other
      ensures Valid() && rows == old(other.rows) && cols == old(other.cols) && matrix == old(other.matrix)
      ensures other.Valid() && other.rows == 0 && other.cols == 0 && other.matrix == []
    {
      rows, cols := other.rows, other.cols;
      matrix := other.matrix;
      new;
      other.matrix := [];
      other.rows, other.cols := 0, 0;
    }

    /** MallocMatrix(x, y): a dimension below 1 is refused and nothing changes; otherwise an x x y buffer of zeros. */
    method MallocMatrix(x: int, y: int) returns (o: Outcome)
      modifies this
      ensures o.Pass? <==> x >= 1 && y >= 1
      ensures o.Fail? ==> o.error == InvalidDimension && unchanged(this)
      ensures o.Pass? ==> Valid() && rows == x && cols == y && matrix == Zero(x, y)
    {
      if x < 1 || y < 1 {
        return Fail(InvalidDimension);
      }
      matrix := NewBuffer(x, y);
      rows, cols := x, y;
      return Pass;
    }

    /** ZeroMatrix: every cell becomes 0; the shape stays. */
    method ZeroMatrix()
      requires Valid()
      modifies this
      ensures Valid() && rows == old(rows) && cols == old(cols) && matrix == Zero(rows, cols)
    {
      var i := 0;
      while i < rows
        invariant 0 <= i <= rows
        invariant Valid() && rows == old(rows) && cols == old(cols)
        invariant forall p, q :: 0 <= p < i && 0 <= q < cols ==> matrix[p][q] == 0.0
      {
        var j := 0;
        while j < cols
          invariant 0 <= j <= cols
          invariant Valid() && rows == old(rows) && cols == old(cols)
          invariant forall p, q :: 0 <= p < i && 0 <= q < cols ==> matrix[p][q] == 0.0
          invariant forall q :: 0 <= q < j ==> matrix[i][q] == 0.0
        {
          matrix := WithCell(matrix, i, j, 0.0);
          j := j + 1;
        }
        i := i + 1;
      }
      CellwiseEqual(matrix, Zero(rows, cols));
    }

    /**
      CopyMatrix(other): the buffer is replaced by a zero-filled one of the
      other's dimensions, and the other's cells are copied into it. When the
      other is this matrix, the cells are read back from the new buffer, so
      the matrix keeps its shape and every cell becomes 0.
     */
    method CopyMatrix(other: S21Matrix)
      requires other.Valid()
      modifies this
      ensures Valid() && rows == old(other.rows) && cols == old(other.cols)
      ensures other != this ==> matrix == old(other.matrix)
      ensures other == this ==> matrix == Zero(old(rows), old(cols))
    {
      ghost var want := if other == this then Zero(rows, cols) else other.matrix;
      matrix := NewBuffer(other.rows, other.cols);
      rows, cols := other.rows, other.cols;
      var i := 0;
      while i < other.rows
        invariant 0 <= i <= rows
        invariant Valid() && other.Valid() && rows == other.rows && cols == other.cols
        invariant other.matrix == want && Rect(want) && |want| == rows && Width(want) == cols
        invariant forall p, q :: 0 <= p < i && 0 <= q < cols ==> matrix[p][q] == want[p][q]
      {
        var j := 0;
        while j < other.cols
          invariant 0 <= j <= cols
          invariant Valid() && other.Valid() && rows == other.rows && cols == other.cols
          invariant Rect(want) && |want| == rows && Width(want) == cols
          invariant forall p, q :: 0 <= p < rows && 0 <= q < cols ==> other.matrix[p][q] == want[p][q]
          invariant forall p, q :: 0 <= p < i && 0 <= q < cols ==> matrix[p][q] == want[p][q]
          invariant forall q :: 0 <= q < j ==> matrix[i][q] == want[i][q]
        {
          matrix := WithCell(matrix, i, j, other.matrix[i][j]);
          j := j + 1;
        }
        CellwiseEqual(other.matrix, want);
        i := i + 1;
      }
      CellwiseEqual(matrix, want);
    }

    /** GetRows: the number of rows of the buffer. */
    function GetRows(): (r: int)
      reads this
      requires Valid()
      ensures r == |matrix| && r >= 0
    {
      rows
    }

    /** GetCols: the length of every row of the buffer (0 when there is none). */
    function GetCols(): (c: int)
      reads this
      requires Valid()
      ensures c >= 0 && forall i :: 0 <= i < |matrix| ==> |matrix[i]| == c
      ensures |matrix| > 0 ==> c > 0
    {
      cols
    }

    /** operator()(x, y) read: an index outside the matrix is refused, any other reads exactly cell (x, y). */
    function At(x: int, y: int): (r: Result<real>)
      reads this
      requires Valid()
      ensures r.Success? <==> 0 <= x < |matrix| && 0 <= y < Width(matrix)
      ensures r.Failure? ==> r.error == IndexOutOfRange
      ensures r.Success? ==> r.value == matrix[x][y]
    {
      if x >= rows || y >= cols || x < 0 || y < 0 then Failure(IndexOutOfRange)
      else Success(matrix[x][y])
    }

    /** operator()(x, y) write: an index outside the matrix is refused and nothing changes; otherwise only cell (x, y) changes. */
    method SetAt(x: int, y: int, v: real) returns (o: Outcome)
      requires Valid()
      modifies this
      ensures Valid() && rows == old(rows) && cols == old(cols)
      ensures o.Pass? <==> old(At(x, y)).Success?
      ensures o.Fail? ==> o.error == IndexOutOfRange && matrix == old(matrix)
      ensures o.Pass? ==> matrix == WithCell(old(matrix), x, y, v) && At(x, y) == Success(v)
    {
      if x >= rows || y >= cols || x < 0 || y < 0 {
        return Fail(IndexOutOfRange);
      }
      matrix := WithCell(matrix, x, y, v);
      return Pass;
    }

    /**
      CheckMistakes(other, number): check 1 refuses an empty operand, check 2
      operands of different shapes, check 3 a width that is not the other's
      height; any other number passes.
     */
    function CheckMistakes(other: S21Matrix, number: int): (o: Outcome)
      reads this, other
      requires Valid() && other.Valid()
      ensures number == 1 ==> (o.Pass? <==> !IsEmpty(matrix) && !IsEmpty(other.matrix))
      ensures number == 2 ==> (o.Pass? <==> SameShape(matrix, other.matrix))
      ensures number == 3 ==> (o.Pass? <==> Width(matrix) == |other.matrix|)
      ensures number < 1 || number > 3 ==> o.Pass?
      ensures o.Fail? ==> o.error == if number == 1 then InvalidDimension else if number == 2 then DimensionMismatch else ShapeMismatch
    {
      if number == 1 then
        if rows < 1 || cols < 1 || other.rows < 1 || other.cols < 1 then Fail(InvalidDimension) else Pass
      else if number == 2 then
        if rows != other.rows || cols != other.cols then Fail(DimensionMismatch) else Pass
      else if number == 3 then
        if cols != other.rows then Fail(ShapeMismatch) else Pass
      else Pass
    }

    /** CheckMistakes2(number): check 1 refuses an empty matrix, check 2 a non-square one; any other number passes. */
    function CheckMistakes2(number: int): (o: Outcome)
      reads this
      requires Valid()
      ensures number == 1 ==> (o.Pass? <==> !IsEmpty(matrix))
      ensures number == 2 ==> (o.Pass? <==> IsSquare(matrix))
      ensures number != 1 && number != 2 ==> o.Pass?
      ensures o.Fail? ==> o.error == if number == 1 then InvalidDimension else NotSquare
    {
      if number == 1 then
        if rows < 1 || cols < 1 then Fail(InvalidDimension) else Pass
      else if number == 2 then
        if cols != rows then Fail(NotSquare) else Pass
      else Pass
    }

    /**
      SumMatrix(other): checks 1 and 2 run before any write; then every cell
      gains the other's. The other may be this matrix itself (a += a): each
      cell is read before it is written.
     */
    method SumMatrix(other: S21Matrix) returns (o: Outcome)
      requires Valid() && other.Valid()
      modifies this
      ensures Valid()
      ensures var r := Add(old(matrix), old(other.matrix));
        && (o.Pass? <==> r.Success?)
        && (r.Failure? ==> o == Fail(r.error) && matrix == old(matrix))
        && (r.Success? ==> matrix == r.value)
    {
      var c := CheckMistakes(other, 1);
      if c.Fail? {
        return c;
      }
      c := CheckMistakes(other, 2);
      if c.Fail? {
        return c;
      }
      ghost var a0, b0 := matrix, other.matrix;
      var i := 0;
      while i < other.rows
        invariant 0 <= i <= rows
        invariant Valid() && |matrix| == |a0| && rows == other.rows && cols == other.cols && cols == Width(a0)
        invariant other == this ==> b0 == a0
        invariant other != this ==> other.matrix == b0
        invariant forall p, q :: 0 <= p < i && 0 <= q < cols ==> matrix[p][q] == a0[p][q] + b0[p][q]
        invariant forall p :: i <= p < rows ==> matrix[p] == a0[p]
      {
        var j := 0;
        while j < other.cols
          invariant 0 <= j <= cols
          invariant Valid() && |matrix| == |a0| && rows == other.rows && cols == other.cols && cols == Width(a0)
          invariant other == this ==> b0 == a0
          invariant other != this ==> other.matrix == b0
          invariant forall p, q :: 0 <= p < i && 0 <= q < cols ==> matrix[p][q] == a0[p][q] + b0[p][q]
          invariant forall q :: 0 <= q < j ==> matrix[i][q] == a0[i][q] + b0[i][q]
          invariant forall q :: j <= q < cols ==> matrix[i][q] == a0[i][q]
          invariant forall p :: i < p < rows ==> matrix[p] == a0[p]
        {
          matrix := WithCell(matrix, i, j, matrix[i][j] + other.matrix[i][j]);
          j := j + 1;
        }
        i := i + 1;
      }
      CellwiseEqual(matrix, Add(a0, b0).value);
      return Pass;
    }

    /** SubMatrix(other): the same checks as SumMatrix, then every cell loses the other's. */
    method SubMatrix(other: S21Matrix) returns (o: Outcome)
      requires Valid() && other.Valid()
      modifies this
      ensures Valid()
      ensures var r := Sub(old(matrix), old(other.matrix));
        && (o.Pass? <==> r.Success?)
        && (r.Failure? ==> o == Fail(r.error) && matrix == old(matrix))
        && (r.Success? ==> matrix == r.value)
    {
      var c := CheckMistakes(other, 1);
      if c.Fail? {
        return c;
      }
      c := CheckMistakes(other, 2);
      if c.Fail? {
        return c;
      }
      ghost var a0, b0 := matrix, other.matrix;
      var i := 0;
      while i < other.rows
        invariant 0 <= i <= rows
        invariant Valid() && |matrix| == |a0| && rows == other.rows && cols == other.cols && cols == Width(a0)
        invariant other == this ==> b0 == a0
        invariant other != this ==> other.matrix == b0
        invariant forall p, q :: 0 <= p < i && 0 <= q < cols ==> matrix[p][q] == a0[p][q] - b0[p][q]
        invariant forall p :: i <= p < rows ==> matrix[p] == a0[p]
      {
        var j := 0;
        while j < other.cols
          invariant 0 <= j <= cols
          invariant Valid() && |matrix| == |a0| && rows == other.rows && cols == other.cols && cols == Width(a0)
          invariant other == this ==> b0 == a0
          invariant other != this ==> other.matrix == b0
          invariant forall p, q :: 0 <= p < i && 0 <= q < cols ==> matrix[p][q] == a0[p][q] - b0[p][q]
          invariant forall q :: 0 <= q < j ==> matrix[i][q] == a0[i][q] - b0[i][q]
          invariant forall q :: j <= q < cols ==> matrix[i][q] == a0[i][q]
          invariant forall p :: i < p < rows ==> matrix[p] == a0[p]
        {
          matrix := WithCell(matrix, i, j, matrix[i][j] - other.matrix[i][j]);
          j := j + 1;
        }
        i := i + 1;
      }
      CellwiseEqual(matrix, Sub(a0, b0).value);
      return Pass;
    }

    /** MulNumber(num): CheckMistakes2(1) runs before any write; then every cell is multiplied by num. */
    method MulNumber(num: real) returns (o: Outcome)
      requires Valid()
      modifies this
      ensures Valid()
      ensures var r := Scale(old(matrix), num);
        && (o.Pass? <==> r.Success?)
        && (r.Failure? ==> o == Fail(r.error) && matrix == old(matrix))
        && (r.Success? ==> matrix == r.value)
    {
      var c := CheckMistakes2(1);
      if c.Fail? {
        return c;
      }
      ghost var a0 := matrix;
      var i := 0;
      while i < rows
        invariant 0 <= i <= rows
        invariant Valid() && |matrix| == |a0| && cols == Width(a0)
        invariant forall p, q :: 0 <= p < i && 0 <= q < cols ==> matrix[p][q] == a0[p][q] * num
        invariant forall p :: i <= p < rows ==> matrix[p] == a0[p]
      {
        var j := 0;
        while j < cols
          invariant 0 <= j <= cols
          invariant Valid() && |matrix| == |a0| && cols == Width(a0)
          invariant forall p, q :: 0 <= p < i && 0 <= q < cols ==> matrix[p][q] == a0[p][q] * num
          invariant forall q :: 0 <= q < j ==> matrix[i][q] == a0[i][q] * num
          invariant forall q :: j <= q < cols ==> matrix[i][q] == a0[i][q]
          invariant forall p :: i < p < rows ==> matrix[p] == a0[p]
        {
          matrix := WithCell(matrix, i, j, matrix[i][j] * num);
          j := j + 1;
        }
        i := i + 1;
      }
      CellwiseEqual(matrix, Scaled(a0, num));
      return Pass;
    }

    /**
      EqMatrix(other): true exactly when the shapes agree and no two cells are
      more than 1e-6 apart; a shape mismatch is an answer, not a failure. The
      scan stops at the first pair of cells too far apart.
     */
    method EqMatrix(other: S21Matrix) returns (result: bool)
      requires Valid() && other.Valid()
      ensures result <==> ApproxEqual(matrix, other.matrix)
    {
      result := true;
      if rows == other.rows && cols == other.cols {
        var i := 0;
        while i < rows && result
          invariant 0 <= i <= rows
          invariant result ==> forall p, q :: 0 <= p < i && 0 <= q < cols ==>
            Abs(matrix[p][q] - other.matrix[p][q]) <= EqualityTolerance
          invariant !result ==> !ApproxEqual(matrix, other.matrix)
        {
          var j := 0;
          while j < cols && result
            invariant 0 <= j <= cols
            invariant result ==> forall p, q :: 0 <= p < i && 0 <= q < cols ==>
              Abs(matrix[p][q] - other.matrix[p][q]) <= EqualityTolerance
            invariant result ==> forall q :: 0 <= q < j ==> Abs(matrix[i][q] - other.matrix[i][q]) <= EqualityTolerance
            invariant !result ==> !ApproxEqual(matrix, other.matrix)
          {
            if Abs(matrix[i][j] - other.matrix[i][j]) > EqualityTolerance {
              result := false;
            }
            j := j + 1;
          }
          i := i + 1;
        }
      } else {
        result := false;
      }
    }

    /** Transpose: CheckMistakes2(1) refuses an empty matrix; otherwise a new cols x rows matrix with r(i, j) = a(j, i). */
    method Transpose() returns (res: Result<S21Matrix>)
      requires Valid()
      ensures res.Success? <==> !IsEmpty(matrix)
      ensures res.Failure? ==> res.error == InvalidDimension
      ensures res.Success? ==> fresh(res.value) && res.value.Valid()
      ensures res.Success? ==> Grids.Transpose(matrix) == Success(res.value.matrix)
    {
      var c := CheckMistakes2(1);
      if c.Fail? {
        return Failure(c.error);
      }
      var created := Create(cols, rows);
      var tmp := created.value;
      var i := 0;
      while i < tmp.rows
        invariant 0 <= i <= tmp.rows
        invariant tmp.Valid() && tmp.rows == cols && tmp.cols == rows
        invariant forall p, q :: 0 <= p < i && 0 <= q < rows ==> tmp.matrix[p][q] == matrix[q][p]
      {
        var j := 0;
        while j < tmp.cols
          invariant 0 <= j <= tmp.cols
          invariant tmp.Valid() && tmp.rows == cols && tmp.cols == rows
          invariant forall p, q :: 0 <= p < i && 0 <= q < rows ==> tmp.matrix[p][q] == matrix[q][p]
          invariant forall q :: 0 <= q < j ==> tmp.matrix[i][q] == matrix[q][i]
        {
          tmp.matrix := WithCell(tmp.matrix, i, j, matrix[j][i]);
          j := j + 1;
        }
        i := i + 1;
      }
      CellwiseEqual(tmp.matrix, Transposed(matrix));
      return Success(tmp);
    }

    /**
      MulMatrix(other): checks 1 and 3 run before any write; the product is
      built in a rows x cols temporary, cell (i, j) for j below other.cols
      being the dot product of row i and column j, and then copied in. The
      temporary's columns from other.cols on are never written, and a wider
      other would be written past its end, which the precondition excludes.
     */
    method MulMatrix(other: S21Matrix) returns (o: Outcome)
      requires Valid() && other.Valid() && MulInBounds(matrix, other.matrix)
      modifies this
      ensures Valid()
      ensures var r := MulAsWritten(old(matrix), old(other.matrix));
        && (o.Pass? <==> r.Success?)
        && (r.Failure? ==> o == Fail(r.error) && matrix == old(matrix))
        && (r.Success? ==> matrix == r.value)
    {
      var c := CheckMistakes(other, 1);
      if c.Fail? {
        return c;
      }
      c := CheckMistakes(other, 3);
      if c.Fail? {
        return c;
      }
      ghost var a0, b0 := matrix, other.matrix;
      var created := Create(rows, cols);
      var tmp := created.value;
      var i := 0;
      while i < rows
        invariant 0 <= i <= rows
        invariant matrix == a0 && other.matrix == b0
        invariant |a0| == rows && Width(a0) == cols && |b0| == cols && Width(b0) == other.cols <= cols
        invariant tmp.Valid() && tmp.rows == rows && tmp.cols == cols
        invariant forall p, q :: 0 <= p < rows && 0 <= q < cols ==>
          tmp.matrix[p][q] == if p < i && q < other.cols then Dot(a0, b0, p, q, cols) else 0.0
      {
        var j := 0;
        while j < other.cols
          invariant 0 <= j <= other.cols
          invariant matrix == a0 && other.matrix == b0
          invariant |a0| == rows && Width(a0) == cols && |b0| == cols && Width(b0) == other.cols <= cols
          invariant tmp.Valid() && tmp.rows == rows && tmp.cols == cols
          invariant forall p, q :: 0 <= p < rows && 0 <= q < cols ==>
            tmp.matrix[p][q] == if (p < i || (p == i && q < j)) && q < other.cols then Dot(a0, b0, p, q, cols) else 0.0
        {
          var res := 0.0;
          var k := 0;
          while k < cols
            invariant 0 <= k <= cols
            invariant res == Dot(a0, b0, i, j, k)
          {
            res := res + matrix[i][k] * other.matrix[k][j];
            k := k + 1;
          }
          tmp.matrix := WithCell(tmp.matrix, i, j, res);
          j := j + 1;
        }
        i := i + 1;
      }
      CellwiseEqual(tmp.matrix, MulAsWritten(a0, b0).value);
      CopyMatrix(tmp);
      return Pass;
    }

    /** Sdvig(i, j): rows i and j exchange places; the call answers -1. */
    method Sdvig(i: int, j: int) returns (r: int)
      requires Valid() && 0 <= i < rows && 0 <= j < rows
      modifies this
      ensures Valid() && rows == old(rows) && cols == old(cols)
      ensures matrix == SwapRows(old(matrix), i, j) && r == -1
    {
      var tmp := matrix[i];
      matrix := matrix[i := matrix[j]];
      matrix := matrix[j := tmp];
      return -1;
    }

    /** SumStr(row, ro, k): row `row` gains k times row `ro`, cell by cell; no other row changes. */
    method SumStr(row: int, ro: int, k: real)
      requires Valid() && Square(matrix) && 0 <= row < rows && 0 <= ro < rows
      modifies this
      ensures Valid() && rows == old(rows) && cols == old(cols)
      ensures matrix == AddScaledRow(old(matrix), row, ro, k)
    {
      ghost var g0 := matrix;
      var x := 0;
      while x < cols
        invariant 0 <= x <= cols
        invariant Valid() && rows == old(rows) && cols == old(cols) && |matrix| == |g0|
        invariant forall p :: 0 <= p < rows && p != row ==> matrix[p] == g0[p]
        invariant forall q :: 0 <= q < x ==> matrix[row][q] == g0[row][q] + g0[ro][q] * k
        invariant forall q :: x <= q < cols ==> matrix[row][q] == g0[row][q]
      {
        matrix := WithCell(matrix, row, x, matrix[row][x] + matrix[ro][x] * k);
        x := x + 1;
      }
      CellwiseEqual(matrix, AddScaledRow(g0, row, ro, k));
    }

    /**
      Triangulate's pivot search in column i: every row below i whose cell in
      column i is nonzero is swapped into row i by Sdvig, which adds 1 to znak.
     */
    method SearchPivot(i: int, znak: int) returns (z: int)
      requires Valid() && Square(matrix) && 0 <= i < rows && znak >= 1
      modifies this
      ensures Valid() && rows == old(rows) && cols == old(cols) && Square(matrix) && z >= 1
      ensures State(matrix, z - 1) == SwapBelow(State(old(matrix), znak - 1), i, i + 1)
    {
      ghost var start := State(matrix, znak - 1);
      z := znak;
      var j := i + 1;
      while j < rows
        invariant i + 1 <= j <= rows
        invariant Valid() && rows == old(rows) && cols == old(cols) && Square(matrix) && z >= 1
        invariant SwapBelow(State(matrix, z - 1), i, j) == SwapBelow(start, i, i + 1)
      {
        if matrix[j][i] != 0.0 {
          var d := Sdvig(j, i);
          z := z - d;
        }
        j := j + 1;
      }
    }

    /** Triangulate's elimination in column i: SumStr(j, i, Factor) for every row j below i. */
    method EliminateColumn(i: int)
      requires Valid() && Square(matrix) && 0 <= i < rows
      modifies this
      ensures Valid() && rows == old(rows) && cols == old(cols) && Square(matrix)
      ensures matrix == EliminateBelow(old(matrix), i, i + 1)
    {
      var j := i + 1;
      while j < rows
        invariant i + 1 <= j <= rows
        invariant Valid() && rows == old(rows) && cols == old(cols) && Square(matrix)
        invariant EliminateBelow(matrix, i, j) == EliminateBelow(old(matrix), i, i + 1)
      {
        SumStr(j, i, Factor(matrix, j, i));
        j := j + 1;
      }
    }

    /**
      Triangulate(other): other becomes a copy of this matrix, which is then
      brought to upper-triangular form column by column: the pivot search
      when the pivot is 0, then the elimination below it. znak starts at 1
      and the answer is -znak, that is -(1 + the number of swaps).
     */
    method Triangulate(other: S21Matrix) returns (t: int)
      requires Valid() && Square(matrix) && other.Valid() && other != this
      modifies other
      ensures other.Valid() && other.rows == rows && other.cols == cols
      ensures other.matrix == Triangulation(matrix).grid
      ensures t == -(1 + Triangulation(matrix).swaps)
    {
      var znak := 1;
      other.CopyMatrix(this);
      var n := rows;
      var i := 0;
      while i < other.cols
        invariant 0 <= i <= n
        invariant other.Valid() && other.rows == n && other.cols == n && Square(other.matrix) && znak >= 1
        invariant TriangulateFrom(State(other.matrix, znak - 1), i) == Triangulation(matrix)
      {
        ghost var before := State(other.matrix, znak - 1);
        if other.matrix[i][i] == 0.0 {
          znak := other.SearchPivot(i, znak);
        }
        other.EliminateColumn(i);
        assert State(other.matrix, znak - 1) == PivotColumn(before, i);
        i := i + 1;
      }
      return -znak;
    }

    /**
      Determinant: CheckMistakes2(1) and (2) refuse an empty and a non-square
      matrix; a copy is triangulated, the sign is -1 when znak is odd and 1
      otherwise, the diagonal is multiplied in, and the negation is returned.
      This matrix is left as it was.
     */
    method Determinant() returns (res: Result<real>)
      requires Valid()
      ensures res == Elimination.Determinant(matrix)
    {
      var c := CheckMistakes2(1);
      if c.Fail? {
        return Failure(c.error);
      }
      c := CheckMistakes2(2);
      if c.Fail? {
        return Failure(c.error);
      }
      var tmp := new S21Matrix();
      var copied := CopyOf(this);
      var copy := copied.value;
      var t := copy.Triangulate(tmp);
      ghost var tri := Triangulation(matrix);
      var r: real := if (-t) % 2 != 0 then -1.0 else 1.0;
      var x := 0;
      while x < tmp.cols
        invariant 0 <= x <= tmp.cols == rows
        invariant tmp.Valid() && tmp.matrix == tri.grid
        invariant r == -Sign(tri.swaps) * DiagProduct(tri.grid, x)
      {
        r := r * tmp.matrix[x][x];
        x := x + 1;
      }
      return Success(-r);
    }

    /**
      Minor(x, y, other): other, already (n-1) x (n-1), receives this matrix
      without row x and column y. The flags i2 and j2 turn to 1 once the
      removed row and column are passed.
     */
    method Minor(x: int, y: int, other: S21Matrix)
      requires Valid() && Square(matrix) && 0 <= x < rows && 0 <= y < rows
      requires other.Valid() && other.rows == rows - 1 && other.cols == rows - 1 && other != this
      modifies other
      ensures other.Valid() && other.rows == rows - 1 && other.cols == rows - 1
      ensures other.matrix == MinorOf(matrix, x, y)
    {
      var i1, i2, j1, j2 := 0, 0, 0, 0;
      while i1 < rows - 1
        invariant 0 <= i1 <= rows - 1
        invariant i2 == if x < i1 then 1 else 0
        invariant other.Valid() && other.rows == rows - 1 && other.cols == rows - 1
        invariant forall p, q :: 0 <= p < i1 && 0 <= q < rows - 1 ==> other.matrix[p][q] == matrix[Skip(p, x)][Skip(q, y)]
      {
        if i1 == x {
          i2 := 1;
        }
        j2 := 0;
        j1 := 0;
        while j1 < rows - 1
          invariant 0 <= j1 <= rows - 1
          invariant i1 + i2 == Skip(i1, x)
          invariant j2 == if y < j1 then 1 else 0
          invariant other.Valid() && other.rows == rows - 1 && other.cols == rows - 1
          invariant forall p, q :: 0 <= p < i1 && 0 <= q < rows - 1 ==> other.matrix[p][q] == matrix[Skip(p, x)][Skip(q, y)]
          invariant forall q :: 0 <= q < j1 ==> other.matrix[i1][q] == matrix[Skip(i1, x)][Skip(q, y)]
        {
          if j1 == y {
            j2 := 1;
          }
          other.matrix := WithCell(other.matrix, i1, j1, matrix[i1 + i2][j1 + j2]);
          j1 := j1 + 1;
        }
        i1 := i1 + 1;
      }
      CellwiseEqual(other.matrix, MinorOf(matrix, x, y));
    }

    /**
      One pass of CalcComplements' inner loop: an (n-1) x (n-1) matrix is
      allocated (which fails for n = 1), receives the minor without row i and
      column j, and its determinant times (-1)^(i+j) is the cofactor.
     */
    method CofactorAt(i: int, j: int) returns (res: Result<real>)
      requires Valid() && Square(matrix) && 0 <= i < rows && 0 <= j < rows
      ensures rows == 1 ==> res == Failure(InvalidDimension)
      ensures rows >= 2 ==> res == Success(Complements(matrix)[i][j])
    {
      var created := Create(rows - 1, cols - 1);
      if created.Failure? {
        return Failure(created.error);
      }
      var tmp := created.value;
      Minor(i, j, tmp);
      var det := tmp.Determinant();
      assert det == Success(Det(MinorOf(matrix, i, j)));
      CofactorCell(matrix, i, j);
      return Success(CofactorSign(i, j) * det.value);
    }

    /**
      CalcComplements' inner loop for row i: cell (i, j) of result becomes the
      cofactor (i, j) of this matrix, for every column j in turn. For a 1 x 1
      matrix the first minor cannot be allocated and nothing is written.
     */
    method ComplementRow(i: int, result: S21Matrix) returns (o: Outcome)
      requires Valid() && Square(matrix) && 0 <= i < rows
      requires result.Valid() && result.rows == rows && result.cols == rows && result != this
      modifies result
      ensures result.Valid() && result.rows == rows && result.cols == rows
      ensures rows == 1 ==> o == Fail(InvalidDimension)
      ensures rows >= 2 ==> o == Pass && result.matrix == old(result.matrix)[i := Complements(matrix)[i]]
    {
      ghost var want := Complements(matrix);
      var j := 0;
      while j < cols
        invariant 0 <= j <= rows && (j > 0 ==> rows >= 2)
        invariant result.Valid() && result.rows == rows && result.cols == rows
        invariant forall p :: 0 <= p < rows && p != i ==> result.matrix[p] == old(result.matrix)[p]
        invariant forall q :: 0 <= q < j ==> result.matrix[i][q] == want[i][q]
      {
        var cofactor := CofactorAt(i, j);
        if cofactor.Failure? {
          return Fail(cofactor.error);
        }
        result.matrix := WithCell(result.matrix, i, j, cofactor.value);
        j := j + 1;
      }
      assert result.matrix[i] == want[i];
      assert result.matrix == old(result.matrix)[i := want[i]];
      return Pass;
    }

    /**
      CalcComplements: CheckMistakes2(1) and (2) refuse an empty and a
      non-square matrix; cell (i, j) of a copy becomes (-1)^(i+j) times the
      determinant of the minor without row i and column j. For a 1 x 1 matrix
      the (n-1) x (n-1) minor cannot be allocated, which fails.
     */
    method CalcComplements() returns (res: Result<S21Matrix>)
      requires Valid()
      ensures var r := Cofactors.CalcComplements(matrix);
        && (res.Success? <==> r.Success?)
        && (res.Failure? ==> res.error == r.error)
        && (res.Success? ==> fresh(res.value) && res.value.Valid() && res.value.matrix == r.value)
    {
      var c := CheckMistakes2(1);
      if c.Fail? {
        return Failure(c.error);
      }
      c := CheckMistakes2(2);
      if c.Fail? {
        return Failure(c.error);
      }
      var r := CopyOf(this);
      var result := r.value;
      var m := CopyOf(this);
      var minor := m.value;
      var n := rows;
      ghost var want := Complements(matrix);
      var i := 0;
      while i < rows
        invariant 0 <= i <= n && (i > 0 ==> n >= 2)
        invariant fresh(result) && result != minor && result != this
        invariant result.Valid() && result.rows == n && result.cols == n
        invariant minor.Valid() && minor.matrix == matrix && minor.rows == n && minor.cols == n
        invariant forall p :: 0 <= p < i ==> result.matrix[p] == want[p]
      {
        var o := minor.ComplementRow(i, result);
        if o.Fail? {
          return Failure(o.error);
        }
        i := i + 1;
      }
      assert result.matrix == want;
      return Success(result);
    }

    /**
      InverseMatrix: CheckMistakes2(1) refuses an empty matrix, Determinant a
      non-square one, and a determinant below 1e-7 in magnitude is refused.
      Otherwise a matrix larger than 1 x 1 becomes its transposed cofactor
      matrix times 1/det, and a 1 x 1 matrix its element's reciprocal.
     */
    method InverseMatrix() returns (res: Result<S21Matrix>)
      requires Valid()
      ensures var r := Inverse(matrix);
        && (res.Success? <==> r.Success?)
        && (res.Failure? ==> res.error == r.error)
        && (res.Success? ==> fresh(res.value) && res.value.Valid() && res.value.matrix == r.value)
    {
      var c := CheckMistakes2(1);
      if c.Fail? {
        return Failure(c.error);
      }
      var copied := CopyOf(this);
      var tmp := copied.value;
      var d := Determinant();
      if d.Failure? {
        return Failure(d.error);
      }
      var det := d.value;
      if Abs(det) < SingularityThreshold {
        return Failure(Singular);
      }
      if rows > 1 && cols > 1 {
        var complements := tmp.CalcComplements();
        var tmp2 := complements.value;
        var transposed := tmp2.Transpose();
        var transpon := transposed.value;
        var o := transpon.MulNumber(1.0 / det);
        tmp.CopyMatrix(transpon);
      } else {
        DetOfOne(matrix);
        SingleCell(tmp.matrix, 1.0 / matrix[0][0]);
        tmp.matrix := WithCell(tmp.matrix, 0, 0, 1.0 / matrix[0][0]);
        InverseIsReciprocal(matrix);
      }
      return Success(tmp);
    }

    /**
      SetRows(n): n below 1 is refused; so is an empty matrix, whose new
      buffer would have 0 columns. Otherwise the first min(n, rows) rows are
      copied into a zeroed n x cols buffer, which then replaces this one.
      A refused call changes nothing.
     */
    method SetRows(n: int) returns (o: Outcome)
      requires Valid()
      modifies this
      ensures Valid()
      ensures var r := ResizeRows(old(matrix), n);
        && (o.Pass? <==> r.Success?)
        && (r.Failure? ==> o == Fail(r.error) && matrix == old(matrix) && rows == old(rows) && cols == old(cols))
        && (r.Success? ==> matrix == r.value && rows == n && cols == old(cols))
    {
      if n < 1 {
        return Fail(InvalidDimension);
      }
      var A := new S21Matrix();
      var m := A.MallocMatrix(n, cols);
      if m.Fail? {
        return m;
      }
      A.ZeroMatrix();
      var a := if A.rows < rows then A.rows else rows;
      var i := 0;
      while i < a
        invariant 0 <= i <= a && a <= n && a <= rows
        invariant matrix == old(matrix) && rows == old(rows) && cols == old(cols)
        invariant A.Valid() && A.rows == n && A.cols == cols && Valid()
        invariant forall p, q :: 0 <= p < n && 0 <= q < cols ==>
          A.matrix[p][q] == if p < i then matrix[p][q] else 0.0
      {
        var j := 0;
        while j < A.cols
          invariant 0 <= j <= cols && 0 <= i < a && a <= n && a <= rows
          invariant matrix == old(matrix) && rows == old(rows) && cols == old(cols)
          invariant A.Valid() && A.rows == n && A.cols == cols && Valid()
          invariant forall p, q :: 0 <= p < n && 0 <= q < cols ==>
            A.matrix[p][q] == if p < i || (p == i && q < j) then matrix[p][q] else 0.0
        {
          A.matrix := WithCell(A.matrix, i, j, matrix[i][j]);
          j := j + 1;
        }
        i := i + 1;
      }
      CellwiseEqual(A.matrix, ResizeRows(matrix, n).value);
      CopyMatrix(A);
      return Pass;
    }

    /** SetCols(n): as SetRows, with the roles of rows and columns exchanged. */
    method SetCols(n: int) returns (o: Outcome)
      requires Valid()
      modifies this
      ensures Valid()
      ensures var r := ResizeCols(old(matrix), n);
        && (o.Pass? <==> r.Success?)
        && (r.Failure? ==> o == Fail(r.error) && matrix == old(matrix) && rows == old(rows) && cols == old(cols))
        && (r.Success? ==> matrix == r.value && rows == old(rows) && cols == n)
    {
      if n < 1 {
        return Fail(InvalidDimension);
      }
      var A := new S21Matrix();
      var m := A.MallocMatrix(rows, n);
      if m.Fail? {
        return m;
      }
      A.ZeroMatrix();
      var a := if A.cols < cols then A.cols else cols;
      var i := 0;
      while i < A.rows
        invariant 0 <= i <= rows && a <= n && a <= cols
        invariant matrix == old(matrix) && rows == old(rows) && cols == old(cols)
        invariant A.Valid() && A.rows == rows && A.cols == n && Valid()
        invariant forall p, q :: 0 <= p < rows && 0 <= q < n ==>
          A.matrix[p][q] == if p < i && q < a then matrix[p][q] else 0.0
      {
        var j := 0;
        while j < a
          invariant 0 <= j <= a && 0 <= i < rows && a <= n && a <= cols
          invariant matrix == old(matrix) && rows == old(rows) && cols == old(cols)
          invariant A.Valid() && A.rows == rows && A.cols == n && Valid()
          invariant forall p, q :: 0 <= p < rows && 0 <= q < n ==>
            A.matrix[p][q] == if (p < i || (p == i && q < j)) && q < a then matrix[p][q] else 0.0
        {
          A.matrix := WithCell(A.matrix, i, j, matrix[i][j]);
          j := j + 1;
        }
        i := i + 1;
      }
      CellwiseEqual(A.matrix, ResizeCols(matrix, n).value);
      CopyMatrix(A);
      return Pass;
    }

    /** operator+: a copy of this matrix (refused when empty) gains the other by SumMatrix. */
    method Plus(other: S21Matrix) returns (res: Result<S21Matrix>)
      requires Valid() && other.Valid()
      ensures var r := Add(matrix, other.matrix);
        && (res.Success? <==> r.Success?)
        && (res.Failure? ==> res.error == r.error)
        && (res.Success? ==> fresh(res.value) && res.value.Valid() && res.value.matrix == r.value)
    {
      var copied := CopyOf(this);
      if copied.Failure? {
        return copied;
      }
      var o := copied.value.SumMatrix(other);
      if o.Fail? {
        return Failure(o.error);
      }
      return copied;
    }

    /** operator-: a copy of this matrix (refused when empty) loses the other by SubMatrix. */
    method Minus(other: S21Matrix) returns (res: Result<S21Matrix>)
      requires Valid() && other.Valid()
      ensures var r := Sub(matrix, other.matrix);
        && (res.Success? <==> r.Success?)
        && (res.Failure? ==> res.error == r.error)
        && (res.Success? ==> fresh(res.value) && res.value.Valid() && res.value.matrix == r.value)
    {
      var copied := CopyOf(this);
      if copied.Failure? {
        return copied;
      }
      var o := copied.value.SubMatrix(other);
      if o.Fail? {
        return Failure(o.error);
      }
      return copied;
    }

    /** operator*(other): a copy of this matrix (refused when empty) is multiplied by the other with MulMatrix. */
    method Times(other: S21Matrix) returns (res: Result<S21Matrix>)
      requires Valid() && other.Valid() && MulInBounds(matrix, other.matrix)
      ensures var r := MulAsWritten(matrix, other.matrix);
        && (res.Success? <==> r.Success?)
        && (res.Failure? ==> res.error == r.error)
        && (res.Success? ==> fresh(res.value) && res.value.Valid() && res.value.matrix == r.value)
    {
      var copied := CopyOf(this);
      if copied.Failure? {
        return copied;
      }
      var o := copied.value.MulMatrix(other);
      if o.Fail? {
        return Failure(o.error);
      }
      return copied;
    }

    /** operator*(number): a copy of this matrix (refused when empty) is scaled by MulNumber. */
    method TimesNumber(number: real) returns (res: Result<S21Matrix>)
      requires Valid()
      ensures var r := Scale(matrix, number);
        && (res.Success? <==> r.Success?)
        && (res.Failure? ==> res.error == r.error)
        && (res.Success? ==> fresh(res.value) && res.value.Valid() && res.value.matrix == r.value)
    {
      var copied := CopyOf(this);
      if copied.Failure? {
        return copied;
      }
      var o := copied.value.MulNumber(number);
      return copied;
    }

    /** operator+=: SumMatrix on this matrix. */
    method PlusAssign(other: S21Matrix) returns (o: Outcome)
      requires Valid() && other.Valid()
      modifies this
      ensures Valid()
      ensures var r := Add(old(matrix), old(other.matrix));
        && (o.Pass? <==> r.Success?)
        && (r.Failure? ==> o == Fail(r.error) && matrix == old(matrix))
        && (r.Success? ==> matrix == r.value)
    {
      o := SumMatrix(other);
    }

    /** operator-=: SubMatrix on this matrix. */
    method MinusAssign(other: S21Matrix) returns (o: Outcome)
      requires Valid() && other.Valid()
      modifies this
      ensures Valid()
      ensures var r := Sub(old(matrix), old(other.matrix));
        && (o.Pass? <==> r.Success?)
        && (r.Failure? ==> o == Fail(r.error) && matrix == old(matrix))
        && (r.Success? ==> matrix == r.value)
    {
      o := SubMatrix(other);
    }

    /** operator*=(other): MulMatrix on this matrix. */
    method TimesAssign(other: S21Matrix) returns (o: Outcome)
      requires Valid() && other.Valid() && MulInBounds(matrix, other.matrix)
      modifies this
      ensures Valid()
      ensures var r := MulAsWritten(old(matrix), old(other.matrix));
        && (o.Pass? <==> r.Success?)
        && (r.Failure? ==> o == Fail(r.error) && matrix == old(matrix))
        && (r.Success? ==> matrix == r.value)
    {
      o := MulMatrix(other);
    }

    /** operator*=(number): MulNumber on this matrix. */
    method TimesNumberAssign(number: real) returns (o: Outcome)
      requires Valid()
      modifies this
      ensures Valid()
      ensures var r := Scale(old(matrix), number);
        && (o.Pass? <==> r.Success?)
        && (r.Failure? ==> o == Fail(r.error) && matrix == old(matrix))
        && (r.Success? ==> matrix == r.value)
    {
      o := MulNumber(number);
    }

    /** operator==: EqMatrix. */
    method Equals(other: S21Matrix) returns (result: bool)
      requires Valid() && other.Valid()
      ensures result <==> ApproxEqual(matrix, other.matrix)
    {
      result := EqMatrix(other);
    }

    /** operator=: CopyMatrix from the other; assigning a matrix to itself zeroes it. */
    method Assign(other: S21Matrix)
      requires other.Valid()
      modifies this
      ensures Valid() && rows == old(other.rows) && cols == old(other.cols)
      ensures other != this ==> matrix == old(other.matrix)
      ensures other == this ==> matrix == Zero(old(rows), old(cols))
    {
      CopyMatrix(other);
    }
  }

  /** operator*(number, other): a copy of the other (refused when empty) scaled by the number. */
  method NumberTimes(number: real, other: S21Matrix) returns (res: Result<S21Matrix>)
    requires other.Valid()
    ensures var r := Scale(other.matrix, number);
      && (res.Success? <==> r.Success?)
      && (res.Failure? ==> res.error == r.error)
      && (res.Success? ==> fresh(res.value) && res.value.Valid() && res.value.matrix == r.value)
  {
    var copied := S21Matrix.CopyOf(other);
    if copied.Failure? {
      return copied;
    }
    var o := copied.value.TimesNumberAssign(number);
    res := S21Matrix.CopyOf(copied.value);
  }
}
