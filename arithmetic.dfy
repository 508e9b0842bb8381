/** The free arithmetic functions over Matrix2D<int>: Add, AddScalar,
    MultScalar, Sub, Transpose, DotProduct2D and Rand2D. Each is specified
    by a function on matrix values (the *Spec functions, whose contracts say
    what every element of the result is), and each method, which fills a
    fresh result with the source's nested loops, is proved to return that
    value. Integers are mathematical: C++ int overflow is not modelled. */
module Arithmetic {
  import opened Outcome
  import opened Shapes
  import opened Grid
  import opened Matrix

  // ---------------------------------------------------------------------
  // Specifications on matrix values
  // ---------------------------------------------------------------------

  /** Elementwise sum; ShapeMismatch exactly when the shapes differ. */
  function AddSpec(lhs: Mat<int>, rhs: Mat<int>): (r: Result<Mat<int>>)
    requires WellFormed(lhs) && WellFormed(rhs)
    ensures r.Err? <==> lhs.shape != rhs.shape
    ensures r.Err? ==> r.error == ShapeMismatch
    ensures r.Ok? ==> WellFormed(r.value) && r.value.shape == lhs.shape
    ensures r.Ok? ==> forall row, col :: InBounds(lhs.shape, row, col) ==>
              At(r.value, row, col) == At(lhs, row, col) + At(rhs, row, col)
  {
    if lhs.shape != rhs.shape then Err(ShapeMismatch)
    else Ok(Mat(lhs.shape, seq(|lhs.data|, k requires 0 <= k < |lhs.data| => lhs.data[k] + rhs.data[k])))
  }

  /** Every element increased by scalar; the shape is kept. */
  function AddScalarSpec(m: Mat<int>, scalar: int): (r: Mat<int>)
    requires WellFormed(m)
    ensures WellFormed(r) && r.shape == m.shape
    ensures forall row, col :: InBounds(m.shape, row, col) ==> At(r, row, col) == At(m, row, col) + scalar
  {
    Mat(m.shape, seq(|m.data|, k requires 0 <= k < |m.data| => m.data[k] + scalar))
  }

  /** Every element multiplied by scalar; the shape is kept. */
  function MultScalarSpec(m: Mat<int>, scalar: int): (r: Mat<int>)
    requires WellFormed(m)
    ensures WellFormed(r) && r.shape == m.shape
    ensures forall row, col :: InBounds(m.shape, row, col) ==> At(r, row, col) == At(m, row, col) * scalar
  {
    Mat(m.shape, seq(|m.data|, k requires 0 <= k < |m.data| => m.data[k] * scalar))
  }

  /** Sub as the source builds it, Add(lhs, MultScalar(rhs, -1)): the
      elementwise difference, ShapeMismatch exactly when the shapes differ. */
  function SubSpec(lhs: Mat<int>, rhs: Mat<int>): (r: Result<Mat<int>>)
    requires WellFormed(lhs) && WellFormed(rhs)
    ensures r.Err? <==> lhs.shape != rhs.shape
    ensures r.Err? ==> r.error == ShapeMismatch
    ensures r.Ok? ==> WellFormed(r.value) && r.value.shape == lhs.shape
    ensures r.Ok? ==> forall row, col :: InBounds(lhs.shape, row, col) ==>
              At(r.value, row, col) == At(lhs, row, col) - At(rhs, row, col)
  {
    AddSpec(lhs, MultScalarSpec(rhs, -1))
  }

  /** The transpose: shape (cols, rows), and the element at (col, row) is
      the original's (row, col). Its storage lists the original column by
      column. */
  function TransposeSpec<T>(m: Mat<T>): (r: Mat<T>)
    requires WellFormed(m)
    ensures WellFormed(r) && r.shape == Shape2D(m.shape.cols, m.shape.rows)
    ensures forall row, col :: InBounds(m.shape, row, col) ==> At(r, col, row) == At(m, row, col)
  {
    var s := m.shape;
    var r := Mat(Shape2D(s.cols, s.rows),
                 seq(Size(s), k requires 0 <= k < Size(s) =>
                   var cell := ColumnMajorCell(s, k); At(m, cell.0, cell.1)));
    assert Size(r.shape) == Size(s);
    forall row, col | InBounds(s, row, col)
      ensures At(r, col, row) == At(m, row, col)
    {
      var k := FlatIndex(r.shape, col, row);
    }
    r
  }

  /** Whether DotProduct2D accepts the operands: lhs.cols == rhs.rows. */
  predicate Conformable(lhs: Mat<int>, rhs: Mat<int>) {
    lhs.shape.cols == rhs.shape.rows
  }

  /** The sum of lhs(i, k) * rhs(k, j) over k < n, accumulated from 0 in
      increasing k as the source's inner loop does. It is 0 whenever every
      term has a zero factor, in particular when n is 0. */
  function RowColSum(lhs: Mat<int>, rhs: Mat<int>, i: int, j: int, n: int): (sum: int)
    requires WellFormed(lhs) && WellFormed(rhs) && Conformable(lhs, rhs)
    requires 0 <= i < lhs.shape.rows && 0 <= j < rhs.shape.cols && 0 <= n <= lhs.shape.cols
    ensures (forall k :: 0 <= k < n ==> At(lhs, i, k) == 0 || At(rhs, k, j) == 0) ==> sum == 0
    decreases n
  {
    if n == 0 then 0
    else RowColSum(lhs, rhs, i, j, n - 1) + At(lhs, i, n - 1) * At(rhs, n - 1, j)
  }

  /** The matrix product: ShapeMismatch exactly when lhs.cols != rhs.rows,
      otherwise shape (lhs.rows, rhs.cols) with element (i, j) the sum over k
      of lhs(i, k) * rhs(k, j). */
  function DotSpec(lhs: Mat<int>, rhs: Mat<int>): (r: Result<Mat<int>>)
    requires WellFormed(lhs) && WellFormed(rhs)
    ensures r.Err? <==> !Conformable(lhs, rhs)
    ensures r.Err? ==> r.error == ShapeMismatch
    ensures r.Ok? ==> WellFormed(r.value) && r.value.shape == Shape2D(lhs.shape.rows, rhs.shape.cols)
    ensures r.Ok? ==> forall i, j :: InBounds(r.value.shape, i, j) ==>
              At(r.value, i, j) == RowColSum(lhs, rhs, i, j, lhs.shape.cols)
  {
    if !Conformable(lhs, rhs) then Err(ShapeMismatch)
    else
      var s := Shape2D(lhs.shape.rows, rhs.shape.cols);
      var r := Mat(s, seq(Size(s), k requires 0 <= k < Size(s) =>
                   var cell := RowMajorCell(s, k); RowColSum(lhs, rhs, cell.0, cell.1, lhs.shape.cols)));
      forall i, j | InBounds(s, i, j)
        ensures At(r, i, j) == RowColSum(lhs, rhs, i, j, lhs.shape.cols)
      {
        var k := FlatIndex(s, i, j);
      }
      Ok(r)
  }

  // ---------------------------------------------------------------------
  // Properties of the specifications
  // ---------------------------------------------------------------------

  /** Transpose(Transpose(A)) == A. */
  lemma TransposeInvolutive<T>(m: Mat<T>)
    requires WellFormed(m)
    ensures TransposeSpec(TransposeSpec(m)) == m
  {
  }

  /** Sub(A, A) is the zero matrix of A's shape. */
  lemma SubSelfIsZero(m: Mat<int>)
    requires WellFormed(m)
    ensures SubSpec(m, m) == Ok(Filled(m.shape, 0))
  {
    FilledAt(m.shape, 0);
    EqualIffElementwise(SubSpec(m, m).value, Filled(m.shape, 0));
  }

  /** Subtracting the zero matrix of the same shape changes nothing. */
  lemma SubZeroIsIdentity(m: Mat<int>)
    requires WellFormed(m)
    ensures SubSpec(m, Filled(m.shape, 0)) == Ok(m)
  {
    FilledAt(m.shape, 0);
    EqualIffElementwise(SubSpec(m, Filled(m.shape, 0)).value, m);
  }

  /** MultScalar(A, 0) equals a freshly constructed Matrix2D(A.shape()). */
  lemma MultScalarZeroIsZeroMatrix(m: Mat<int>)
    requires WellFormed(m)
    ensures MultScalarSpec(m, 0) == Filled(m.shape, 0)
  {
  }

  /** The scalar operations and Sub on constant matrices stay constant:
      a + b, a * b and a - b everywhere. */
  lemma ScalarOpsOnFilled(s: Shape2D, a: int, b: int)
    requires NonNegative(s)
    ensures AddScalarSpec(Filled(s, a), b) == Filled(s, a + b)
    ensures MultScalarSpec(Filled(s, a), b) == Filled(s, a * b)
    ensures SubSpec(Filled(s, a), Filled(s, b)) == Ok(Filled(s, a - b))
  {
    FilledAt(s, a);
    FilledAt(s, b);
    FilledAt(s, a + b);
    FilledAt(s, a * b);
    FilledAt(s, a - b);
    EqualIffElementwise(AddScalarSpec(Filled(s, a), b), Filled(s, a + b));
    EqualIffElementwise(MultScalarSpec(Filled(s, a), b), Filled(s, a * b));
    EqualIffElementwise(SubSpec(Filled(s, a), Filled(s, b)).value, Filled(s, a - b));
  }

  /** [[0,1],[2,3]] + [[4,5],[6,7]] == [[4,6],[8,10]]. */
  lemma AddExample()
    ensures AddSpec(Mat(Shape2D(2, 2), [0, 1, 2, 3]), Mat(Shape2D(2, 2), [4, 5, 6, 7]))
            == Ok(Mat(Shape2D(2, 2), [4, 6, 8, 10]))
  {
    var r := AddSpec(Mat(Shape2D(2, 2), [0, 1, 2, 3]), Mat(Shape2D(2, 2), [4, 5, 6, 7]));
    assert r.value.data == [4, 6, 8, 10];
  }

  /** [[1,2],[3,4]] . [[5,6],[7,8]] == [[19,22],[43,50]]. */
  lemma DotExample()
    ensures DotSpec(Mat(Shape2D(2, 2), [1, 2, 3, 4]), Mat(Shape2D(2, 2), [5, 6, 7, 8]))
            == Ok(Mat(Shape2D(2, 2), [19, 22, 43, 50]))
  {
    var a, b := Mat(Shape2D(2, 2), [1, 2, 3, 4]), Mat(Shape2D(2, 2), [5, 6, 7, 8]);
    var expected := Mat(Shape2D(2, 2), [19, 22, 43, 50]);
    var r := DotSpec(a, b).value;
    forall i, j | InBounds(r.shape, i, j)
      ensures At(r, i, j) == At(expected, i, j)
    {
      assert RowColSum(a, b, i, j, 2) == At(a, i, 0) * At(b, 0, j) + At(a, i, 1) * At(b, 1, j);
    }
    EqualIffElementwise(r, expected);
  }

  // ---------------------------------------------------------------------
  // The operations, with the source's loops
  // ---------------------------------------------------------------------

  /** Add(lhs, rhs): rejects different shapes, then fills a fresh zero
      matrix of lhs's shape cell by cell with lhs(i, j) + rhs(i, j). */
  method Add(lhs: Matrix2D<int>, rhs: Matrix2D<int>) returns (r: Result<Matrix2D<int>>)
    requires lhs.Valid() && rhs.Valid()
    ensures r.Err? ==> AddSpec(lhs.Value(), rhs.Value()) == Err(r.error)
    ensures r.Ok? ==> fresh(r.value) && r.value.Valid() && AddSpec(lhs.Value(), rhs.Value()) == Ok(r.value.Value())
  {
    if lhs.shape != rhs.shape {
      return Err(ShapeMismatch);
    }
    var result := new Matrix2D(lhs.shape, 0);
    var i := 0;
    while i < lhs.Rows()
      invariant 0 <= i <= lhs.shape.rows
      invariant result.Valid() && result.shape == lhs.shape
      invariant forall row, col :: InBounds(lhs.shape, row, col) && row < i ==>
                  At(result.Value(), row, col) == At(lhs.Value(), row, col) + At(rhs.Value(), row, col)
    {
      var j := 0;
      while j < lhs.Cols()
        invariant 0 <= j <= lhs.shape.cols
        invariant result.Valid() && result.shape == lhs.shape
        invariant forall row, col :: InBounds(lhs.shape, row, col) && (row < i || (row == i && col < j)) ==>
                    At(result.Value(), row, col) == At(lhs.Value(), row, col) + At(rhs.Value(), row, col)
      {
        var status := result.Set(i, j, lhs.Get(i, j).value + rhs.Get(i, j).value);
        j := j + 1;
      }
      i := i + 1;
    }
    EqualIffElementwise(result.Value(), AddSpec(lhs.Value(), rhs.Value()).value);
    return Ok(result);
  }

  /** AddScalar(matrix_copy, scalar): the matrix is received by value, so a
      copy is made and each stored element of the copy is increased in place;
      the caller's matrix is not touched. */
  method AddScalar(matrix: Matrix2D<int>, scalar: int) returns (r: Matrix2D<int>)
    requires matrix.Valid()
    ensures fresh(r) && r.Valid() && r.Value() == AddScalarSpec(matrix.Value(), scalar)
  {
    r := new Matrix2D.Copy(matrix);
    var k := 0;
    while k < |r.data|
      invariant 0 <= k <= |r.data| == |matrix.data|
      invariant r.shape == matrix.shape
      invariant forall i :: 0 <= i < k ==> r.data[i] == matrix.data[i] + scalar
      invariant forall i :: k <= i < |r.data| ==> r.data[i] == matrix.data[i]
    {
      r.data := r.data[k := r.data[k] + scalar];
      k := k + 1;
    }
  }

  /** MultScalar(matrix_copy, scalar): as AddScalar, with *=. */
  method MultScalar(matrix: Matrix2D<int>, scalar: int) returns (r: Matrix2D<int>)
    requires matrix.Valid()
    ensures fresh(r) && r.Valid() && r.Value() == MultScalarSpec(matrix.Value(), scalar)
  {
    r := new Matrix2D.Copy(matrix);
    var k := 0;
    while k < |r.data|
      invariant 0 <= k <= |r.data| == |matrix.data|
      invariant r.shape == matrix.shape
      invariant forall i :: 0 <= i < k ==> r.data[i] == matrix.data[i] * scalar
      invariant forall i :: k <= i < |r.data| ==> r.data[i] == matrix.data[i]
    {
      r.data := r.data[k := r.data[k] * scalar];
      k := k + 1;
    }
  }

  /** Sub(lhs, rhs) = Add(lhs, MultScalar(rhs, -1)). The negated copy is made
      before Add checks the shapes; neither argument is touched. */
  method Sub(lhs: Matrix2D<int>, rhs: Matrix2D<int>) returns (r: Result<Matrix2D<int>>)
    requires lhs.Valid() && rhs.Valid()
    ensures r.Err? ==> SubSpec(lhs.Value(), rhs.Value()) == Err(r.error)
    ensures r.Ok? ==> fresh(r.value) && r.value.Valid() && SubSpec(lhs.Value(), rhs.Value()) == Ok(r.value.Value())
  {
    var negativeRhs := MultScalar(rhs, -1);
    r := Add(lhs, negativeRhs);
  }

  /** Transpose(mat): a fresh zero matrix of shape (cols, rows), filled by
      result(col, row) = mat(row, col) over every cell of mat. */
  method Transpose(mat: Matrix2D<int>) returns (r: Matrix2D<int>)
    requires mat.Valid()
    ensures fresh(r) && r.Valid() && r.Value() == TransposeSpec(mat.Value())
  {
    var newShape := Shape2D(mat.shape.cols, mat.shape.rows);
    r := new Matrix2D(newShape, 0);
    var row := 0;
    while row < mat.Rows()
      invariant 0 <= row <= mat.shape.rows
      invariant r.Valid() && r.shape == newShape
      invariant forall i, j :: InBounds(mat.shape, i, j) && i < row ==>
                  At(r.Value(), j, i) == At(mat.Value(), i, j)
    {
      var col := 0;
      while col < mat.Cols()
        invariant 0 <= col <= mat.shape.cols
        invariant r.Valid() && r.shape == newShape
        invariant forall i, j :: InBounds(mat.shape, i, j) && (i < row || (i == row && j < col)) ==>
                    At(r.Value(), j, i) == At(mat.Value(), i, j)
      {
        var status := r.Set(col, row, mat.Get(row, col).value);
        col := col + 1;
      }
      row := row + 1;
    }
    ghost var t := TransposeSpec(mat.Value());
    forall i, j | InBounds(newShape, i, j)
      ensures At(r.Value(), i, j) == At(t, i, j)
    {
      assert InBounds(mat.shape, j, i);
    }
    EqualIffElementwise(r.Value(), t);
  }

  /** DotProduct2D(lhs, rhs): ShapeMismatch when lhs.cols != rhs.rows;
      otherwise a fresh zero matrix of shape (lhs.rows, rhs.cols) whose cell
      (i, j) gets the running sum of lhs(i, k) * rhs(k, j) for k from 0 up. */
  method DotProduct2D(lhs: Matrix2D<int>, rhs: Matrix2D<int>) returns (r: Result<Matrix2D<int>>)
    requires lhs.Valid() && rhs.Valid()
    ensures r.Err? ==> DotSpec(lhs.Value(), rhs.Value()) == Err(r.error)
    ensures r.Ok? ==> fresh(r.value) && r.value.Valid() && DotSpec(lhs.Value(), rhs.Value()) == Ok(r.value.Value())
  {
    if lhs.shape.cols != rhs.shape.rows {
      return Err(ShapeMismatch);
    }
    var resultShape := Shape2D(lhs.shape.rows, rhs.shape.cols);
    var result := new Matrix2D(resultShape, 0);
    var i := 0;
    while i < result.Rows()
      invariant 0 <= i <= resultShape.rows
      invariant result.Valid() && result.shape == resultShape
      invariant forall a, b :: InBounds(resultShape, a, b) && a < i ==>
                  At(result.Value(), a, b) == RowColSum(lhs.Value(), rhs.Value(), a, b, lhs.shape.cols)
    {
      var j := 0;
      while j < result.Cols()
        invariant 0 <= j <= resultShape.cols
        invariant result.Valid() && result.shape == resultShape
        invariant forall a, b :: InBounds(resultShape, a, b) && (a < i || (a == i && b < j)) ==>
                    At(result.Value(), a, b) == RowColSum(lhs.Value(), rhs.Value(), a, b, lhs.shape.cols)
      {
        var n := lhs.Cols();
        var sum := 0;
        var k := 0;
        while k < n
          invariant 0 <= k <= n
          invariant sum == RowColSum(lhs.Value(), rhs.Value(), i, j, k)
        {
          sum := sum + lhs.Get(i, k).value * rhs.Get(k, j).value;
          k := k + 1;
        }
        var status := result.Set(i, j, sum);
        j := j + 1;
      }
      i := i + 1;
    }
    EqualIffElementwise(result.Value(), DotSpec(lhs.Value(), rhs.Value()).value);
    return Ok(result);
  }

  /** Rand2D(shape): the random engine is replaced by the sequence of values
      the distribution uniform_int_distribution(1, 9) would return, one per
      cell in row-major order. Each cell receives its draw plus one, so every
      element lies in [2, 10]. */
  method Rand2D(shape: Shape2D, draws: seq<int>) returns (r: Matrix2D<int>)
    requires NonNegative(shape) && |draws| == Size(shape)
    requires forall k :: 0 <= k < |draws| ==> 1 <= draws[k] <= 9
    ensures fresh(r) && r.Valid() && r.shape == shape
    ensures forall k :: 0 <= k < |r.data| ==> r.data[k] == draws[k] + 1 && 2 <= r.data[k] <= 10
  {
    r := new Matrix2D(shape, 0);
    var row := 0;
    while row < r.Rows()
      invariant 0 <= row <= shape.rows
      invariant r.Valid() && r.shape == shape
      invariant forall i, j :: InBounds(shape, i, j) && i < row ==>
                  At(r.Value(), i, j) == draws[FlatIndex(shape, i, j)] + 1
    {
      var col := 0;
      while col < r.Cols()
        invariant 0 <= col <= shape.cols
        invariant r.Valid() && r.shape == shape
        invariant forall i, j :: InBounds(shape, i, j) && (i < row || (i == row && j < col)) ==>
                    At(r.Value(), i, j) == draws[FlatIndex(shape, i, j)] + 1
      {
        var status := r.Set(row, col, draws[FlatIndex(shape, row, col)] + 1);
        col := col + 1;
      }
      row := row + 1;
    }
    forall k | 0 <= k < |r.data|
      ensures r.data[k] == draws[k] + 1
    {
      var cell := RowMajorCell(shape, k);
      assert At(r.Value(), cell.0, cell.1) == draws[k] + 1;
    }
  }
}
