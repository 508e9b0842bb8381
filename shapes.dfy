/** Shape2D and the row-major flat-index arithmetic that Matrix2D relies on:
    cell (row, col) of a rows x cols matrix lives at position row * cols + col. */
module Shapes {

  /** The extent of a matrix. Only the equality of the source's defaulted
      <=> is modelled (fieldwise, Dafny's own equality on the datatype). */
  datatype Shape2D = Shape2D(rows: int, cols: int)

  /** Shapes the constructors accept; negative extents are not handled. */
  predicate NonNegative(s: Shape2D) {
    s.rows >= 0 && s.cols >= 0
  }

  /** The number of elements a matrix of shape s stores. */
  function Size(s: Shape2D): int {
    s.rows * s.cols
  }

  /** The bounds check of get: both indices inside the shape. */
  predicate InBounds(s: Shape2D, row: int, col: int) {
    0 <= row < s.rows && 0 <= col < s.cols
  }

  /** Position of an in-range cell in the flat row-major storage. The result
      lies inside the storage and determines the cell again (row = k / cols,
      col = k % cols), so distinct cells never share a position. */
  function FlatIndex(s: Shape2D, row: int, col: int): (k: nat)
    requires InBounds(s, row, col)
    ensures k < Size(s)
    ensures k / s.cols == row && k % s.cols == col
  {
    MulStrict(s.rows - row, s.cols);
    DivModUnique(row * s.cols + col, row, col, s.cols);
    row * s.cols + col
  }

  /** The cell stored at flat position k, read in row-major order. */
  function RowMajorCell(s: Shape2D, k: int): (cell: (int, int))
    requires NonNegative(s) && 0 <= k < Size(s)
    ensures InBounds(s, cell.0, cell.1)
    ensures FlatIndex(s, cell.0, cell.1) == k
  {
    PositiveFactor(s.rows, s.cols, k);
    DivBelow(k, s.rows, s.cols);
    (k / s.cols, k % s.cols)
  }

  /** The cell visited at step k of a column-major walk: column k / rows,
      row k % rows. */
  function ColumnMajorCell(s: Shape2D, k: int): (cell: (int, int))
    requires NonNegative(s) && 0 <= k < Size(s)
    ensures InBounds(s, cell.0, cell.1)
    ensures cell.1 * s.rows + cell.0 == k
  {
    PositiveFactor(s.cols, s.rows, k);
    DivBelow(k, s.cols, s.rows);
    (k % s.rows, k / s.rows)
  }

  /** Flat positions are injective on in-range cells. */
  lemma FlatIndexInjective(s: Shape2D, r1: int, c1: int, r2: int, c2: int)
    requires InBounds(s, r1, c1) && InBounds(s, r2, c2)
    ensures FlatIndex(s, r1, c1) == FlatIndex(s, r2, c2) <==> (r1 == r2 && c1 == c2)
  {
  }

  lemma MulStrict(x: int, d: int)
    requires d > 0 && x >= 1
    ensures x * d >= d
  {
    var y := x - 1;
    assert x * d == y * d + d;
    assert y * d >= 0;
  }

  lemma DivModUnique(k: int, q: int, r: int, d: int)
    requires d > 0 && 0 <= r < d && k == q * d + r
    ensures k / d == q && k % d == r
  {
    var q', r' := k / d, k % d;
    assert k == q' * d + r';
    assert (q - q') * d == r' - r;
    if q > q' {
      MulStrict(q - q', d);
    } else if q < q' {
      MulStrict(q' - q, d);
    }
  }

  /** If a product of non-negative factors exceeds k >= 0, the second factor is positive. */
  lemma PositiveFactor(a: int, b: int, k: int)
    requires a >= 0 && b >= 0 && 0 <= k < a * b
    ensures b > 0
  {
    if b == 0 {
      assert false;
    }
  }

  /** k < a * b implies k / b < a. */
  lemma DivBelow(k: int, a: int, b: int)
    requires b > 0 && 0 <= k < a * b
    ensures 0 <= k / b < a
  {
    var q := k / b;
    assert k == q * b + k % b;
    if q >= a {
      MulStrict(q - a + 1, b);
    }
  }
}
