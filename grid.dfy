/** The value a Matrix2D holds: its shape and its flat, row-major element
    storage. Copies of a matrix and the defaulted == of the source work on
    exactly this pair, so it is what the class's methods are specified by. */
module Grid {
  import opened Shapes

  datatype Mat<T> = Mat(shape: Shape2D, data: seq<T>)

  /** The storage invariant: a non-negative shape and rows * cols elements. */
  predicate WellFormed<T>(m: Mat<T>) {
    NonNegative(m.shape) && |m.data| == Size(m.shape)
  }

  /** Element (row, col), found at its row-major flat position. */
  function At<T>(m: Mat<T>, row: int, col: int): T
    requires WellFormed(m) && InBounds(m.shape, row, col)
  {
    m.data[FlatIndex(m.shape, row, col)]
  }

  /** A matrix of shape s with every element equal to init. */
  function Filled<T>(s: Shape2D, init: T): (m: Mat<T>)
    requires NonNegative(s)
    ensures WellFormed(m) && m.shape == s
  {
    Mat(s, seq(Size(s), _ => init))
  }

  /** Every element of a filled matrix is the fill value, wherever it is read. */
  lemma FilledAt<T>(s: Shape2D, init: T)
    requires NonNegative(s)
    ensures forall row, col :: InBounds(s, row, col) ==> At(Filled(s, init), row, col) == init
  {
  }

  /** The matrix after writing v through the reference to cell (row, col):
      that cell reads v, the shape and every other cell are as before. */
  function Update<T>(m: Mat<T>, row: int, col: int, v: T): (r: Mat<T>)
    requires WellFormed(m) && InBounds(m.shape, row, col)
    ensures WellFormed(r) && r.shape == m.shape
    ensures At(r, row, col) == v
    ensures forall i, j :: InBounds(m.shape, i, j) && (i != row || j != col) ==>
              At(r, i, j) == At(m, i, j)
  {
    var r := Mat(m.shape, m.data[FlatIndex(m.shape, row, col) := v]);
    forall i, j | InBounds(m.shape, i, j) && (i != row || j != col)
      ensures At(r, i, j) == At(m, i, j)
    {
      FlatIndexInjective(m.shape, i, j, row, col);
    }
    r
  }

  /** Two well-formed matrices are equal exactly when their shapes are equal
      and they agree at every in-range cell; a different shape is never
      equal, whatever the flat storage holds. */
  lemma EqualIffElementwise<T>(a: Mat<T>, b: Mat<T>)
    requires WellFormed(a) && WellFormed(b)
    ensures a == b <==>
      a.shape == b.shape &&
      forall row, col :: InBounds(a.shape, row, col) ==> At(a, row, col) == At(b, row, col)
  {
    if a.shape == b.shape &&
       forall row, col :: InBounds(a.shape, row, col) ==> At(a, row, col) == At(b, row, col)
    {
      forall k | 0 <= k < |a.data|
        ensures a.data[k] == b.data[k]
      {
        var cell := RowMajorCell(a.shape, k);
        assert At(a, cell.0, cell.1) == At(b, cell.0, cell.1);
      }
    }
  }
}
