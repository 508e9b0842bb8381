/** Matrix2DArray<T, ROWS, COLS>: a fixed-size matrix stored inline as an
    array of ROWS rows of COLS elements, filled at construction, with an
    unchecked get. The compile-time extents become constant fields and the
    nested std::array a two-dimensional Dafny array. The element type needs
    a default value, as the source's value-initialisation of m_data does. */
module FixedMatrix {

  class Matrix2DArray<T(0)> {
    const rows: nat
    const cols: nat
    const cells: array2<T>

    /** The array has the extents the type promises. */
    predicate Valid() {
      cells.Length0 == rows && cells.Length1 == cols
    }

    /** Matrix2DArray(init_value): each row in turn is filled with init_value. */
    constructor (rows: nat, cols: nat, init: T)
      ensures Valid() && this.rows == rows && this.cols == cols && fresh(cells)
      ensures forall r, c :: 0 <= r < rows && 0 <= c < cols ==> cells[r, c] == init
    {
      this.rows := rows;
      this.cols := cols;
      cells := new T[rows, cols];  // m_data{}: value-initialised storage
      new;
      var r := 0;
      while r < rows
        invariant 0 <= r <= rows
        invariant forall i, j :: 0 <= i < r && 0 <= j < cols ==> cells[i, j] == init
      {
        // row.fill(init_value)
        var c := 0;
        while c < cols
          invariant 0 <= c <= cols
          invariant forall i, j :: 0 <= i < r && 0 <= j < cols ==> cells[i, j] == init
          invariant forall j :: 0 <= j < c ==> cells[r, j] == init
        {
          cells[r, c] := init;
          c := c + 1;
        }
        r := r + 1;
      }
    }

    /** Reading through get(row, col): no bounds check, so the caller must
        stay inside the extents. */
    function Get(row: nat, col: nat): (v: T)
      reads cells
      requires Valid() && row < rows && col < cols
      ensures v == cells[row, col]
    {
      cells[row, col]
    }

    /** Writing through get(row, col): only that cell changes. */
    method Set(row: nat, col: nat, v: T)
      requires Valid() && row < rows && col < cols
      modifies cells
      ensures cells[row, col] == v
      ensures forall r, c :: 0 <= r < rows && 0 <= c < cols && (r != row || c != col) ==>
                cells[r, c] == old(cells[r, c])
    {
      cells[row, col] := v;
    }
  }

  /** Matrix2DArray<int, 10, 10>() and Matrix2DArray<int, 10, 10>(42): the
      default T{} is 0 for int, and every cell reads the fill value. */
  method InitExamples() returns (zeros: Matrix2DArray<int>, fortyTwos: Matrix2DArray<int>)
    ensures zeros.Valid() && zeros.rows == 10 && zeros.cols == 10
    ensures fortyTwos.Valid() && fortyTwos.rows == 10 && fortyTwos.cols == 10
    ensures forall r, c :: 0 <= r < 10 && 0 <= c < 10 ==> zeros.Get(r, c) == 0 && fortyTwos.Get(r, c) == 42
  {
    zeros := new Matrix2DArray(10, 10, 0);
    fortyTwos := new Matrix2DArray(10, 10, 42);
  }
}
