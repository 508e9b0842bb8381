/** Matrix2D<T>: a dynamically shaped matrix that owns its shape and a flat
    row-major vector of rows * cols elements. Element access is
    bounds-checked; the source's mutable reference returned by get is
    modelled as a read (Get) and a write through it (Set). */
module Matrix {
  import opened Outcome
  import opened Shapes
  import opened Grid

  class Matrix2D<T(==)> {
    var shape: Shape2D
    var data: seq<T>

    /** The value of the matrix: what copies share and == compares. */
    function Value(): Mat<T>
      reads this
    {
      Mat(shape, data)
    }

    /** The storage holds exactly rows * cols elements. */
    predicate Valid()
      reads this
    {
      WellFormed(Value())
    }

    /** Matrix2D(shape, init_value): rows * cols copies of init_value. */
    constructor (shape: Shape2D, init: T)
      requires NonNegative(shape)
      ensures Valid() && Value() == Filled(shape, init)
    {
      this.shape := shape;
      this.data := seq(Size(shape), _ => init);
    }

    /** Matrix2D(rows, cols, init_value), which delegates to the shape
        constructor with Shape2D{rows, cols}. */
    constructor FromDims(rows: int, cols: int, init: T)
      requires rows >= 0 && cols >= 0
      ensures Valid() && Value() == Filled(Shape2D(rows, cols), init)
    {
      this.shape := Shape2D(rows, cols);
      this.data := seq(rows * cols, _ => init);
    }

    /** The copy constructor: an independent matrix with the same value. */
    constructor Copy(other: Matrix2D<T>)
      requires other.Valid()
      ensures Valid() && Value() == other.Value()
    {
      this.shape := other.shape;
      this.data := other.data;
    }

    function Rows(): int
      reads this
    {
      shape.rows
    }

    function Cols(): int
      reads this
    {
      shape.cols
    }

    /** Reading through get(row, col): OutOfRange unless 0 <= row < rows and
        0 <= col < cols, otherwise the element at flat position row * cols + col. */
    function Get(row: int, col: int): (r: Result<T>)
      reads this
      requires Valid()
      ensures !InBounds(shape, row, col) ==> r == Err(OutOfRange)
      ensures InBounds(shape, row, col) ==> r == Ok(data[FlatIndex(shape, row, col)])
    {
      if row < 0 || row >= shape.rows then Err(OutOfRange)
      else if col < 0 || col >= shape.cols then Err(OutOfRange)
      else Ok(At(Value(), row, col))
    }

    /** Writing v through get(row, col). The bounds are checked before any
        write: out of range, nothing changes; in range, exactly that cell
        changes and the shape stays. */
    method Set(row: int, col: int, v: T) returns (r: Result<()>)
      requires Valid()
      modifies this`data
      ensures Valid()
      ensures r.Ok? <==> InBounds(shape, row, col)
      ensures r.Err? ==> r.error == OutOfRange && data == old(data)
      ensures r.Ok? ==> Value() == Update(old(Value()), row, col, v)
    {
      if row < 0 || row >= shape.rows {
        return Err(OutOfRange);
      }
      if col < 0 || col >= shape.cols {
        return Err(OutOfRange);
      }
      data := data[FlatIndex(shape, row, col) := v];
      r := Ok(());
    }

    /** The defaulted ==: equal shapes and equal storage, which is the same
        as equal shapes and equal elements at every cell. */
    function Equals(other: Matrix2D<T>): (equal: bool)
      reads this, other
      requires Valid() && other.Valid()
      ensures equal <==>
        shape == other.shape &&
        forall row, col :: InBounds(shape, row, col) ==> At(Value(), row, col) == At(other.Value(), row, col)
    {
      EqualIffElementwise(Value(), other.Value());
      shape == other.shape && data == other.data
    }
  }

  /** Matrix2D<int>(10, 10) == Matrix2D<int>({10, 10}): the two constructors
      build equal matrices, and a copy equals its source. */
  method ConstructorsAgree(rows: int, cols: int, init: int) returns (same: bool, copySame: bool)
    requires rows >= 0 && cols >= 0
    ensures same && copySame
  {
    var a := new Matrix2D.FromDims(rows, cols, init);
    var b := new Matrix2D(Shape2D(rows, cols), init);
    same := a.Equals(b);
    var c := new Matrix2D.Copy(a);
    copySame := c.Equals(a);
  }

  /** == is reflexive, symmetric and transitive on matrix values. */
  lemma EqualsIsEquivalence<T>(a: Matrix2D<T>, b: Matrix2D<T>, c: Matrix2D<T>)
    requires a.Valid() && b.Valid() && c.Valid()
    ensures a.Equals(a)
    ensures a.Equals(b) ==> b.Equals(a)
    ensures a.Equals(b) && b.Equals(c) ==> a.Equals(c)
  {
  }
}
