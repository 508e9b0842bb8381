/** The row and column iteration adapters of Matrix2D. getRows()/getCols()
    give a Rows/Cols view whose begin()/end() are OuterIterators, one
    position per row (or column). Each OuterIterator's begin()/end() are
    InnerIterators that step the column (rows mode) or the row (cols mode)
    up to the bound, yielding the element through the bounds-checked get.
    The direction flag is true for rows mode and false for cols mode.

    Both kinds of != compare the referenced matrices with Matrix2D's
    defaulted ==, that is by value, not by identity. */
module Iterators {
  import opened Outcome
  import opened Shapes
  import opened Grid
  import opened Matrix
  import opened Arithmetic

  class InnerIterator<T(==)> {
    var row: int
    var col: int
    const direction: bool
    const matrix: Matrix2D<T>

    constructor (row: int, col: int, direction: bool, matrix: Matrix2D<T>)
      ensures this.row == row && this.col == col
      ensures this.direction == direction && this.matrix == matrix
    {
      this.row := row;
      this.col := col;
      this.direction := direction;
      this.matrix := matrix;
    }

    /** operator*: the element at the current position, read through get,
        or OutOfRange when the position lies outside the matrix. */
    function Deref(): (r: Result<T>)
      reads this, matrix
      requires matrix.Valid()
      ensures !InBounds(matrix.shape, row, col) ==> r == Err(OutOfRange)
      ensures InBounds(matrix.shape, row, col) ==> r == Ok(At(matrix.Value(), row, col))
    {
      matrix.Get(row, col)
    }

    /** Assigning through operator*: the write lands in the referenced
        matrix, at the current cell only, or fails with OutOfRange. */
    method Assign(v: T) returns (r: Result<()>)
      requires matrix.Valid()
      modifies matrix`data
      ensures matrix.Valid()
      ensures r.Ok? <==> InBounds(matrix.shape, row, col)
      ensures r.Ok? ==> matrix.Value() == Update(old(matrix.Value()), row, col, v)
      ensures r.Err? ==> r.error == OutOfRange && matrix.data == old(matrix.data)
    {
      r := matrix.Set(row, col, v);
    }

    /** operator++: one column on in rows mode, one row down in cols mode. */
    method Next()
      modifies this`row, this`col
      ensures direction ==> row == old(row) && col == old(col) + 1
      ensures !direction ==> row == old(row) + 1 && col == old(col)
    {
      if direction {
        col := col + 1;
      } else {
        row := row + 1;
      }
    }

    /** operator!=: any of position, direction or matrix value differs. Two
        cursors compare equal exactly when they sit at the same cell, in the
        same direction, over matrices of the same shape and contents, whether
        or not those are the same object. */
    function NotEqual(other: InnerIterator<T>): (differ: bool)
      reads this, other, matrix, other.matrix
      requires matrix.Valid() && other.matrix.Valid()
      ensures !differ <==>
        row == other.row && col == other.col && direction == other.direction &&
        matrix.shape == other.matrix.shape &&
        forall r, c :: InBounds(matrix.shape, r, c) ==> At(matrix.Value(), r, c) == At(other.matrix.Value(), r, c)
    {
      row != other.row || col != other.col || direction != other.direction ||
      !matrix.Equals(other.matrix)
    }
  }

  class OuterIterator<T(==)> {
    var pos: int
    const direction: bool
    const matrix: Matrix2D<T>

    constructor (pos: int, direction: bool, matrix: Matrix2D<T>)
      ensures this.pos == pos && this.direction == direction && this.matrix == matrix
    {
      this.pos := pos;
      this.direction := direction;
      this.matrix := matrix;
    }

    /** operator++: the next row (or column). */
    method Next()
      modifies this`pos
      ensures pos == old(pos) + 1
    {
      pos := pos + 1;
    }

    /** operator!=: position, direction or matrix value differs. Two
        cursors compare equal exactly when they are at the same line, in the
        same direction, over matrices of the same shape and contents. */
    function NotEqual(other: OuterIterator<T>): (differ: bool)
      reads this, other, matrix, other.matrix
      requires matrix.Valid() && other.matrix.Valid()
      ensures !differ <==>
        pos == other.pos && direction == other.direction &&
        matrix.shape == other.matrix.shape &&
        forall r, c :: InBounds(matrix.shape, r, c) ==> At(matrix.Value(), r, c) == At(other.matrix.Value(), r, c)
    {
      pos != other.pos || direction != other.direction || !matrix.Equals(other.matrix)
    }

    /** begin() of the line: (pos, 0) in rows mode, (0, pos) in cols mode. */
    method Begin() returns (it: InnerIterator<T>)
      ensures fresh(it) && it.matrix == matrix && it.direction == direction
      ensures direction ==> it.row == pos && it.col == 0
      ensures !direction ==> it.row == 0 && it.col == pos
    {
      if direction {
        it := new InnerIterator(pos, 0, direction, matrix);
      } else {
        it := new InnerIterator(0, pos, direction, matrix);
      }
    }

    /** end() of the line: (pos, cols) in rows mode, (rows, pos) in cols mode. */
    method End() returns (it: InnerIterator<T>)
      ensures fresh(it) && it.matrix == matrix && it.direction == direction
      ensures direction ==> it.row == pos && it.col == matrix.shape.cols
      ensures !direction ==> it.row == matrix.shape.rows && it.col == pos
    {
      if direction {
        it := new InnerIterator(pos, matrix.shape.cols, direction, matrix);
      } else {
        it := new InnerIterator(matrix.shape.rows, pos, direction, matrix);
      }
    }
  }

  /** The view returned by getRows(): lines 0 .. rows in rows mode. */
  class Rows<T(==)> {
    const matrix: Matrix2D<T>

    constructor (matrix: Matrix2D<T>)
      ensures this.matrix == matrix
    {
      this.matrix := matrix;
    }

    method Begin() returns (it: OuterIterator<T>)
      ensures fresh(it) && it.pos == 0 && it.direction && it.matrix == matrix
    {
      it := new OuterIterator(0, true, matrix);
    }

    method End() returns (it: OuterIterator<T>)
      ensures fresh(it) && it.pos == matrix.shape.rows && it.direction && it.matrix == matrix
    {
      it := new OuterIterator(matrix.shape.rows, true, matrix);
    }
  }

  /** The view returned by getCols(): lines 0 .. cols in cols mode. */
  class Cols<T(==)> {
    const matrix: Matrix2D<T>

    constructor (matrix: Matrix2D<T>)
      ensures this.matrix == matrix
    {
      this.matrix := matrix;
    }

    method Begin() returns (it: OuterIterator<T>)
      ensures fresh(it) && it.pos == 0 && !it.direction && it.matrix == matrix
    {
      it := new OuterIterator(0, false, matrix);
    }

    method End() returns (it: OuterIterator<T>)
      ensures fresh(it) && it.pos == matrix.shape.cols && !it.direction && it.matrix == matrix
    {
      it := new OuterIterator(matrix.shape.cols, false, matrix);
    }
  }

  /** getRows(): a view borrowing the matrix, not a copy of it. */
  method GetRows<T(==)>(m: Matrix2D<T>) returns (view: Rows<T>)
    ensures fresh(view) && view.matrix == m
  {
    view := new Rows(m);
  }

  /** getCols(): a view borrowing the matrix, not a copy of it. */
  method GetCols<T(==)>(m: Matrix2D<T>) returns (view: Cols<T>)
    ensures fresh(view) && view.matrix == m
  {
    view := new Cols(m);
  }

  /** Inner != looks at the matrices' values, not their identity: at the
      same cell and direction, two iterators are != exactly when the
      matrices they reference hold different values. */
  lemma InnerNotEqualComparesValues<T>(a: InnerIterator<T>, b: InnerIterator<T>)
    requires a.matrix.Valid() && b.matrix.Valid()
    requires a.row == b.row && a.col == b.col && a.direction == b.direction
    ensures a.NotEqual(b) <==> a.matrix.Value() != b.matrix.Value()
  {
  }

  /** The same for outer iterators at the same position and direction. */
  lemma OuterNotEqualComparesValues<T>(a: OuterIterator<T>, b: OuterIterator<T>)
    requires a.matrix.Valid() && b.matrix.Valid()
    requires a.pos == b.pos && a.direction == b.direction
    ensures a.NotEqual(b) <==> a.matrix.Value() != b.matrix.Value()
  {
  }

  /** Two distinct matrix objects built alike: iterators at the same cell
      over them are not !=, although they reference different matrices. */
  method IteratorsOverEqualCopies() returns (distinctMatrices: bool, notEqual: bool)
    ensures distinctMatrices && !notEqual
  {
    var m1 := new Matrix2D(Shape2D(2, 3), 7);
    var m2 := new Matrix2D.Copy(m1);
    var a := new InnerIterator(1, 2, true, m1);
    var b := new InnerIterator(1, 2, true, m2);
    distinctMatrices := a.matrix != b.matrix;
    notEqual := a.NotEqual(b);
  }

  // ---------------------------------------------------------------------
  // The order in which a traversal visits cells
  // ---------------------------------------------------------------------

  /** Number of lines a view has: rows in rows mode, cols in cols mode. */
  function LineCount(s: Shape2D, direction: bool): int {
    if direction then s.rows else s.cols
  }

  /** Length of one line: cols in rows mode, rows in cols mode. */
  function LineLength(s: Shape2D, direction: bool): int {
    if direction then s.cols else s.rows
  }

  /** The cells one line visits, from its begin() up to its end(): the i-th
      is (pos, i) in rows mode and (i, pos) in cols mode, and all of them are
      inside the matrix when the line is one of its rows (columns). */
  function LineCells(s: Shape2D, pos: int, direction: bool): (cells: seq<(int, int)>)
    requires NonNegative(s)
    ensures |cells| == LineLength(s, direction)
    ensures forall i :: 0 <= i < |cells| ==> cells[i] == (if direction then (pos, i) else (i, pos))
    ensures 0 <= pos < LineCount(s, direction) ==>
              forall i :: 0 <= i < |cells| ==> InBounds(s, cells[i].0, cells[i].1)
  {
    if direction then seq(s.cols, c => (pos, c)) else seq(s.rows, r => (r, pos))
  }

  /** The cells the first n lines visit, line after line. */
  function Lines(s: Shape2D, direction: bool, n: int): (cells: seq<(int, int)>)
    requires NonNegative(s) && 0 <= n <= LineCount(s, direction)
    ensures |cells| == n * LineLength(s, direction)
    ensures forall i :: 0 <= i < |cells| ==> InBounds(s, cells[i].0, cells[i].1)
  {
    if n == 0 then []
    else
      var cells := Lines(s, direction, n - 1) + LineCells(s, n - 1, direction);
      assert |cells| == (n - 1) * LineLength(s, direction) + LineLength(s, direction);
      cells
  }

  /** The cells a whole traversal of getRows() or getCols() visits: every
      cell once, in row-major order for rows and column-major order for cols. */
  function VisitOrder(s: Shape2D, direction: bool): (cells: seq<(int, int)>)
    requires NonNegative(s)
    ensures |cells| == Size(s)
    ensures direction ==> forall k :: 0 <= k < |cells| ==> cells[k] == RowMajorCell(s, k)
    ensures !direction ==> forall k :: 0 <= k < |cells| ==> cells[k] == ColumnMajorCell(s, k)
  {
    RowLinesAreRowMajor(s, s.rows);
    ColLinesAreColumnMajor(s, s.cols);
    Lines(s, direction, LineCount(s, direction))
  }

  /** The elements read at a sequence of in-range cells. */
  function ValuesAt<T>(m: Mat<T>, cells: seq<(int, int)>): (values: seq<T>)
    requires WellFormed(m)
    requires forall i :: 0 <= i < |cells| ==> InBounds(m.shape, cells[i].0, cells[i].1)
    ensures |values| == |cells|
    ensures forall i :: 0 <= i < |cells| ==> values[i] == At(m, cells[i].0, cells[i].1)
  {
    seq(|cells|, i requires 0 <= i < |cells| => At(m, cells[i].0, cells[i].1))
  }

  /** The first n lines of a rows traversal visit the first n * cols cells
      in row-major order. */
  lemma {:induction false} RowLinesAreRowMajor(s: Shape2D, n: int)
    requires NonNegative(s) && 0 <= n <= s.rows
    ensures forall k :: 0 <= k < |Lines(s, true, n)| ==> Lines(s, true, n)[k] == RowMajorCell(s, k)
  {
    if n > 0 {
      RowLinesAreRowMajor(s, n - 1);
      var prev := Lines(s, true, n - 1);
      forall k | |prev| <= k < |Lines(s, true, n)|
        ensures Lines(s, true, n)[k] == RowMajorCell(s, k)
      {
        var c := k - |prev|;
        assert Lines(s, true, n)[k] == (n - 1, c);
        DivModUnique(k, n - 1, c, s.cols);
      }
    }
  }

  /** The first n lines of a cols traversal visit the first n * rows cells
      in column-major order. */
  lemma {:induction false} ColLinesAreColumnMajor(s: Shape2D, n: int)
    requires NonNegative(s) && 0 <= n <= s.cols
    ensures forall k :: 0 <= k < |Lines(s, false, n)| ==> Lines(s, false, n)[k] == ColumnMajorCell(s, k)
  {
    if n > 0 {
      ColLinesAreColumnMajor(s, n - 1);
      var prev := Lines(s, false, n - 1);
      forall k | |prev| <= k < |Lines(s, false, n)|
        ensures Lines(s, false, n)[k] == ColumnMajorCell(s, k)
      {
        var r := k - |prev|;
        assert Lines(s, false, n)[k] == (r, n - 1);
        DivModUnique(k, n - 1, r, s.rows);
      }
    }
  }

  /** A rows traversal reads exactly the row-major storage, data(). */
  lemma RowTraversalIsData<T>(m: Mat<T>)
    requires WellFormed(m)
    ensures ValuesAt(m, VisitOrder(m.shape, true)) == m.data
  {
    RowLinesAreRowMajor(m.shape, m.shape.rows);
  }

  /** A cols traversal reads the matrix column by column: the storage of
      its transpose. */
  lemma ColTraversalIsTransposedData<T>(m: Mat<T>)
    requires WellFormed(m)
    ensures ValuesAt(m, VisitOrder(m.shape, false)) == TransposeSpec(m).data
  {
    ColLinesAreColumnMajor(m.shape, m.shape.cols);
  }

  // ---------------------------------------------------------------------
  // Range-for traversals, driven by the iterators
  // ---------------------------------------------------------------------

  /** for (auto& e : line): collects the elements from line.begin() until
      the inner iterator compares equal to line.end(). */
  method TraverseLine<T(==)>(line: OuterIterator<T>) returns (xs: seq<T>)
    requires line.matrix.Valid()
    requires 0 <= line.pos < LineCount(line.matrix.shape, line.direction)
    ensures xs == ValuesAt(line.matrix.Value(), LineCells(line.matrix.shape, line.pos, line.direction))
  {
    var m := line.matrix;
    var s := m.shape;
    ghost var cells := LineCells(s, line.pos, line.direction);
    var it := line.Begin();
    var stop := line.End();
    xs := [];
    ghost var done := 0;
    while it.NotEqual(stop)
      invariant it != stop && it.matrix == m && stop.matrix == m
      invariant it.direction == stop.direction == line.direction
      invariant line.direction ==> stop.row == line.pos && stop.col == s.cols && it.row == line.pos && it.col == done
      invariant !line.direction ==> stop.row == s.rows && stop.col == line.pos && it.col == line.pos && it.row == done
      invariant 0 <= done <= |cells|
      invariant xs == ValuesAt(m.Value(), cells[..done])
      decreases |cells| - done
    {
      assert done < |cells|;
      var x := it.Deref();
      xs := xs + [x.value];
      it.Next();
      done := done + 1;
    }
    assert cells[..done] == cells;
  }

  /** for (auto& row : m.getRows()) for (auto& e : row): the elements in
      the order the iterators yield them, which is the storage order. */
  method TraverseRows<T(==)>(m: Matrix2D<T>) returns (visited: seq<T>)
    requires m.Valid()
    ensures visited == m.data
  {
    var view := GetRows(m);
    var line := view.Begin();
    var last := view.End();
    visited := [];
    while line.NotEqual(last)
      invariant line != last && line.matrix == m && last.matrix == m
      invariant line.direction && last.direction && last.pos == m.shape.rows
      invariant 0 <= line.pos <= m.shape.rows
      invariant visited == ValuesAt(m.Value(), Lines(m.shape, true, line.pos))
      decreases m.shape.rows - line.pos
    {
      var xs := TraverseLine(line);
      visited := visited + xs;
      line.Next();
    }
    RowTraversalIsData(m.Value());
  }

  /** for (auto& col : m.getCols()) for (auto& e : col): the elements in
      column-major order, which is the storage of the transpose. */
  method TraverseCols<T(==)>(m: Matrix2D<T>) returns (visited: seq<T>)
    requires m.Valid()
    ensures visited == TransposeSpec(m.Value()).data
  {
    var view := GetCols(m);
    var line := view.Begin();
    var last := view.End();
    visited := [];
    while line.NotEqual(last)
      invariant line != last && line.matrix == m && last.matrix == m
      invariant !line.direction && !last.direction && last.pos == m.shape.cols
      invariant 0 <= line.pos <= m.shape.cols
      invariant visited == ValuesAt(m.Value(), Lines(m.shape, false, line.pos))
      decreases m.shape.cols - line.pos
    {
      var xs := TraverseLine(line);
      visited := visited + xs;
      line.Next();
    }
    ColTraversalIsTransposedData(m.Value());
  }
}
