# cpp-matrix in Dafny

This project models the core of the cpp-matrix library: the dynamically
shaped matrix `Matrix2D<T>` (`src/matrix2d.hpp`) with its shape type, its
bounds-checked element access and defaulted equality, the free arithmetic
functions built on it (`Add`, `AddScalar`, `MultScalar`, `Sub`, `Transpose`,
`DotProduct2D`, `Rand2D`) and its row/column iterators. It also models the two
peripheral containers, the fixed-size `Matrix2DArray` (`src/matrix2darray.hpp`)
and the integer fixed-arity vectors `Vec2Int`/`Vec3Int`/`Vec4Int`
(`src/vec.hpp`).

Layout, one module per file:

- `outcome.dfy` (`Outcome`): the error kinds `OutOfRange` and `ShapeMismatch`
  and a `Result` type. The source throws them as exceptions.
- `shapes.dfy` (`Shapes`): `Shape2D` and the row-major index arithmetic. Cell
  `(row, col)` is stored at `row * cols + col`.
- `grid.dfy` (`Grid`): `Mat<T>`, the value of a matrix: its shape and its
  flat storage. Also reading a cell, writing a cell, filled matrices, and
  equality.
- `matrix2d.dfy` (`Matrix`): the class `Matrix2D<T>`. It has the fields
  `shape` and `data`, constructors, `Get`/`Set` (reading and writing through
  `get`) and `Equals` (`==`).
- `arithmetic.dfy` (`Arithmetic`): one specification function per operation,
  stated on matrix values. Each method runs the source's nested loops over
  fresh `Matrix2D` objects and is proved to return its specification's
  value. The lemmas prove the laws the tests check.
- `iterators.dfy` (`Iterators`): `InnerIterator`, `OuterIterator`, `Rows`,
  `Cols`, `GetRows`, `GetCols`. It gives the cell order of each traversal as
  a function. It has range-for traversals driven by the iterators, proved to
  yield that order.
- `matrix2darray.dfy` (`FixedMatrix`): `Matrix2DArray` over a
  two-dimensional array.
- `vec.dfy` (`Vectors`): `Vec` over a sequence whose length is the arity.

`operator!=` on both iterator kinds (`src/matrix2d.hpp:67`, `85`) compares
the referenced matrices with `Matrix2D`'s defaulted `==`, so by value, not by
identity. Iterators at the same cell over two distinct but equal matrices do
not compare `!=`. `InnerNotEqualComparesValues`, `OuterNotEqualComparesValues`
and `IteratorsOverEqualCopies` state this behaviour.

## Model

| member | source | states |
|---|---|---|
| `Shapes.FlatIndex` | src/matrix2d.hpp:146-158 | an in-range `(row, col)` addresses storage position `row * cols + col`, which lies inside the `rows * cols` elements, and `(row, col)` is recovered from it as `(k / cols, k % cols)` |
| `Shapes.FlatIndexInjective` | src/matrix2d.hpp:153-158 | two in-range cells share a storage position only if they are the same cell |
| `Grid.FilledAt` | src/matrix2d.hpp:34-35 | in a matrix built from a shape and `init_value`, every in-range element reads `init_value` |
| `Grid.Update` | src/matrix2d.hpp:153-158 | writing `v` through `get(row, col)` makes that cell read `v` and leaves the shape and every other cell unchanged |
| `Grid.EqualIffElementwise` | src/matrix2d.hpp:160 | two matrices are equal iff their shapes are equal and they agree at every in-range cell; matrices of different shapes are never equal |
| `Matrix.Matrix2D.constructor` | src/matrix2d.hpp:34-35 | construction from a shape gives that shape and `rows * cols` copies of `init_value` |
| `Matrix.Matrix2D.FromDims` | src/matrix2d.hpp:36-37 | construction from `(rows, cols)` gives the same value as construction from `Shape2D{rows, cols}` |
| `Matrix.Matrix2D.Copy` | test/test_matrix2d.cpp:12-19 | a copy has the same shape and elements as its source |
| `Matrix.Matrix2D.Get` | src/matrix2d.hpp:146-151 | `OutOfRange` if `row` or `col` is outside `[0, rows)` or `[0, cols)`, otherwise the element at storage position `row * cols + col` |
| `Matrix.Matrix2D.Set` | src/matrix2d.hpp:153-158 | `OutOfRange` with nothing changed if out of range, checked before any write; otherwise only cell `(row, col)` changes, to `v` |
| `Matrix.Matrix2D.Equals` | src/matrix2d.hpp:160 | `==` holds iff the shapes are equal and every in-range element is equal |
| `Matrix.ConstructorsAgree` | test/test_matrix2d.cpp:10-19 | `Matrix2D(rows, cols)` equals `Matrix2D({rows, cols})`, and a copy equals its source |
| `Matrix.EqualsIsEquivalence` | test/test_matrix2d.cpp:280-311 | `==` is reflexive, symmetric and transitive |
| `Arithmetic.AddSpec` | src/matrix2d.hpp:174-190 | `ShapeMismatch` iff the shapes differ; otherwise the lhs shape with `result(i, j) = lhs(i, j) + rhs(i, j)` at every cell |
| `Arithmetic.AddScalarSpec` | src/matrix2d.hpp:192-199 | the shape is kept and every element `e` becomes `e + scalar` |
| `Arithmetic.MultScalarSpec` | src/matrix2d.hpp:201-208 | the shape is kept and every element `e` becomes `e * scalar` |
| `Arithmetic.SubSpec` | src/matrix2d.hpp:209-215 | built as `Add(lhs, MultScalar(rhs, -1))`: `ShapeMismatch` iff the shapes differ, otherwise `result(i, j) = lhs(i, j) - rhs(i, j)` |
| `Arithmetic.TransposeSpec` | src/matrix2d.hpp:217-232 | the shape is `(cols, rows)` and `result(c, r) = mat(r, c)` for every in-range `(r, c)` |
| `Arithmetic.RowColSum` | src/matrix2d.hpp:251-256 | the running `sum` of `lhs(i, k) * rhs(k, j)` over `k < n`, starting from 0; it is 0 whenever every term has a zero factor, in particular for an empty inner dimension |
| `Arithmetic.DotSpec` | src/matrix2d.hpp:234-263 | `ShapeMismatch` iff `lhs.cols != rhs.rows`; otherwise shape `(lhs.rows, rhs.cols)` with `result(i, j)` the sum of `lhs(i, k) * rhs(k, j)` over `k < lhs.cols`, accumulated from 0 in increasing `k` |
| `Arithmetic.Add` | src/matrix2d.hpp:174-190 | the nested loops filling a fresh zero matrix through `get` return exactly `AddSpec`'s value or error |
| `Arithmetic.AddScalar` | src/matrix2d.hpp:192-199 | the in-place loop over a copy's storage returns `AddScalarSpec` of the argument, and the argument is not modified |
| `Arithmetic.MultScalar` | src/matrix2d.hpp:201-208 | the in-place loop over a copy's storage returns `MultScalarSpec` of the argument, and the argument is not modified |
| `Arithmetic.Sub` | src/matrix2d.hpp:209-215 | negating a copy of `rhs` and adding returns exactly `SubSpec`'s value or error |
| `Arithmetic.Transpose` | src/matrix2d.hpp:217-232 | the nested loops writing `result(col, row)` return `TransposeSpec` of the argument |
| `Arithmetic.DotProduct2D` | src/matrix2d.hpp:234-263 | the shape check and the three nested loops with the running `sum` return exactly `DotSpec`'s value or error |
| `Arithmetic.Rand2D` | src/matrix2d.hpp:265-283 | given the engine's draws from `[1, 9]` in row-major order, the result has the requested shape and each element is its draw plus one, so it lies in `[2, 10]` |
| `Arithmetic.TransposeInvolutive` | test/test_matrix2d.cpp:257-278 | `Transpose(Transpose(A)) == A` |
| `Arithmetic.SubSelfIsZero` | test/test_matrix2d.cpp:247-254 | `Sub(A, A)` is the all-zero matrix of `A`'s shape |
| `Arithmetic.SubZeroIsIdentity` | src/matrix2d.hpp:209-215 | subtracting the zero matrix of the same shape returns `A` unchanged |
| `Arithmetic.MultScalarZeroIsZeroMatrix` | test/test_matrix2d.cpp:206-213 | `MultScalar(A, 0)` equals `Matrix2D(A.shape())` |
| `Arithmetic.ScalarOpsOnFilled` | test/test_matrix2d.cpp:182-233 | on constant matrices, `AddScalar`, `MultScalar` and `Sub` give the constants `a + b`, `a * b` and `a - b` |
| `Arithmetic.AddExample` | test/test_matrix2d.cpp:129-161 | `[[0,1],[2,3]] + [[4,5],[6,7]] == [[4,6],[8,10]]` |
| `Arithmetic.DotExample` | test/test_matrix2d.cpp:332-352 | `[[1,2],[3,4]] . [[5,6],[7,8]] == [[19,22],[43,50]]` |
| `Iterators.InnerIterator.constructor` | src/matrix2d.hpp:49-51 | an inner iterator holds its row, column, direction and a reference to the matrix |
| `Iterators.InnerIterator.Deref` | src/matrix2d.hpp:53 | `operator*` reads the referenced matrix at the iterator's cell through `get`: `OutOfRange` outside the matrix, otherwise that cell's element |
| `Iterators.InnerIterator.Assign` | src/matrix2d.hpp:53 | a write through `operator*` lands in the referenced matrix at the current cell only, or fails with `OutOfRange` |
| `Iterators.InnerIterator.Next` | src/matrix2d.hpp:55-62 | `++` advances the column in rows mode and the row in cols mode |
| `Iterators.InnerIterator.NotEqual` | src/matrix2d.hpp:64-68 | two inner iterators are not `!=` exactly when row, column and direction agree and the referenced matrices have the same shape and the same element at every cell, whether or not they are the same object |
| `Iterators.OuterIterator.constructor` | src/matrix2d.hpp:78-79 | an outer iterator holds its line position, direction and a reference to the matrix |
| `Iterators.OuterIterator.Next` | src/matrix2d.hpp:88-91 | `++` advances the line position by one |
| `Iterators.OuterIterator.NotEqual` | src/matrix2d.hpp:83-86 | two outer iterators are not `!=` exactly when position and direction agree and the referenced matrices have the same shape and the same element at every cell |
| `Iterators.OuterIterator.Begin` | src/matrix2d.hpp:93-101 | the line starts at `(pos, 0)` in rows mode and at `(0, pos)` in cols mode |
| `Iterators.OuterIterator.End` | src/matrix2d.hpp:102-112 | the line ends at `(pos, cols)` in rows mode and at `(rows, pos)` in cols mode |
| `Iterators.Rows.constructor` | src/matrix2d.hpp:119-121 | the rows view borrows the matrix |
| `Iterators.Rows.Begin` | src/matrix2d.hpp:122 | the rows view starts at line 0 in rows mode |
| `Iterators.Rows.End` | src/matrix2d.hpp:123-126 | the rows view ends at line `rows` |
| `Iterators.Cols.constructor` | src/matrix2d.hpp:129-131 | the cols view borrows the matrix |
| `Iterators.Cols.Begin` | src/matrix2d.hpp:133-135 | the cols view starts at line 0 in cols mode |
| `Iterators.Cols.End` | src/matrix2d.hpp:136-139 | the cols view ends at line `cols` |
| `Iterators.GetRows` | src/matrix2d.hpp:144 | `getRows()` returns a view of this matrix, not of a copy |
| `Iterators.GetCols` | src/matrix2d.hpp:143 | `getCols()` returns a view of this matrix, not of a copy |
| `Iterators.InnerNotEqualComparesValues` | src/matrix2d.hpp:64-68 | at equal positions and direction, inner `!=` holds iff the referenced matrices differ in value |
| `Iterators.OuterNotEqualComparesValues` | src/matrix2d.hpp:83-86 | at equal position and direction, outer `!=` holds iff the referenced matrices differ in value |
| `Iterators.IteratorsOverEqualCopies` | src/matrix2d.hpp:64-68 | iterators at the same cell over two distinct but equal matrix objects are not `!=` |
| `Iterators.LineCells` | src/matrix2d.hpp:93-112 | a line from `begin()` to `end()` visits `(pos, 0) .. (pos, cols - 1)` in rows mode and `(0, pos) .. (rows - 1, pos)` in cols mode, all inside the matrix when `pos` names one of its rows (columns) |
| `Iterators.Lines` | src/matrix2d.hpp:119-140 | the first `n` lines visit `n` times the line length cells, all in range |
| `Iterators.VisitOrder` | src/matrix2d.hpp:119-140 | a whole traversal of `getRows()` visits the `rows * cols` cells in row-major order, and of `getCols()` in column-major order |
| `Iterators.RowLinesAreRowMajor` | src/matrix2d.hpp:119-127 | the `k`-th cell of a rows traversal is the cell stored at position `k` (row-major order) |
| `Iterators.ColLinesAreColumnMajor` | src/matrix2d.hpp:129-140 | the `k`-th cell of a cols traversal is `(k % rows, k / rows)` (column-major order) |
| `Iterators.RowTraversalIsData` | test/test_matrix2d.cpp:85-104 | the values of a rows traversal are exactly `data()` |
| `Iterators.ColTraversalIsTransposedData` | test/test_matrix2d.cpp:106-125 | the values of a cols traversal are the column-major sequence, which is the storage of the transpose |
| `Iterators.TraverseLine` | src/matrix2d.hpp:53-68 | looping from a line's `begin()` while `!=` its `end()` yields the line's elements in order |
| `Iterators.TraverseRows` | test/test_matrix2d.cpp:97-101 | the nested range-for over `getRows()` yields exactly `data()` |
| `Iterators.TraverseCols` | test/test_matrix2d.cpp:118-122 | the nested range-for over `getCols()` yields the column-major sequence |
| `FixedMatrix.Matrix2DArray.constructor` | src/matrix2darray.hpp:15-19 | after the row-by-row fill, every cell holds `init_value` |
| `FixedMatrix.Matrix2DArray.Get` | src/matrix2darray.hpp:21-23 | with indices inside the extents (unchecked in the source), reading through `get` gives the element stored at `[row][col]` |
| `FixedMatrix.Matrix2DArray.Set` | src/matrix2darray.hpp:21-23 | with indices inside the extents (unchecked in the source), a write through `get` changes cell `[row][col]` only |
| `FixedMatrix.InitExamples` | test/test_matrix2darray.cpp:11-29 | a default-built `Matrix2DArray<int, 10, 10>` reads 0 everywhere and one built with 42 reads 42 everywhere |
| `Vectors.Vec.Default` | src/vec.hpp:16 | the default constructor value-initialises every component to 0 |
| `Vectors.Vec.constructor` | src/vec.hpp:18 | the variadic constructor stores its arguments in order |
| `Vectors.Vec.Copy` | test/test_vec.cpp:26-36 | a copy has identical components |
| `Vectors.Vec.Get` | src/vec.hpp:20-23 | reading through `get<index>()` gives component `index` |
| `Vectors.Vec.Set` | src/vec.hpp:20-23 | writing through `get<index>()` changes component `index` only |
| `Vectors.Vec.Equals` | src/vec.hpp:25-27 | `==` holds iff all components are pairwise equal |
| `Vectors.Vec.NotEquals` | src/vec.hpp:29 | `!=` holds iff some component differs, the negation of `==` |
| `Vectors.ConstructionExamples` | test/test_vec.cpp:18-36 | `Vec2Int(5, 3)` reads 5 then 3, and a copy of `(10, 72)` reads 10 and 72 and equals its source |
| `Vectors.AssignmentExamples` | test/test_vec.cpp:38-61 | `(1, 2)` with both components multiplied by 6 is `(6, 12)`; `(5, 7)` with `c0 *= c1` has `c0 = 35` |

## Left out

- Element type: the arithmetic is on `Matrix2D<int>`, the only element type the tests use. Storage, access, equality, the transpose specification and the iterators are generic.
- Integer width: elements, shapes and indices are mathematical integers. C++ `int` overflow in sums, products and `row * cols + col` is not modelled.
- Negative shapes: the source constructors accept them without a check. The model's constructors require `rows >= 0` and `cols >= 0`.
- `T{}`: the default fill value is passed explicitly (0 for int). `Matrix2DArray` gets its value-initialised storage from Dafny's default for the element type.
- Exceptions: only the error kind is returned (`OutOfRange` or `ShapeMismatch`). The message text, including the shapes in `DotProduct2D`'s message, is not modelled.
- Arithmetic.Rand2D: `std::random_device` and `minstd_rand` are replaced by a parameter holding the values the distribution returns. The model states the range and order of those draws, not their distribution.
- `Shape2D` comparison: the defaulted `<=>` also gives a lexicographic `<`, `<=`, `>` and `>=`. Nothing in the library orders shapes, so only equality is modelled.
- Move construction and the moved-from state are not modelled. Only copies are.
- `rows()`, `cols()`, `shape()` and `data()` are plain reads of the `shape` and `data` fields (`Rows`, `Cols`). `data()`'s mutable reference is used directly by `AddScalar` and `MultScalar`.
- `OuterIterator::operator*` returns the iterator itself. The traversals pass the outer iterator straight to the line loop (`TraverseLine`).
- Iterator lifetime (a view must not outlive its matrix) is not modelled: Dafny objects are never freed.
- `Vec`: only the integer aliases are modelled. The floating-point `Vec2`, `Vec3` and `Vec4` are not. The compile-time index of `get<Index>` becomes a precondition.
- `Matrix2DArray::get` does no bounds check, so `Get` and `Set` require indices inside the extents.
- `test/main.cpp` is a printing demo, and it is not part of this model.
