# Matrix (matrix_oop) in Dafny

A model of the `Matrix` value class of the `matrix_oop` package. A `Matrix`
represents an algebraic matrix with a fixed number of rows. It keeps the row
count and a private buffer of its elements in row-major order. The column
count is derived: the buffer length divided by the row count. The class
invariants say that there is at least one row and at least one column, and
that the buffer holds exactly `nbRows * nbColumns` elements.

The constructor validates its arguments in order: row count, column count,
then buffer length. It stores a copy of the caller's buffer, never the
caller's array itself. The accessors `getNbRows`, `getNbColumns`,
`getElementsRowMajor` and `getElementsRowArrays` are only declared in this
draft of the class, with bodies that throw. Their behaviour is fixed by the
documented contracts, and the model implements and proves those contracts.
Each accessor that reveals elements returns newly allocated arrays. A row
view gives the element at row `r`, column `c` as the one at flat index
`r * nbColumns + c` of the row-major view.

The project has two modules:

- `Layout` (layout.dfy) holds the row-major layout as pure functions on
  sequences. `Rows` cuts a flat buffer into rows and `Flatten` joins rows
  back. `FlatIndex` gives the flat position of a cell. Lemmas prove that
  `Rows` and `Flatten` are inverse to each other, that row `r` is the slice
  starting at `r * cols`, and that cells and flat indices correspond one to
  one.
- `MatrixOop` (matrix.dfy) holds the argument check and the class `Matrix`.
  The class has the source's two fields, `nbRows` and `elements` (an
  array). `Valid()` is the class invariant. The accessors that allocate
  arrays are methods with loops and `fresh` postconditions. The pure
  inspectors are functions. At the end, three client methods state what a
  caller can rely on: copies are independent, and repeated calls give equal
  results.

The constructor throws `IllegalArgumentException`. The model splits this in
two. `Matrix.Create` runs the checks and returns `Failure(reason)` for the
first check that fails. The unnamed constructor is the success path, and
its precondition is that the checks passed.

The doc comment's null clause
(`@throws IllegalArgumentException | elementsRowMajor != null`,
Matrix.java:65) is stated inverted, and the code has no null check: a null
array fails with a null-pointer error when its length is read at line 78.
The model takes a non-null `array<T>`.

## Model

| member | source | states |
|---|---|---|
| `MatrixOop.CheckArguments` | matrix_oop/src/matrix_oop/Matrix.java:73-79 | arguments pass exactly when rows >= 1, columns >= 1 and length equals the exact (unbounded) product rows * columns; otherwise the error is that of the first failing check, in the source's order (rows, then columns, then length) |
| `MatrixOop.ValidShape` | matrix_oop/src/matrix_oop/Matrix.java:9-12 | the class invariants for a row count and a buffer length: at least one row, at least one column (length / rows), and length == rows * columns |
| `MatrixOop.Matrix.Valid` | matrix_oop/src/matrix_oop/Matrix.java:9-12 | the class invariants `@invar` of a matrix: `ValidShape` of its row count and buffer length (the buffer is never null, as `array<T>` is non-null) |
| `MatrixOop.Matrix.RowMajor` | matrix_oop/src/matrix_oop/Matrix.java:69 | the row-major view of the matrix, the contents of its buffer, which the constructor and `getElementsRowMajor` contracts compare with |
| `MatrixOop.AcceptedShape` | matrix_oop/src/matrix_oop/Matrix.java:9-12 | accepted arguments satisfy the class invariants (`ValidShape`): length divided by rows is the requested column count, at least 1, with no remainder |
| `MatrixOop.IntMul` | matrix_oop/src/matrix_oop/Matrix.java:78 | Java `int` multiplication: the result is a 32-bit int that differs from the exact product by a multiple of 2^32 |
| `MatrixOop.CheckArgumentsAsWritten` | matrix_oop/src/matrix_oop/Matrix.java:73-79 | the checks as written pass exactly when rows >= 1, columns >= 1 and length equals the wrapped 32-bit product; each failure is the exact check's failure or a length mismatch |
| `MatrixOop.AsWrittenAgreesWithoutOverflow` | matrix_oop/src/matrix_oop/Matrix.java:78 | while rows * columns fits in an `int`, the checks as written and the exact checks give the same outcome |
| `MatrixOop.AsWrittenAcceptsEmptyBuffer` | matrix_oop/src/matrix_oop/Matrix.java:78 | 65536 rows, 65536 columns and an empty buffer pass the check as written but fail the exact check; the matrix it would build, 65536 rows and no elements, breaks the class invariant (`ValidShape` fails: 0 / 65536 columns) |
| `MatrixOop.CopyRange` | matrix_oop/src/matrix_oop/Matrix.java:82 | returns a freshly allocated array whose contents equal the given slice of the source array (`clone` for the whole array) |
| `MatrixOop.SplitRows` | matrix_oop/src/matrix_oop/Matrix.java:49-50 | returns a fresh outer array of `rows` fresh, pairwise distinct row arrays, row k equal to the k-th row of the row-major buffer |
| `MatrixOop.RowArraysAt` | matrix_oop/src/matrix_oop/Matrix.java:43-47 | arrays that hold the rows of a row-major buffer each have `cols` elements, and row r, column c holds the buffer's element at flat index r * cols + c |
| `MatrixOop.Matrix.NbRows` | matrix_oop/src/matrix_oop/Matrix.java:9 | the row count of a valid matrix is at least 1 |
| `MatrixOop.Matrix.NbColumns` | matrix_oop/src/matrix_oop/Matrix.java:34-38 | the column count is at least 1, and rows times columns is the buffer length, so it equals length / rows |
| `MatrixOop.Matrix.constructor` | matrix_oop/src/matrix_oop/Matrix.java:68-70 | after construction the matrix is valid, has the given rows and columns, and its row-major view equals the input; its buffer is freshly allocated, not the caller's array |
| `MatrixOop.Matrix.Create` | matrix_oop/src/matrix_oop/Matrix.java:73-83 | fails exactly when the exact-product argument checks (`CheckArguments`) fail, with the first failing check's error; on success it returns a fresh valid matrix with the given dimensions and a fresh copy of the input |
| `MatrixOop.Matrix.ElementsRowMajor` | matrix_oop/src/matrix_oop/Matrix.java:24-32 | returns a freshly allocated array equal to the row-major view, and the column count equals its length divided by the row count |
| `MatrixOop.Matrix.ElementsRowArrays` | matrix_oop/src/matrix_oop/Matrix.java:40-52 | returns a fresh array of `NbRows()` fresh, pairwise distinct rows of `NbColumns()` elements, with row r, column c equal to row-major element r * NbColumns() + c, and row r the r-th row of the row-major layout |
| `MatrixOop.CallerArrayIsNotShared` | matrix_oop/src/matrix_oop/Matrix.java:68-70 | writing into any element of the caller's array after construction leaves the matrix's row-major view equal to the original input |
| `MatrixOop.RowMajorCopiesAreIndependent` | matrix_oop/src/matrix_oop/Matrix.java:26-31 | writing into any element of an array returned by the row-major accessor does not change what the next call returns; both equal the matrix's elements |
| `MatrixOop.RowArraysCopiesAreIndependent` | matrix_oop/src/matrix_oop/Matrix.java:49-50 | writing into any cell (r, c) of the rows returned by the row-arrays accessor does not change the matrix or the next call: the contents of all rows of both calls are equal, and equal to the rows of the row-major view |
| `Layout.Rows` | matrix_oop/src/matrix_oop/Matrix.java:45-50 | the rows that `getElementsRowArrays` returns: a buffer of rows * cols elements cut into consecutive chunks of cols elements; there are exactly rows of them |
| `Layout.FlatIndex` | matrix_oop/src/matrix_oop/Matrix.java:47 | the flat index `rowIndex * getNbColumns() + columnIndex` of a cell in the row-major buffer |
| `Layout.Flatten` | matrix_oop/src/matrix_oop/Matrix.java:55-56 | the row-major order: the rows listed one after the other, the inverse of `Rows` by `FlattenRows` and `RowsFlatten` |
| `Layout.Uniform` | matrix_oop/src/matrix_oop/Matrix.java:43 | every row has exactly cols elements, the row-length post of `getElementsRowArrays` |
| `Layout.RowsShape` | matrix_oop/src/matrix_oop/Matrix.java:42-43 | cutting a rows * cols buffer gives rows rows, each of exactly cols elements |
| `Layout.RowsRow` | matrix_oop/src/matrix_oop/Matrix.java:45-47 | row r of the layout is the buffer slice from r * cols to r * cols + cols, which lies inside the buffer |
| `Layout.RowsAt` | matrix_oop/src/matrix_oop/Matrix.java:45-47 | the element at row r, column c of the layout is the buffer element at flat index r * cols + c, which lies inside the buffer |
| `Layout.FlattenRows` | matrix_oop/src/matrix_oop/Matrix.java:55-56 | joining the rows of a row-major buffer gives back the buffer |
| `Layout.RowsFlatten` | matrix_oop/src/matrix_oop/Matrix.java:55-56 | rows that all have cols elements, joined and cut again, give back the same rows; the joined buffer has length rows * cols |
| `Layout.FlatIndexOfCell` | matrix_oop/src/matrix_oop/Matrix.java:45-47 | a cell in range has a flat index inside the buffer, and division and remainder by the column count recover its row and column |
| `Layout.CellOfFlatIndex` | matrix_oop/src/matrix_oop/Matrix.java:45-47 | every flat index inside the buffer is the flat index of the cell given by division and remainder, and that cell is in range |

## Left out

- The thrown "Not yet implemented" bodies of the four accessors. These are draft stubs; the model implements the documented contracts instead.
- The null element array. The code does not check it: a null would fail with a null-pointer error when its length is read. The doc comment's null clause is stated inverted. The model takes a non-null `array<T>`.
- The exception messages, including the message of the column check, which names the row count. Only the reason for a failure is modelled.
- Floating-point semantics of `double`. Nothing here does arithmetic on elements, so the element type is generic. The contracts do compare elements, in two different ways. Line 47 uses Java `==` on `double`: NaN is not equal to itself there, so that post cannot hold for a matrix holding NaN, and 0.0 equals -0.0. Line 69 uses `Arrays.equals`: NaN equals NaN there, and 0.0 differs from -0.0. The model compares elements with Dafny's equality on `T`, which matches `Arrays.equals`, not `==`. `T(0)` stands for a type with a default value, as `double` has (`0.0`), and allocating arrays needs one.
- `Matrix.constructor`: rows and columns are unbounded integers and are taken as already checked. The 32-bit product of the source is modelled only by `CheckArgumentsAsWritten`, and under "## Findings".
- Matrix.Create: it implements the corrected check from "## Findings", with the exact product of the dimensions. It returns `Failure(WrongLength)` where the source, with its 32-bit product, would accept: for example 65536 rows, 65536 columns and an empty array, or 3 rows, 1431655766 columns and an array of length 2.
- An element-wise `add` operation and a column-major internal layout. Neither is part of `Matrix.java`, so they are not part of this model.
- Idempotence of `getNbRows` and `getNbColumns`. They are modelled as functions of the state, so two calls always agree.
- Concurrent use. The class is single-threaded and has no synchronisation.

## Findings

| source | as written | input that shows it | evidently intended | confidence | as-written member | corrected member |
|---|---|---|---|---|---|---|
| matrix_oop/src/matrix_oop/Matrix.java:78 | the length check compares with `nbRows * nbColumns` computed in 32-bit `int` arithmetic, which wraps around | `nbRows = 65536`, `nbColumns = 65536`, an empty element array: the product wraps to 0, so the array is accepted, and the column count 0 / 65536 = 0 breaks the invariant `1 <= getNbColumns()` (lines 11-12) | accept only a buffer whose length equals the exact product (for example computed in `long`), so that the class invariants hold | high; not executed | `MatrixOop.AsWrittenAcceptsEmptyBuffer` | `MatrixOop.CheckArguments`, `MatrixOop.AcceptedShape`, `MatrixOop.Matrix.Create` |
