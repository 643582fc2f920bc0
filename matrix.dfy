/** A dense algebraic matrix with a fixed number of rows and a private buffer
    of its elements in row-major order. The column count is never stored: it is
    the buffer length divided by the row count. Every accessor that reveals
    elements hands out freshly allocated arrays, so no caller can reach the
    matrix's own buffer. */
module MatrixOop {
  import Layout

  /** The three ways the constructor rejects its arguments with an
      IllegalArgumentException, in the order it checks them. */
  datatype ArgumentError = NbRowsLessThanOne | NbColumnsLessThanOne | WrongLength

  /** The outcome of validating constructor arguments. */
  datatype Outcome = Pass | Fail(error: ArgumentError)

  /** A constructed value, or the argument error that prevented it. */
  datatype Result<R> = Success(value: R) | Failure(error: ArgumentError)

  /** The constructor's argument checks, the buffer length compared with the
      exact product of the dimensions. The first failing check decides. */
  function CheckArguments(nbRows: int, nbColumns: int, length: int): (o: Outcome)
    ensures o == Pass <==> 1 <= nbRows && 1 <= nbColumns && length == nbRows * nbColumns
    ensures o == Fail(NbRowsLessThanOne) <==> nbRows < 1
    ensures o == Fail(NbColumnsLessThanOne) <==> 1 <= nbRows && nbColumns < 1
    ensures o == Fail(WrongLength) <==> 1 <= nbRows && 1 <= nbColumns && length != nbRows * nbColumns
  {
    if nbRows < 1 then Fail(NbRowsLessThanOne)
    else if nbColumns < 1 then Fail(NbColumnsLessThanOne)
    else if length != nbRows * nbColumns then Fail(WrongLength)
    else Pass
  }

  /** Accepted arguments give a buffer whose length, divided by the row
      count, is the requested column count: the invariants of a matrix. */
  lemma AcceptedShape(nbRows: int, nbColumns: int, length: int)
    requires CheckArguments(nbRows, nbColumns, length) == Pass
    ensures ValidShape(nbRows, length)
    ensures length % nbRows == 0
    ensures length / nbRows == nbColumns
    ensures 1 <= length / nbRows && length == nbRows * (length / nbRows)
  {
    DivideProduct(nbRows, nbColumns);
  }

  lemma DivideProduct(a: int, b: int)
    requires 1 <= a && 0 <= b
    ensures (a * b) % a == 0 && (a * b) / a == b
  {
    Layout.DivModUnique(a * b, a, b, 0);
  }

  /** The shape part of the class invariants for `nbRows` rows and a buffer
      of `length` elements: at least one row, at least one column (the
      length divided by the row count), and exactly `nbRows * nbColumns`
      elements. */
  ghost predicate ValidShape(nbRows: int, length: int)
  {
    1 <= nbRows &&
    1 <= length / nbRows &&
    length == nbRows * (length / nbRows)
  }

  // ---------------------------------------------------------------------
  // Java `int` arithmetic, for the length check as the source writes it.

  const IntRange: int := 0x1_0000_0000
  const IntMin: int := -0x8000_0000
  const IntMax: int := 0x7fff_ffff

  predicate IsInt(x: int)
  {
    IntMin <= x <= IntMax
  }

  /** Java's `int` multiplication: the exact product wrapped into 32 bits. */
  function IntMul(a: int, b: int): (r: int)
    ensures IsInt(r)
    ensures (r - a * b) % IntRange == 0
  {
    (a * b - IntMin) % IntRange + IntMin
  }

  /** The constructor's argument checks as written, where `nbRows * nbColumns`
      is evaluated in 32-bit `int` arithmetic and may wrap around. */
  function CheckArgumentsAsWritten(nbRows: int, nbColumns: int, length: int): (o: Outcome)
    requires IsInt(nbRows) && IsInt(nbColumns) && 0 <= length <= IntMax
    ensures o == Pass <==> 1 <= nbRows && 1 <= nbColumns && length == IntMul(nbRows, nbColumns)
    ensures o.Fail? ==> o == CheckArguments(nbRows, nbColumns, length) || o == Fail(WrongLength)
    ensures nbRows < 1 || nbColumns < 1 ==> o == CheckArguments(nbRows, nbColumns, length)
  {
    if nbRows < 1 then Fail(NbRowsLessThanOne)
    else if nbColumns < 1 then Fail(NbColumnsLessThanOne)
    else if length != IntMul(nbRows, nbColumns) then Fail(WrongLength)
    else Pass
  }

  /** While the product of the dimensions fits in an `int`, the check as
      written and the exact check agree. */
  lemma AsWrittenAgreesWithoutOverflow(nbRows: int, nbColumns: int, length: int)
    requires IsInt(nbRows) && IsInt(nbColumns) && 0 <= length <= IntMax
    requires IsInt(nbRows * nbColumns)
    ensures CheckArgumentsAsWritten(nbRows, nbColumns, length) == CheckArguments(nbRows, nbColumns, length)
  {
    var p := nbRows * nbColumns;
    assert 0 <= p - IntMin < IntRange;
    assert (p - IntMin) % IntRange == p - IntMin;
  }

  /** With 65536 rows and 65536 columns the product wraps to 0, so the check
      as written accepts an empty buffer, which the exact check rejects; the
      matrix it would build, with 65536 rows and no elements, breaks the class
      invariant (its column count 0 / 65536 is below 1). */
  lemma AsWrittenAcceptsEmptyBuffer()
    ensures CheckArgumentsAsWritten(65536, 65536, 0) == Pass
    ensures CheckArguments(65536, 65536, 0) == Fail(WrongLength)
    ensures !ValidShape(65536, 0)
  {
    assert 65536 * 65536 == IntRange;
  }

  // ---------------------------------------------------------------------
  // Copying arrays.

  /** A freshly allocated copy of `a[lo..hi]` (Java's `clone` when the range
      is the whole array). */
  method CopyRange<T(0)>(a: array<T>, lo: int, hi: int) returns (b: array<T>)
    requires 0 <= lo <= hi <= a.Length
    ensures fresh(b)
    ensures b[..] == a[lo..hi]
  {
    b := new T[hi - lo];
    for i := 0 to hi - lo
      invariant forall k :: 0 <= k < i ==> b[k] == a[lo + k]
    {
      b[i] := a[lo + i];
    }
  }

  /** A fresh array of `rows` fresh, pairwise distinct arrays holding the
      rows of the row-major buffer `a`. */
  method SplitRows<T(0)>(a: array<T>, rows: nat, cols: nat) returns (result: array<array<T>>)
    requires a.Length == rows * cols
    ensures fresh(result) && result.Length == rows
    ensures forall k :: 0 <= k < rows ==> fresh(result[k]) && result[k][..] == Layout.Rows(a[..], rows, cols)[k]
    ensures forall k1, k2 :: 0 <= k1 < k2 < rows ==> result[k1] != result[k2]
  {
    ghost var spec := Layout.Rows(a[..], rows, cols);
    var made: seq<array<T>> := [];
    for i := 0 to rows
      invariant |made| == i
      invariant forall k :: 0 <= k < i ==> fresh(made[k]) && made[k][..] == spec[k]
      invariant forall k1, k2 :: 0 <= k1 < k2 < i ==> made[k1] != made[k2]
    {
      Layout.RowsRow(a[..], rows, cols, i);
      var row := CopyRange(a, i * cols, i * cols + cols);
      made := made + [row];
    }
    result := new array<T>[rows](k requires 0 <= k < rows => made[k]);
  }

  /** Arrays holding the rows of a row-major buffer have `cols` elements
      each, and row `r`, column `c` holds the element at flat index
      `r * cols + c`. */
  lemma RowArraysAt<T>(result: array<array<T>>, s: seq<T>, rows: nat, cols: nat)
    requires |s| == rows * cols && result.Length == rows
    requires forall r :: 0 <= r < rows ==> result[r][..] == Layout.Rows(s, rows, cols)[r]
    ensures forall r :: 0 <= r < rows ==> result[r].Length == cols
    ensures forall r, c :: 0 <= r < rows && 0 <= c < cols ==>
              Layout.FlatIndex(cols, r, c) < |s| && result[r][c] == s[Layout.FlatIndex(cols, r, c)]
  {
    forall r | 0 <= r < rows
      ensures result[r].Length == cols
    {
      Layout.RowsShape(s, rows, cols);
      assert result[r][..] == Layout.Rows(s, rows, cols)[r];
    }
    forall r, c | 0 <= r < rows && 0 <= c < cols
      ensures Layout.FlatIndex(cols, r, c) < |s| && result[r][c] == s[Layout.FlatIndex(cols, r, c)]
    {
      var row := Layout.Rows(s, rows, cols)[r];
      Layout.RowsAt(s, rows, cols, r, c);
      assert result[r][..] == row;
      assert result[r][c] == result[r][..][c] == row[c];
    }
  }

  // ---------------------------------------------------------------------

  /** A matrix with a fixed number of rows and a private row-major buffer of
      its elements (the source's element type is `double`; nothing here
      computes with the elements, so any type will do). */
  class Matrix<T(0)> {
    var nbRows: int
    var elements: array<T>

    /** The class invariants: at least one row, at least one column, and a
        buffer of exactly `nbRows * nbColumns` elements. */
    ghost predicate Valid()
      reads this
    {
      ValidShape(nbRows, elements.Length)
    }

    /** The elements in row-major order. */
    ghost function RowMajor(): seq<T>
      reads this, elements
    {
      elements[..]
    }

    /** The number of rows. */
    function NbRows(): (r: int)
      reads this
      requires Valid()
      ensures 1 <= r
    {
      nbRows
    }

    /** The number of columns, derived from the buffer length: at least one,
        and the buffer holds exactly that many elements per row. */
    function NbColumns(): (r: int)
      reads this
      requires Valid()
      ensures 1 <= r
      ensures NbRows() * r == elements.Length
    {
      elements.Length / nbRows
    }

    /** The constructor once its argument checks have passed: it stores the
        row count and a private copy of the caller's buffer. */
    constructor (nbRows: int, nbColumns: int, elementsRowMajor: array<T>)
      requires CheckArguments(nbRows, nbColumns, elementsRowMajor.Length) == Pass
      ensures Valid()
      ensures NbRows() == nbRows && NbColumns() == nbColumns
      ensures RowMajor() == elementsRowMajor[..]
      ensures fresh(elements)
    {
      AcceptedShape(nbRows, nbColumns, elementsRowMajor.Length);
      var copy := CopyRange(elementsRowMajor, 0, elementsRowMajor.Length);
      this.nbRows := nbRows;
      this.elements := copy;
    }

    /** The constructor with its argument checks: it fails with the first
        check that rejects the arguments, and otherwise builds the matrix. */
    static method Create(nbRows: int, nbColumns: int, elementsRowMajor: array<T>) returns (r: Result<Matrix<T>>)
      ensures r.Failure? <==> CheckArguments(nbRows, nbColumns, elementsRowMajor.Length) != Pass
      ensures r.Failure? ==> CheckArguments(nbRows, nbColumns, elementsRowMajor.Length) == Fail(r.error)
      ensures r.Success? ==> fresh(r.value) && fresh(r.value.elements) && r.value.Valid()
      ensures r.Success? ==> r.value.NbRows() == nbRows && r.value.NbColumns() == nbColumns
      ensures r.Success? ==> r.value.RowMajor() == elementsRowMajor[..]
    {
      var check := CheckArguments(nbRows, nbColumns, elementsRowMajor.Length);
      if check.Fail? {
        return Failure(check.error);
      }
      var m := new Matrix(nbRows, nbColumns, elementsRowMajor);
      return Success(m);
    }

    /** A fresh array holding the elements in row-major order; its length
        divided by the row count is the column count. */
    method ElementsRowMajor() returns (result: array<T>)
      requires Valid()
      ensures fresh(result)
      ensures result[..] == RowMajor()
      ensures NbColumns() == result.Length / NbRows()
    {
      result := CopyRange(elements, 0, elements.Length);
    }

    /** A fresh array of `NbRows()` fresh, pairwise distinct row arrays of
        `NbColumns()` elements each, where row `r`, column `c` holds the
        element at flat index `r * NbColumns() + c`. */
    method ElementsRowArrays() returns (result: array<array<T>>)
      requires Valid()
      ensures fresh(result) && result.Length == NbRows()
      ensures forall r :: 0 <= r < result.Length ==>
                fresh(result[r]) && result[r][..] == Layout.Rows(RowMajor(), NbRows(), NbColumns())[r]
      ensures forall r :: 0 <= r < result.Length ==> result[r].Length == NbColumns()
      ensures forall r, c :: 0 <= r < result.Length && 0 <= c < NbColumns() ==>
                Layout.FlatIndex(NbColumns(), r, c) < |RowMajor()| &&
                result[r][c] == RowMajor()[Layout.FlatIndex(NbColumns(), r, c)]
      ensures forall r1, r2 :: 0 <= r1 < r2 < result.Length ==> result[r1] != result[r2]
    {
      result := SplitRows(elements, nbRows, NbColumns());
      RowArraysAt(result, elements[..], nbRows, NbColumns());
    }
  }

  // ---------------------------------------------------------------------
  // What callers can rely on.

  /** Changing any element of the caller's array after construction does not
      change the matrix: the constructor copied it. */
  method CallerArrayIsNotShared<T(0)>(nbRows: int, nbColumns: int, src: array<T>, i: int, x: T) returns (m: Matrix<T>)
    requires CheckArguments(nbRows, nbColumns, src.Length) == Pass
    requires 0 <= i < src.Length
    modifies src
    ensures m.Valid() && m.RowMajor() == old(src[..])
    ensures src[i] == x
  {
    m := new Matrix(nbRows, nbColumns, src);
    src[i] := x;
  }

  /** Writing into any element of an array returned by `ElementsRowMajor`
      changes neither the matrix nor the next array it returns; two calls give
      equal contents. */
  method RowMajorCopiesAreIndependent<T(0)>(m: Matrix<T>, i: int, x: T) returns (before: seq<T>, after: seq<T>)
    requires m.Valid()
    requires 0 <= i < |m.RowMajor()|
    ensures before == after
    ensures after == m.RowMajor()
  {
    var first := m.ElementsRowMajor();
    before := first[..];
    first[i] := x;
    var second := m.ElementsRowMajor();
    after := second[..];
  }

  /** The contents of every row of an array of row arrays. */
  function RowContents<T>(a: array<array<T>>): seq<seq<T>>
    reads a, set i | 0 <= i < a.Length :: a[i]
  {
    seq(a.Length, k requires 0 <= k < a.Length reads a, set i | 0 <= i < a.Length :: a[i] => a[k][..])
  }

  /** Writing into any cell of the rows returned by `ElementsRowArrays`
      changes neither the matrix nor the rows of the next call: two calls
      give equal rows, which are the rows of the row-major view. */
  method RowArraysCopiesAreIndependent<T(0)>(m: Matrix<T>, r: int, c: int, x: T) returns (before: seq<seq<T>>, after: seq<seq<T>>)
    requires m.Valid()
    requires 0 <= r < m.NbRows() && 0 <= c < m.NbColumns()
    ensures before == after
    ensures after == Layout.Rows(m.RowMajor(), m.NbRows(), m.NbColumns())
  {
    var first := m.ElementsRowArrays();
    before := RowContents(first);
    first[r][c] := x;
    var second := m.ElementsRowArrays();
    after := RowContents(second);
  }
}
