/** Row-major layout of a dense matrix: a flat buffer of `rows * cols`
    elements holds row `r` at the flat positions `r * cols .. r * cols + cols`.
    `Rows` cuts a flat buffer into its rows and `Flatten` glues rows back into
    a flat buffer; the lemmas below show that the two are inverse to each other
    and give the flat index of every element. */
module Layout {

  /** The rows of a row-major buffer holding `rows` rows of `cols` elements. */
  function Rows<T>(s: seq<T>, rows: nat, cols: nat): (rss: seq<seq<T>>)
    requires |s| == rows * cols
    ensures |rss| == rows
    decreases rows
  {
    if rows == 0 then []
    else
      assert |s| == cols + (rows - 1) * cols;
      [s[..cols]] + Rows(s[cols..], rows - 1, cols)
  }

  /** The row-major buffer listing the given rows one after the other. */
  function Flatten<T>(rss: seq<seq<T>>): seq<T>
  {
    if rss == [] then [] else rss[0] + Flatten(rss[1..])
  }

  /** Every row has exactly `cols` elements. */
  ghost predicate Uniform<T>(rss: seq<seq<T>>, cols: nat)
  {
    forall r :: 0 <= r < |rss| ==> |rss[r]| == cols
  }

  /** Cutting a buffer gives `rows` rows of `cols` elements each. */
  lemma {:induction false} RowsShape<T>(s: seq<T>, rows: nat, cols: nat)
    requires |s| == rows * cols
    ensures Uniform(Rows(s, rows, cols), cols)
  {
    if rows > 0 {
      assert |s| == cols + (rows - 1) * cols;
      RowsShape(s[cols..], rows - 1, cols);
    }
  }

  /** Row `r` is the slice of the buffer starting at flat index `r * cols`. */
  lemma {:induction false} RowsRow<T>(s: seq<T>, rows: nat, cols: nat, r: nat)
    requires |s| == rows * cols
    requires r < rows
    ensures r * cols + cols <= |s|
    ensures Rows(s, rows, cols)[r] == s[r * cols .. r * cols + cols]
  {
    assert |s| == cols + (rows - 1) * cols;
    if r == 0 {
      MulMonotone(1, rows, cols);
    } else {
      var tail := s[cols..];
      RowsRow(tail, rows - 1, cols, r - 1);
      var lo := (r - 1) * cols;
      assert r * cols == cols + lo;
      assert Rows(s, rows, cols)[r] == Rows(tail, rows - 1, cols)[r - 1];
      assert tail[lo .. lo + cols] == s[cols + lo .. cols + lo + cols];
    }
  }

  /** The flat index of row `r`, column `c` in a row-major buffer with
      `cols` columns. */
  function FlatIndex(cols: nat, r: nat, c: nat): nat
  {
    r * cols + c
  }

  /** Every cell in range has a flat index inside the buffer, and the row
      and column are recovered from it by division and remainder. */
  lemma FlatIndexOfCell(rows: nat, cols: nat, r: nat, c: nat)
    requires r < rows && c < cols
    ensures FlatIndex(cols, r, c) < rows * cols
    ensures FlatIndex(cols, r, c) / cols == r && FlatIndex(cols, r, c) % cols == c
  {
    MulMonotone(r + 1, rows, cols);
    assert (r + 1) * cols == r * cols + cols;
    DivModUnique(r * cols + c, cols, r, c);
  }

  /** Every flat index inside the buffer is the flat index of the cell given
      by division and remainder. */
  lemma CellOfFlatIndex(rows: nat, cols: nat, i: nat)
    requires i < rows * cols
    ensures 0 < cols && i / cols < rows && i % cols < cols
    ensures FlatIndex(cols, i / cols, i % cols) == i
  {
    MulMonotone(0, rows, cols);
    assert 0 < cols;
    MulMonotone(rows, i / cols, cols);
    assert i == (i / cols) * cols + i % cols;
  }

  lemma MulMonotone(a: int, b: int, k: nat)
    ensures a <= b ==> a * k <= b * k
  {
    assert b * k - a * k == (b - a) * k;
  }

  lemma DivModUnique(i: int, d: int, q: int, m: int)
    requires 0 <= m < d && i == q * d + m
    ensures i / d == q && i % d == m
  {
    var q', m' := i / d, i % d;
    assert (q - q') * d == m' - m;
    MulMonotone(1, q - q', d);
    MulMonotone(q - q', -1, d);
  }

  /** The element at row `r`, column `c` sits at flat index `r * cols + c`. */
  lemma RowsAt<T>(s: seq<T>, rows: nat, cols: nat, r: nat, c: nat)
    requires |s| == rows * cols
    requires r < rows && c < cols
    ensures FlatIndex(cols, r, c) < |s|
    ensures |Rows(s, rows, cols)[r]| == cols
    ensures Rows(s, rows, cols)[r][c] == s[FlatIndex(cols, r, c)]
  {
    RowsRow(s, rows, cols, r);
  }

  /** Gluing the rows of a buffer back together gives the buffer again. */
  lemma {:induction false} FlattenRows<T>(s: seq<T>, rows: nat, cols: nat)
    requires |s| == rows * cols
    ensures Flatten(Rows(s, rows, cols)) == s
  {
    if rows > 0 {
      assert |s| == cols + (rows - 1) * cols;
      assert Rows(s, rows, cols) == [s[..cols]] + Rows(s[cols..], rows - 1, cols);
      FlattenRows(s[cols..], rows - 1, cols);
      assert s == s[..cols] + s[cols..];
    }
  }

  /** Cutting the buffer that lists uniform rows gives those rows again. */
  lemma {:induction false} RowsFlatten<T>(rss: seq<seq<T>>, cols: nat)
    requires Uniform(rss, cols)
    ensures |Flatten(rss)| == |rss| * cols
    ensures Rows(Flatten(rss), |rss|, cols) == rss
  {
    if rss != [] {
      var rest := rss[1..];
      assert Uniform(rest, cols) by {
        forall r | 0 <= r < |rest| ensures |rest[r]| == cols {
          assert rest[r] == rss[r + 1];
        }
      }
      RowsFlatten(rest, cols);
      assert |rss| * cols == cols + |rest| * cols;
      var flat := Flatten(rss);
      assert flat == rss[0] + Flatten(rest);
      assert flat[..cols] == rss[0];
      assert flat[cols..] == Flatten(rest);
      assert rss == [rss[0]] + rest;
    }
  }
}
