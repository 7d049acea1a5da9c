/** Dense two-dimensional tensors as the preparers build them: a shape and a
    flat row-major backing, together with the row-major bookkeeping (flattening
    a sequence of rows, and where cell `(i, j)` lives in the flat backing). */
module Tensors {

  /** A dense `rows × cols` tensor over a flat row-major backing. */
  datatype Matrix = Matrix(rows: nat, cols: nat, backing: seq<real>)
  {
    /** The backing holds exactly one value per cell. */
    predicate Valid() {
      |backing| == rows * cols
    }

    /** The cell in row `i`, column `j`. */
    function At(i: nat, j: nat): real
      requires Valid() && i < rows && j < cols
    {
      RowMajorIndex(i, j, rows, cols);
      backing[i * cols + j]
    }
  }

  /** Cell `(i, j)` of a `rows × cols` table lies inside row `i` of the flat layout. */
  lemma RowMajorIndex(i: nat, j: nat, rows: nat, cols: nat)
    requires i < rows && j < cols
    ensures i * cols <= i * cols + j < (i + 1) * cols <= rows * cols
  {
    MulMonotone(i + 1, rows, cols);
  }

  lemma MulMonotone(a: nat, b: nat, c: nat)
    requires a <= b
    ensures a * c <= b * c
  {
    assert b * c == a * c + (b - a) * c;
  }

  /** The rows laid end to end. */
  function Flatten<T>(rows: seq<seq<T>>): seq<T>
  {
    if |rows| == 0 then [] else Flatten(rows[..|rows| - 1]) + rows[|rows| - 1]
  }

  /** Every row has `cols` entries. */
  predicate Rectangular<T>(rows: seq<seq<T>>, cols: nat)
  {
    forall i | 0 <= i < |rows| :: |rows[i]| == cols
  }

  /** Flattening a prefix one row longer appends that row. */
  lemma FlattenPrefix<T>(rows: seq<seq<T>>, k: nat)
    requires k < |rows|
    ensures Flatten(rows[..k + 1]) == Flatten(rows[..k]) + rows[k]
  {
    assert rows[..k + 1][..k] == rows[..k];
  }

  lemma {:induction false} FlattenLength<T>(rows: seq<seq<T>>, cols: nat)
    requires Rectangular(rows, cols)
    ensures |Flatten(rows)| == |rows| * cols
  {
    if |rows| > 0 {
      FlattenLength(rows[..|rows| - 1], cols);
    }
  }

  /** Flattening distributes over concatenation. */
  lemma {:induction false} FlattenAppend<T>(a: seq<seq<T>>, b: seq<seq<T>>)
    ensures Flatten(a + b) == Flatten(a) + Flatten(b)
  {
    if |b| == 0 {
      assert a + b == a;
    } else {
      var init := b[..|b| - 1];
      FlattenAppend(a, init);
      assert (a + b)[..|a + b| - 1] == a + init;
    }
  }

  /** Entry `j` of row `i` follows the flattened rows before it. */
  lemma FlattenIndex<T>(rows: seq<seq<T>>, i: nat, j: nat)
    requires i < |rows| && j < |rows[i]|
    ensures |Flatten(rows[..i])| + j < |Flatten(rows)|
    ensures Flatten(rows)[|Flatten(rows[..i])| + j] == rows[i][j]
  {
    FlattenPrefix(rows, i);
    FlattenAppend(rows[..i + 1], rows[i + 1..]);
    assert rows[..i + 1] + rows[i + 1..] == rows;
  }

  /** Entry `(i, j)` of a rectangular table sits at `i * cols + j` of its flattening. */
  lemma FlattenAt<T>(rows: seq<seq<T>>, cols: nat, i: nat, j: nat)
    requires Rectangular(rows, cols) && i < |rows| && j < cols
    ensures |Flatten(rows)| == |rows| * cols
    ensures 0 <= i * cols + j < |rows| * cols
    ensures Flatten(rows)[i * cols + j] == rows[i][j]
  {
    RowMajorIndex(i, j, |rows|, cols);
    var before := rows[..i];
    assert Rectangular(before, cols);
    FlattenLength(before, cols);
    FlattenLength(rows, cols);
    assert |before| == i;
    FlattenIndex(rows, i, j);
  }

  /** Row `i` of a rectangular table is the slice `[i * cols, (i + 1) * cols)` of its flattening. */
  lemma FlattenRow<T>(rows: seq<seq<T>>, cols: nat, i: nat)
    requires Rectangular(rows, cols) && i < |rows|
    ensures |Flatten(rows)| == |rows| * cols
    ensures i * cols + cols <= |rows| * cols
    ensures Flatten(rows)[i * cols .. i * cols + cols] == rows[i]
  {
    FlattenLength(rows, cols);
    if cols > 0 {
      RowMajorIndex(i, 0, |rows|, cols);
    }
    MulMonotone(i + 1, |rows|, cols);
    forall j | 0 <= j < cols
      ensures Flatten(rows)[i * cols .. i * cols + cols][j] == rows[i][j]
    {
      FlattenAt(rows, cols, i, j);
    }
  }
}
