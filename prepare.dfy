/** The feature and target preparation of mnist.go: `pixelWeight`, and
    `prepareX` / `prepareY`, which append into a flat row-major backing in
    nested loops. Values are real numbers. */
module Prepare {
  import opened Runtime
  import opened Tensors
  import Idx
  import Counting

  /** `numLabels`: the number of digit classes, the width of a target row. */
  const NumLabels: nat := 10

  /** `pixelRange`: the largest pixel value. */
  const PixelRange: real := 255.0

  // ---------------------------------------------------------------------------
  // pixelWeight
  // ---------------------------------------------------------------------------

  /** `p / 255 * 0.9 + 0.1`, except that a weight of exactly 1.0 becomes 0.999. */
  function PixelWeight(p: Idx.Byte): real
  {
    var w := p as real / PixelRange * 0.9 + 0.1;
    if w == 1.0 then 0.999 else w
  }

  /** Black maps to 0.1, white to 0.999, and only white is clamped. */
  lemma PixelWeightEnds(p: Idx.Byte)
    ensures PixelWeight(0) == 0.1 && PixelWeight(255) == 0.999
    ensures p < 255 ==> PixelWeight(p) == p as real / PixelRange * 0.9 + 0.1
  {
  }

  /** Every weight lies in [0.1, 1). */
  lemma PixelWeightRange(p: Idx.Byte)
    ensures 0.1 <= PixelWeight(p) < 1.0
  {
  }

  /** A brighter pixel weighs more: the map is strictly increasing on 0..255. */
  lemma PixelWeightMonotone(p: Idx.Byte, q: Idx.Byte)
    requires p < q
    ensures PixelWeight(p) < PixelWeight(q)
  {
  }

  /** `reversePixelWeight` as written, before the conversion to `byte`. */
  function ReversePixelWeightAsWritten(w: real): real
  {
    (PixelRange * w - PixelRange) / 0.9
  }

  /** The formula as written is not the inverse of `PixelWeight`: for every
      pixel it gives a negative number, -255 for pixel 0. */
  lemma ReversePixelWeightNegative(p: Idx.Byte)
    ensures ReversePixelWeightAsWritten(PixelWeight(p)) < 0.0
    ensures ReversePixelWeightAsWritten(PixelWeight(0)) == -255.0
  {
    PixelWeightRange(p);
  }

  /** The inverse of `PixelWeight`: undo the affine map and round. */
  function RecoverPixel(w: real): int
  {
    ((w - 0.1) / 0.9 * PixelRange + 0.5).Floor
  }

  /** Recovering a weighted pixel gives the pixel back, 255 included despite
      the clamp to 0.999. */
  lemma RecoverPixelRoundTrip(p: Idx.Byte)
    ensures RecoverPixel(PixelWeight(p)) == p as int
  {
    if p < 255 {
      assert (PixelWeight(p) - 0.1) / 0.9 * PixelRange == p as real;
    } else {
      assert PixelWeight(p) == 0.999;
      assert 255.0 <= (0.999 - 0.1) / 0.9 * PixelRange + 0.5 < 256.0;
    }
  }

  // ---------------------------------------------------------------------------
  // prepareX
  // ---------------------------------------------------------------------------

  /** The weights of one image, pixel by pixel. */
  function ImageWeights(img: Idx.RawImage): seq<real>
  {
    seq(|img|, j requires 0 <= j < |img| => PixelWeight(img[j]))
  }

  /** The weights of every image, one row per image. */
  function FeatureRows(M: seq<Idx.RawImage>): seq<seq<real>>
  {
    seq(|M|, i requires 0 <= i < |M| => ImageWeights(M[i]))
  }

  /** `prepareX(M, dt)`: the shape is `len(M) × len(M[0])` (an empty `M`
      panics on `M[0]`), and the backing is every image's weights appended
      row after row. When all images have `len(M[0])` pixels, cell `(i, j)`
      is the weight of pixel `j` of image `i`. */
  method PrepareX(M: seq<Idx.RawImage>) returns (res: Outcome<Matrix>)
    ensures res.Panics? <==> |M| == 0
    ensures res.Panics? ==> res.cause == IndexOutOfRange
    ensures res.Returns? ==> res.result == Matrix(|M|, |M[0]|, Flatten(FeatureRows(M)))
    ensures res.Returns? && Rectangular(M, |M[0]|) ==>
      res.result.Valid() &&
      forall i, j | 0 <= i < |M| && 0 <= j < |M[0]| :: res.result.At(i, j) == PixelWeight(M[i][j])
  {
    if |M| == 0 {
      return Panics(IndexOutOfRange);
    }
    var rows := |M|;
    var cols := |M[0]|;
    ghost var table := FeatureRows(M);
    var b: seq<real> := [];
    for i := 0 to rows
      invariant b == Flatten(table[..i])
    {
      for j := 0 to |M[i]|
        invariant b == Flatten(table[..i]) + table[i][..j]
      {
        assert table[i][..j + 1] == table[i][..j] + [table[i][j]];
        b := b + [PixelWeight(M[i][j])];
      }
      FlattenPrefix(table, i);
    }
    assert table[..rows] == table;
    res := Returns(Matrix(rows, cols, b));
    if Rectangular(M, cols) {
      assert Rectangular(table, cols);
      FlattenLength(table, cols);
      forall i, j | 0 <= i < rows && 0 <= j < cols
        ensures res.result.At(i, j) == PixelWeight(M[i][j])
      {
        FlattenAt(table, cols, i, j);
      }
    }
  }

  // ---------------------------------------------------------------------------
  // prepareY
  // ---------------------------------------------------------------------------

  /** The soft one-hot row of a label: 0.9 in the label's column, 0.1 elsewhere.
      A label of 10 or more has no column, so its row is all 0.1. */
  function TargetRow(lbl: Idx.Label): seq<real>
  {
    seq(NumLabels, j requires 0 <= j < NumLabels => if j == lbl as int then 0.9 else 0.1)
  }

  /** The target rows of every label. */
  function TargetRows(N: seq<Idx.Label>): seq<seq<real>>
  {
    seq(|N|, i requires 0 <= i < |N| => TargetRow(N[i]))
  }

  /** `prepareY(N, dt)`: a `len(N) × 10` table whose cell `(i, j)` is 0.9
      exactly when `j == N[i]`, and 0.1 otherwise. */
  method PrepareY(N: seq<Idx.Label>) returns (m: Matrix)
    ensures m == Matrix(|N|, NumLabels, Flatten(TargetRows(N)))
    ensures m.Valid()
    ensures forall i, j | 0 <= i < |N| && 0 <= j < NumLabels ::
      m.At(i, j) == if j == N[i] as int then 0.9 else 0.1
  {
    var rows := |N|;
    ghost var table := TargetRows(N);
    var b: seq<real> := [];
    for i := 0 to rows
      invariant b == Flatten(table[..i])
    {
      for j := 0 to NumLabels
        invariant b == Flatten(table[..i]) + table[i][..j]
      {
        assert table[i][..j + 1] == table[i][..j] + [table[i][j]];
        if j == N[i] as int {
          b := b + [0.9];
        } else {
          b := b + [0.1];
        }
      }
      FlattenPrefix(table, i);
    }
    assert table[..rows] == table;
    m := Matrix(rows, NumLabels, b);
    assert Rectangular(table, NumLabels);
    FlattenLength(table, NumLabels);
    forall i, j | 0 <= i < rows && 0 <= j < NumLabels
      ensures m.At(i, j) == if j == N[i] as int then 0.9 else 0.1
    {
      FlattenAt(table, NumLabels, i, j);
    }
  }

  lemma {:induction false} TargetRowPrefix(lbl: Idx.Label, k: nat)
    requires k <= NumLabels
    ensures Counting.Occurrences(TargetRow(lbl)[..k], 0.9) == if lbl as int < k then 1 else 0
    ensures Counting.Occurrences(TargetRow(lbl)[..k], 0.1) == if lbl as int < k then k - 1 else k
  {
    if k > 0 {
      TargetRowPrefix(lbl, k - 1);
      assert TargetRow(lbl)[..k][..k - 1] == TargetRow(lbl)[..k - 1];
    }
  }

  /** A target row holds 0.9 once and 0.1 nine times when the label is a
      digit, and 0.1 ten times when it is 10 or more. */
  lemma TargetRowHot(lbl: Idx.Label)
    ensures Counting.Occurrences(TargetRow(lbl), 0.9) == if lbl < 10 then 1 else 0
    ensures Counting.Occurrences(TargetRow(lbl), 0.1) == if lbl < 10 then 9 else 10
  {
    TargetRowPrefix(lbl, NumLabels);
    assert TargetRow(lbl)[..NumLabels] == TargetRow(lbl);
  }
}
