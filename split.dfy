/** The positional train/validation split of `loadAll` in mnist.go: the first
    `numTrain` rows of the prepared training tables are for training, the
    remaining `numValid` rows for validation. */
module Split {
  import opened Tensors

  /** `t.Slice(sli{lo, hi})` on the row axis of a row-major table, for a
      range inside the table: rows `lo` up to (not including) `hi`. */
  function SliceRows(m: Matrix, lo: nat, hi: nat): (r: Matrix)
    requires m.Valid() && lo <= hi <= m.rows
    ensures r.Valid() && r.rows == hi - lo && r.cols == m.cols
    ensures forall i, j | 0 <= i < hi - lo && 0 <= j < m.cols :: r.At(i, j) == m.At(lo + i, j)
  {
    MulMonotone(lo, hi, m.cols);
    MulMonotone(hi, m.rows, m.cols);
    var s := Matrix(hi - lo, m.cols, m.backing[lo * m.cols .. hi * m.cols]);
    SliceRowsAt(m, lo, hi, s);
    s
  }

  lemma SliceRowsAt(m: Matrix, lo: nat, hi: nat, s: Matrix)
    requires m.Valid() && lo <= hi <= m.rows
    requires lo * m.cols <= hi * m.cols <= |m.backing|
    requires s == Matrix(hi - lo, m.cols, m.backing[lo * m.cols .. hi * m.cols])
    ensures s.Valid()
    ensures forall i, j | 0 <= i < hi - lo && 0 <= j < m.cols :: s.At(i, j) == m.At(lo + i, j)
  {
    MulAdd(lo, hi - lo, m.cols);
    forall i, j | 0 <= i < hi - lo && 0 <= j < m.cols
      ensures s.At(i, j) == m.At(lo + i, j)
    {
      SliceCell(m, lo, hi, s, i, j);
    }
  }

  lemma SliceCell(m: Matrix, lo: nat, hi: nat, s: Matrix, i: nat, j: nat)
    requires m.Valid() && lo <= hi <= m.rows && s.Valid()
    requires lo * m.cols <= hi * m.cols <= |m.backing|
    requires s == Matrix(hi - lo, m.cols, m.backing[lo * m.cols .. hi * m.cols])
    requires i < hi - lo && j < m.cols
    ensures s.At(i, j) == m.At(lo + i, j)
  {
    RowMajorIndex(i, j, hi - lo, m.cols);
    RowMajorIndex(lo + i, j, m.rows, m.cols);
    MulAdd(lo, i, m.cols);
  }

  lemma MulAdd(a: nat, b: nat, c: nat)
    ensures (a + b) * c == a * c + b * c
  {
  }

  /** The four tables `loadAll` hands on for training and validation. */
  datatype Partition = Partition(trainInputs: Matrix, trainTargets: Matrix,
                                 validInputs: Matrix, validTargets: Matrix)

  /** The split in `loadAll`: `numTrain = numExamples - numValid`, where
      `numExamples` is the row count of the inputs; inputs and targets are
      both cut at `numTrain`, the four slices taken in the order of the code. */
  function SplitTrainValid(inputs: Matrix, targets: Matrix, numValid: nat): Partition
    requires inputs.Valid() && targets.Valid() && numValid <= inputs.rows <= targets.rows
  {
    var numExamples := inputs.rows;
    var numTrain := numExamples - numValid;
    var trainInputs := SliceRows(inputs, 0, numTrain);
    var trainTargets := SliceRows(targets, 0, numTrain);
    var validInputs := SliceRows(inputs, numTrain, numExamples);
    var validTargets := SliceRows(targets, numTrain, numExamples);
    Partition(trainInputs, trainTargets, validInputs, validTargets)
  }

  /** `numTrain + numValid == numExamples`: the validation part has `numValid`
      rows and the training part the rest, with as many target rows as input
      rows on each side and every part keeping its table's width. */
  lemma SplitSizes(inputs: Matrix, targets: Matrix, numValid: nat)
    requires inputs.Valid() && targets.Valid() && numValid <= inputs.rows <= targets.rows
    ensures var p := SplitTrainValid(inputs, targets, numValid);
      p.trainInputs.Valid() && p.validInputs.Valid() && p.trainTargets.Valid() && p.validTargets.Valid() &&
      p.trainInputs.rows + p.validInputs.rows == inputs.rows &&
      p.validInputs.rows == numValid &&
      p.trainTargets.rows == p.trainInputs.rows && p.validTargets.rows == p.validInputs.rows &&
      p.trainInputs.cols == p.validInputs.cols == inputs.cols &&
      p.trainTargets.cols == p.validTargets.cols == targets.cols
  {
  }

  /** Training is the prefix of rows `[0, numTrain)` and validation the suffix
      `[numTrain, numExamples)`, each in the original order. */
  lemma SplitRows(inputs: Matrix, targets: Matrix, numValid: nat)
    requires inputs.Valid() && targets.Valid() && numValid <= inputs.rows <= targets.rows
    ensures var p := SplitTrainValid(inputs, targets, numValid);
      var numTrain := inputs.rows - numValid;
      (forall i, j | 0 <= i < numTrain && 0 <= j < inputs.cols :: p.trainInputs.At(i, j) == inputs.At(i, j)) &&
      (forall i, j | 0 <= i < numValid && 0 <= j < inputs.cols ::
         p.validInputs.At(i, j) == inputs.At(numTrain + i, j)) &&
      (forall i, j | 0 <= i < numTrain && 0 <= j < targets.cols :: p.trainTargets.At(i, j) == targets.At(i, j)) &&
      (forall i, j | 0 <= i < numValid && 0 <= j < targets.cols ::
         p.validTargets.At(i, j) == targets.At(numTrain + i, j))
  {
  }

  /** Laid end to end, the training and validation inputs are the whole input
      table, and the two target parts are the target rows that have inputs. */
  lemma SplitConcatenates(inputs: Matrix, targets: Matrix, numValid: nat)
    requires inputs.Valid() && targets.Valid() && numValid <= inputs.rows <= targets.rows
    ensures var p := SplitTrainValid(inputs, targets, numValid);
      p.trainInputs.backing + p.validInputs.backing == inputs.backing &&
      inputs.rows * targets.cols <= |targets.backing| &&
      p.trainTargets.backing + p.validTargets.backing == targets.backing[..inputs.rows * targets.cols]
  {
    var numExamples := inputs.rows;
    var numTrain := numExamples - numValid;
    MulMonotone(numTrain, numExamples, inputs.cols);
    MulMonotone(numTrain, numExamples, targets.cols);
    MulMonotone(numExamples, targets.rows, targets.cols);
    var p := SplitTrainValid(inputs, targets, numValid);
    assert inputs.backing[0 .. numTrain * inputs.cols] + inputs.backing[numTrain * inputs.cols .. numExamples * inputs.cols]
        == inputs.backing;
    assert targets.backing[0 .. numTrain * targets.cols] + targets.backing[numTrain * targets.cols .. numExamples * targets.cols]
        == targets.backing[..numExamples * targets.cols];
  }
}
