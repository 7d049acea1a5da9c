# MNIST loading core, modelled in Dafny

This project models the data-loading core of `mnist.go`, the MNIST front end of a small Go
convolutional-network trainer. It covers five parts:

- **The IDX container readers.**
  - `readLabelFile` reads a big-endian magic `0x00000801`, a count, and then one byte per label.
  - `readImageFile` reads magic `0x00000803`, then count, rows and cols, then `rows*cols` bytes per image.
- **Feature preparation.**
  - `pixelWeight` maps a byte `p` to `p/255*0.9 + 0.1`, turning an exact 1.0 into 0.999.
  - `prepareX` appends these weights, image after image, into a flat row-major backing.
- **Target preparation.** `prepareY` writes one soft one-hot row of ten values per label: 0.9 in the label's column and 0.1 elsewhere.
- **The train/validation split of `loadAll`.** The first `numTrain` rows of the prepared tables are for training; the last `numValid` rows are for validation.
- **`countInstancesOfLabel`.** It counts how many entries equal a label.

The files:

- `runtime.dfy`: Go's conventions.
  - A nil-able value (`Option`).
  - The error values that reach a caller.
  - The `(value, error)` pair (`Reply`).
  - A call that returns or panics (`Outcome`).
- `idx.dfy`: the readers.
  - An `io.Reader` is a `Stream`: the bytes it delivers, then the error it ends with.
  - `io.ReadFull` / `binary.Read` give back the reader's closing error when no byte was read. They give `io.ErrUnexpectedEOF` when the stream ended cleanly after some but not enough bytes. Any other error the reader ends with is passed on as is.
  - Each reader has a specification function (`LabelFile`, `ImageFile`) and a method that consumes the stream step by step. The method is proved equal to the function, and lemmas state what the function promises.
- `tensors.dfy`: a `rows × cols` table over a flat row-major backing, and the row-major bookkeeping of `Flatten`.
- `prepare.dfy`: `pixelWeight`, and `prepareX` / `prepareY` as nested appending loops.
- `split.dfy`: the row slicing and the split of `loadAll`.
- `counting.dfy`: the counting loop and the occurrence count that specifies it.

Integers are unbounded. Go's int32 fields are the `int32` newtype, and the `nrow * ncol` product wraps explicitly (`Wrap32`). Pixel weights are `real` numbers.

Behaviour of the code that a reader might not expect, which the model keeps:

- An image file with a wrong magic returns no images and a nil error, not `os.ErrInvalid`.
- A negative count panics in `make`; it is not reported as an error.
- A stream that ends cleanly too early gives `io.EOF`, or `io.ErrUnexpectedEOF` after some but not enough bytes. Any other error the reader ends with is passed on as is. There is no dedicated format error.
- Labels are never range-checked, so a label of 10 or more gives an all-0.1 target row.
- Images of differing lengths are not rejected. `prepareX` takes its width from the first image and concatenates the rest as they are.

## Model

| member | source | states |
|---|---|---|
| Idx.DecodeEncodeInt32 | mnist.go:32-36 | decoding the four big-endian bytes of any int32 gives it back |
| Idx.EncodeDecodeInt32 | mnist.go:32-36 | every four-byte field is the encoding of the int32 it decodes to |
| Idx.DecodeInt32Sign | mnist.go:32-36 | a decoded field is negative exactly when the top bit of its first byte is set (two's complement) |
| Idx.Wrap32Congruent | mnist.go:83 | the int32 product `nrow * ncol` equals the true product modulo 2^32, and equals it when the product fits |
| Idx.ReadFull | mnist.go:86-89 | a read of `k` bytes succeeds exactly when `k` bytes remain, returning those bytes and advancing by `k`; otherwise it returns the short-read error |
| Idx.ReadLabelFile | mnist.go:27-54 | the step-by-step reader, header reads and per-label loop, returns or panics exactly as the label-file specification says |
| Idx.LabelFileSucceeds | mnist.go:27-53 | a label read succeeds iff the open succeeded, the magic is 0x801, the count `n` is non-negative and `8 + n` bytes are there; it then returns `n` labels, label `i` being byte `8 + i`, any value accepted |
| Idx.LabelFileNoPartial | mnist.go:27-53 | a label read that returns gives labels and no error, or an error and no labels, never both and never neither |
| Idx.LabelFilePanics | mnist.go:27-54 | the label reader panics exactly on a complete header with magic 0x801 and a negative count (the `make` at line 45); every other input returns, and an open error is returned as it is with no labels |
| Idx.LabelFileBadMagic | mnist.go:39-41 | a wrong label magic fails with `os.ErrInvalid` |
| Idx.LabelFileRoundTrip | mnist.go:36-53 | an IDX label file built from any list of labels reads back as that list, whatever error the stream ends with |
| Idx.ReadImageFile | mnist.go:56-95 | the step-by-step reader returns or panics exactly as the image-file specification says |
| Idx.ReadImageData | mnist.go:84-94 | the image loop (one full read of `m` bytes per image, stopping at the first short read) yields exactly the reply the specification gives |
| Idx.ReadImagesAt | mnist.go:84-93 | reading `count` images of `m` bytes succeeds iff `count * m` bytes remain. Failure carries an error and no images; success gives image `k` as the `m` bytes at `pos + k*m` |
| Idx.ImageFileSucceeds | mnist.go:56-94 | an image read succeeds iff the open succeeded, the 16-byte header is present with magic 0x803 and a non-negative count, and either there are no images or the wrapped size is non-negative and all `16 + n*m` bytes are there |
| Idx.ImageFileContents | mnist.go:82-94 | a successful image read has no error and returns `n` images of `m = int32(nrow*ncol)` bytes, image `k` being bytes `16 + k*m .. 16 + (k+1)*m` |
| Idx.ImageFileNoPartial | mnist.go:67-92 | a returned image list never comes with an error; no list and no error happens exactly on a wrong magic |
| Idx.ImageFilePanics | mnist.go:82-85 | the image reader panics exactly on a negative count, or on a negative wrapped size when there is an image |
| Idx.ImageFileRoundTrip | mnist.go:67-94 | an IDX image file built from images of `rows*cols` bytes each reads back as those images, whatever error the stream ends with |
| Prepare.PixelWeightEnds | mnist.go:205-211 | pixel 0 weighs 0.1 and pixel 255 weighs 0.999; below 255 the weight is `p/255*0.9 + 0.1` unclamped |
| Prepare.PixelWeightRange | mnist.go:205-211 | every weight lies in [0.1, 1) |
| Prepare.PixelWeightMonotone | mnist.go:205-211 | a brighter pixel has a strictly larger weight |
| Prepare.ReversePixelWeightNegative | mnist.go:213-215 | the inverse formula as written gives a negative value for the weight of every pixel, -255 for pixel 0 |
| Prepare.RecoverPixelRoundTrip | mnist.go:213-215 | the corrected inverse recovers every pixel from its weight, 255 included |
| Prepare.PrepareX | mnist.go:217-244 | it panics exactly on an empty image list. Otherwise the shape is `len(M) × len(M[0])` and the backing is every image's weights laid end to end; with images of equal length, cell `(i, j)` (index `i*cols + j`) is `pixelWeight(M[i][j])` |
| Prepare.PrepareY | mnist.go:246-282 | the shape is `len(N) × 10`, and cell `(i, j)` (index `i*10 + j`) is 0.9 exactly when `j == N[i]`, else 0.1 |
| Prepare.TargetRowHot | mnist.go:255-263 | a target row holds 0.9 once and 0.1 nine times for a label below 10, and 0.1 ten times otherwise |
| Split.SliceRows | mnist.go:167-183 | for a row range `[lo, hi)` inside the table, the slice has `hi - lo` rows of the same width, its row `i` being row `lo + i` |
| Split.SplitSizes | mnist.go:163-183 | with `numTrain = numExamples - numValid`, the validation part has `numValid` rows and the training part `numTrain`, so `numTrain + numValid == numExamples`; inputs and targets have the same row count on each side, and every part keeps its table's width |
| Split.SplitRows | mnist.go:163-183 | training is rows `[0, numTrain)` and validation rows `[numTrain, numExamples)` of inputs and of targets, in the original order |
| Split.SplitConcatenates | mnist.go:163-183 | training followed by validation is the whole input backing, and the target rows that have inputs |
| Counting.CountInstancesOfLabel | mnist.go:305-314 | the count is the number of positions holding the label, and at most the length of the data |
| Counting.OccurrencesBounded | mnist.go:305-314 | a count never exceeds the number of entries |
| Counting.OccurrencesPositive | mnist.go:305-314 | a label is counted at least once exactly when it occurs |
| Counting.OccurrencesAppend | mnist.go:305-314 | the count over two runs of labels laid end to end is the sum of their counts |
| Counting.OccurrencesSplit | mnist.go:305-314 | for any positional cut of a sequence, the counts of a label in the two parts add up to its count in the whole |

## Left out

- Opening files and joining paths (`os.Open`, `filepath.Join`, the file names in `loadOriginal` and `loadAll`) are I/O. A reader gets the stream's bytes and the open error as parameters.
- The error wrapping by `errors.Wrap` in `loadOriginal` and `loadAll`, and the loading of the test set, are left out. They only pass the readers' results on.
- `tensor.New` is modelled as pairing a shape with the backing. The library's own check that the backing fits the shape is left out. So with images of differing lengths, `PrepareX` returns a table whose backing does not match its shape, where the library may refuse it.
- Split.SplitTrainValid: the tensor library's acceptance rules for `Slice` are not modelled: refusing or clamping a range past the last row, refusing an empty range at the end of a table (as when `numValid` is 0), reducing a one-row slice to a vector, and views over shared storage. The split is modelled only when `numValid <= numExamples` and the targets have at least `numExamples` rows, so that every range lies inside its table.
- Split.SplitSizes: does not say when `loadAll` fails at a `Slice` call, because that depends on the library rules above; it states the part sizes only for the ranges the model covers.
- The `dt` switch in `prepareX` and `prepareY` is not modelled. Both branches lay cells out the same way; float32 narrowing, IEEE-754 rounding and the nil backing of any other dtype are left out. Values are exact reals.
- The fraction `validSplit` and the float product `float64(numExamples) * *validSplit` are left out. The split takes `numValid` directly, with `numValid <= numExamples`.
- `printLabelCounts` prints a table and uses the library's `Argmax`; only its counting helper is modelled.
- All of `main.go` (network assembly, training, console rendering, conversions) is not part of this model.
- Allocation failure of `make` with a very large count is left out; only a negative length panics.
- The check `m_ != int(m)` in the image loop is not modelled, because `io.ReadFull` with no error has always read the whole buffer.
- The `io.Reader` is modelled as a fixed byte sequence followed by one closing error. Readers that return errors in the middle of the data, or short reads that later resume, are left out.

## Findings

| source | as written | input that shows it | evidently intended | confidence | as-written member | corrected member |
|---|---|---|---|---|---|---|
| mnist.go:213-215 | `reversePixelWeight` computes `(255*w - 255) / 0.9`, which is negative for every weight `pixelWeight` produces | `w = pixelWeight(0) = 0.1` gives -255, outside the `byte` range before the conversion | invert `pixelWeight`: `(w - 0.1) / 0.9 * 255`, rounded to the nearest byte | not executed | Prepare.ReversePixelWeightNegative | Prepare.RecoverPixelRoundTrip |
