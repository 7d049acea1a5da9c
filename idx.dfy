/** The IDX container readers of mnist.go: `readLabelFile` and
    `readImageFile`. The `io.Reader` they consume is a `Stream`: the bytes it
    delivers, front first, and how it ends. Each reader is a declarative
    specification function (`LabelFile`, `ImageFile`) and a method that
    consumes the stream step by step as the Go code does and is proved to
    agree with it; the lemmas state what the specifications promise. */
module Idx {
  import opened Runtime
  import Tensors

  /** A Go `byte`. */
  newtype Byte = x: int | 0 <= x < 0x100

  /** `Label uint8`: one label byte, never range-checked. */
  type Label = Byte

  /** `RawImage []byte`: the pixel bytes of one image, row-major. */
  type RawImage = seq<Byte>

  newtype int32 = x: int | -0x8000_0000 <= x < 0x8000_0000

  const LabelMagic: int32 := 0x0000_0801
  const ImageMagic: int32 := 0x0000_0803

  // ---------------------------------------------------------------------------
  // Big-endian int32 fields
  // ---------------------------------------------------------------------------

  /** Four bytes, most significant first, read as a two's-complement int32
      (`binary.Read(r, binary.BigEndian, &x)` with `x int32`). */
  function DecodeInt32(b: seq<Byte>): int32
    requires |b| == 4
  {
    var u := ((b[0] as int * 0x100 + b[1] as int) * 0x100 + b[2] as int) * 0x100 + b[3] as int;
    if u < 0x8000_0000 then u as int32 else (u - 0x1_0000_0000) as int32
  }

  /** The four big-endian bytes of `v` in two's complement. */
  function EncodeInt32(v: int32): (b: seq<Byte>)
    ensures |b| == 4
  {
    var u := if v < 0 then v as int + 0x1_0000_0000 else v as int;
    var q1 := u / 0x100;
    var q2 := q1 / 0x100;
    var q3 := q2 / 0x100;
    [q3 as Byte, (q2 % 0x100) as Byte, (q1 % 0x100) as Byte, (u % 0x100) as Byte]
  }

  lemma DecodeEncodeInt32(v: int32)
    ensures DecodeInt32(EncodeInt32(v)) == v
  {
    var u := if v < 0 then v as int + 0x1_0000_0000 else v as int;
    var q1 := u / 0x100;
    var q2 := q1 / 0x100;
    var q3 := q2 / 0x100;
    var b := EncodeInt32(v);
    assert b[0] as int == q3 && b[1] as int == q2 % 0x100 && b[2] as int == q1 % 0x100 && b[3] as int == u % 0x100;
    assert ((b[0] as int * 0x100 + b[1] as int) * 0x100 + b[2] as int) * 0x100 + b[3] as int == u;
  }

  lemma DivMod256(q: int, r: int)
    requires 0 <= r < 0x100
    ensures (q * 0x100 + r) / 0x100 == q && (q * 0x100 + r) % 0x100 == r
  {
  }

  lemma EncodeDecodeInt32(b: seq<Byte>)
    requires |b| == 4
    ensures EncodeInt32(DecodeInt32(b)) == b
  {
    var q2 := b[0] as int * 0x100 + b[1] as int;
    var q1 := q2 * 0x100 + b[2] as int;
    var u := q1 * 0x100 + b[3] as int;
    DivMod256(q1, b[3] as int);
    DivMod256(q2, b[2] as int);
    DivMod256(b[0] as int, b[1] as int);
    var e := EncodeInt32(DecodeInt32(b));
    assert e[0] == b[0] && e[1] == b[1] && e[2] == b[2] && e[3] == b[3];
  }

  /** The value is negative exactly when the sign bit of the first byte is set. */
  lemma DecodeInt32Sign(b: seq<Byte>)
    requires |b| == 4
    ensures DecodeInt32(b) < 0 <==> b[0] >= 0x80
  {
  }

  /** The int32 product `x * y` of Go: the mathematical product wrapped into
      the int32 range. */
  function Wrap32(x: int): int32
  {
    ((x + 0x8000_0000) % 0x1_0000_0000 - 0x8000_0000) as int32
  }

  /** Wrapping keeps the value modulo 2^32 and changes nothing already in range. */
  lemma Wrap32Congruent(x: int)
    ensures (Wrap32(x) as int - x) % 0x1_0000_0000 == 0
    ensures -0x8000_0000 <= x < 0x8000_0000 ==> Wrap32(x) as int == x
  {
  }

  // ---------------------------------------------------------------------------
  // The stream and io.ReadFull
  // ---------------------------------------------------------------------------

  /** The reader handed to the parsers: the bytes it delivers, then the error
      it ends with (`fault`), or io.EOF when `fault` is None. */
  datatype Stream = Stream(data: seq<Byte>, fault: Option<Error>)

  /** The error of `io.ReadFull` when it asks for more bytes than remain after
      `pos`: the reader's closing error, promoted from io.EOF to
      io.ErrUnexpectedEOF when some (but not enough) bytes were read. */
  function ShortReadError(r: Stream, pos: nat): Error
    requires pos <= |r.data|
  {
    var end := if r.fault.Some? then r.fault.value else EOF;
    if pos < |r.data| && end == EOF then UnexpectedEOF else end
  }

  /** `io.ReadFull` of `k` bytes at offset `pos` (also what `binary.Read` does
      for a fixed-size value): either all `k` bytes, or an error. */
  method ReadFull(r: Stream, pos: nat, k: nat) returns (buf: seq<Byte>, next: nat, err: Option<Error>)
    requires pos <= |r.data|
    ensures err.None? <==> pos + k <= |r.data|
    ensures err.None? ==> buf == r.data[pos..pos + k] && next == pos + k
    ensures err.Some? ==> err.value == ShortReadError(r, pos)
  {
    if pos + k <= |r.data| {
      buf, next, err := r.data[pos..pos + k], pos + k, None;
    } else {
      buf, next, err := r.data[pos..], |r.data|, Some(ShortReadError(r, pos));
    }
  }

  /** The int32 header field at byte offset `off`. */
  function Int32At(data: seq<Byte>, off: nat): int32
    requires off + 4 <= |data|
  {
    DecodeInt32(data[off..off + 4])
  }

  // ---------------------------------------------------------------------------
  // readLabelFile
  // ---------------------------------------------------------------------------

  /** What `readLabelFile(r, e)` does: pass on the open error; read the magic
      (any value but 0x00000801 is os.ErrInvalid); read the count `n`
      (negative panics in `make`); then read `n` single bytes. */
  function LabelFile(r: Stream, e: Option<Error>): Outcome<Reply<seq<Label>>>
  {
    if e.Some? then Returns(Reply(None, e))
    else if |r.data| < 4 then Returns(Reply(None, Some(ShortReadError(r, 0))))
    else if Int32At(r.data, 0) != LabelMagic then Returns(Reply(None, Some(ErrInvalid)))
    else if |r.data| < 8 then Returns(Reply(None, Some(ShortReadError(r, 4))))
    else
      var n := Int32At(r.data, 4) as int;
      if n < 0 then Panics(MakeLenOutOfRange)
      else if |r.data| < 8 + n then Returns(Reply(None, Some(ShortReadError(r, |r.data|))))
      else Returns(Reply(Some(r.data[8..8 + n]), None))
  }

  method ReadLabelFile(r: Stream, e: Option<Error>) returns (res: Outcome<Reply<seq<Label>>>)
    ensures res == LabelFile(r, e)
  {
    if e.Some? {
      return Returns(Reply(None, e));
    }
    var buf, pos, err := ReadFull(r, 0, 4);
    if err.Some? {
      return Returns(Reply(None, err));
    }
    var magic := DecodeInt32(buf);
    if magic != LabelMagic {
      return Returns(Reply(None, Some(ErrInvalid)));
    }
    buf, pos, err := ReadFull(r, pos, 4);
    if err.Some? {
      return Returns(Reply(None, err));
    }
    var n := DecodeInt32(buf);
    if n < 0 {
      return Panics(MakeLenOutOfRange);
    }
    var labels := new Label[n as int];
    var i := 0;
    while i < n as int
      invariant 0 <= i <= n as int
      invariant pos == 8 + i <= |r.data|
      invariant labels[..i] == r.data[8..pos]
    {
      buf, pos, err := ReadFull(r, pos, 1);
      if err.Some? {
        return Returns(Reply(None, err));
      }
      labels[i] := buf[0];
      i := i + 1;
    }
    assert labels[..] == labels[..i];
    return Returns(Reply(Some(labels[..]), None));
  }

  /** A label file parses exactly when the open succeeded, the magic is
      0x00000801, the count is non-negative and the stream holds all the
      labels; it then yields `n` labels, label `i` being the byte at offset
      `8 + i`, whatever its value. */
  lemma LabelFileSucceeds(r: Stream, e: Option<Error>)
    ensures var res := LabelFile(r, e);
      (res.Returns? && res.result.value.Some?) <==>
        (e.None? && |r.data| >= 8 && Int32At(r.data, 0) == LabelMagic &&
         0 <= Int32At(r.data, 4) as int && 8 + Int32At(r.data, 4) as int <= |r.data|)
    ensures var res := LabelFile(r, e);
      res.Returns? && res.result.value.Some? ==>
        var labels := res.result.value.value;
        res.result.err.None? && |labels| == Int32At(r.data, 4) as int &&
        forall i | 0 <= i < |labels| :: labels[i] == r.data[8 + i]
  {
  }

  /** A label read never hands back both a list and an error, nor neither:
      every failure comes with an error and without a partial list. */
  lemma LabelFileNoPartial(r: Stream, e: Option<Error>)
    ensures var res := LabelFile(r, e);
      res.Returns? ==> (res.result.value.None? <==> res.result.err.Some?)
  {
  }

  /** The label reader panics exactly when `make` gets a negative count: the
      open succeeded, the header is there with the right magic and the count
      is negative. An open error is handed back as it is. */
  lemma LabelFilePanics(r: Stream, e: Option<Error>)
    ensures LabelFile(r, e).Panics? <==>
      (e.None? && |r.data| >= 8 && Int32At(r.data, 0) == LabelMagic && Int32At(r.data, 4) < 0)
    ensures e.Some? ==> LabelFile(r, e) == Returns(Reply(None, e))
  {
  }

  /** A wrong magic fails with os.ErrInvalid. */
  lemma LabelFileBadMagic(r: Stream)
    requires |r.data| >= 4 && Int32At(r.data, 0) != LabelMagic
    ensures LabelFile(r, None) == Returns(Reply(None, Some(ErrInvalid)))
  {
  }

  /** The IDX label layout: magic, count, one byte per label. */
  function EncodeLabelFile(labels: seq<Label>): (data: seq<Byte>)
    requires |labels| < 0x8000_0000
    ensures |data| == 8 + |labels|
  {
    EncodeInt32(LabelMagic) + EncodeInt32(|labels| as int32) + labels
  }

  /** Reading back an encoded label file returns its labels, whatever the
      stream does after its last byte. */
  lemma LabelFileRoundTrip(labels: seq<Label>, fault: Option<Error>)
    requires |labels| < 0x8000_0000
    ensures LabelFile(Stream(EncodeLabelFile(labels), fault), None) == Returns(Reply(Some(labels), None))
  {
    var data := EncodeLabelFile(labels);
    assert data[0..4] == EncodeInt32(LabelMagic);
    assert data[4..8] == EncodeInt32(|labels| as int32);
    assert data[8..8 + |labels|] == labels;
    DecodeEncodeInt32(LabelMagic);
    DecodeEncodeInt32(|labels| as int32);
  }

  // ---------------------------------------------------------------------------
  // readImageFile
  // ---------------------------------------------------------------------------

  function ImageCount(data: seq<Byte>): int
    requires |data| >= 16
  {
    Int32At(data, 4) as int
  }

  /** The bytes per image: `int(nrow * ncol)`, an int32 product that wraps. */
  function ImageSize(data: seq<Byte>): int
    requires |data| >= 16
  {
    Wrap32(Int32At(data, 8) as int * Int32At(data, 12) as int) as int
  }

  /** The `(value, error)` pair the Go code would return if `prefix` were
      already read before `rest`. */
  function Prefixed<T>(prefix: seq<T>, rest: Reply<seq<T>>): Reply<seq<T>>
  {
    if rest.value.Some? then Reply(Some(prefix + rest.value.value), rest.err) else rest
  }

  /** Reading `count` images of `m` bytes each from offset `pos`: the first
      short read ends the loop with its error and no images. */
  function ReadImages(r: Stream, pos: nat, count: nat, m: int): Reply<seq<RawImage>>
    requires pos <= |r.data|
    requires count == 0 || m >= 0
    decreases count
  {
    if count == 0 then Reply(Some([]), None)
    else if |r.data| - pos < m then Reply(None, Some(ShortReadError(r, pos)))
    else Prefixed([r.data[pos..pos + m]], ReadImages(r, pos + m, count - 1, m))
  }

  /** What `readImageFile(r, e)` does: pass on the open error; read the magic
      (a wrong one returns no images and the still-nil error of the magic
      read); read count, rows and cols; panic in `make` on a negative count,
      or on a negative wrapped size once there is an image to allocate; then
      read the images. */
  function ImageFile(r: Stream, e: Option<Error>): Outcome<Reply<seq<RawImage>>>
  {
    if e.Some? then Returns(Reply(None, e))
    else if |r.data| < 4 then Returns(Reply(None, Some(ShortReadError(r, 0))))
    else if Int32At(r.data, 0) != ImageMagic then Returns(Reply(None, None))
    else if |r.data| < 8 then Returns(Reply(None, Some(ShortReadError(r, 4))))
    else if |r.data| < 12 then Returns(Reply(None, Some(ShortReadError(r, 8))))
    else if |r.data| < 16 then Returns(Reply(None, Some(ShortReadError(r, 12))))
    else if ImageCount(r.data) < 0 then Panics(MakeLenOutOfRange)
    else if ImageCount(r.data) > 0 && ImageSize(r.data) < 0 then Panics(MakeLenOutOfRange)
    else Returns(ReadImages(r, 16, ImageCount(r.data), ImageSize(r.data)))
  }

  lemma PrefixedEmpty<T>(rest: Reply<seq<T>>)
    ensures Prefixed([], rest) == rest
  {
    if rest.value.Some? {
      assert [] + rest.value.value == rest.value.value;
    }
  }

  lemma ReadImagesStep(prefix: seq<RawImage>, r: Stream, pos: nat, count: nat, m: int)
    requires pos <= |r.data| && count > 0 && m >= 0 && pos + m <= |r.data|
    ensures Prefixed(prefix, ReadImages(r, pos, count, m))
         == Prefixed(prefix + [r.data[pos..pos + m]], ReadImages(r, pos + m, count - 1, m))
  {
    var rest := ReadImages(r, pos + m, count - 1, m);
    if rest.value.Some? {
      assert prefix + ([r.data[pos..pos + m]] + rest.value.value)
          == (prefix + [r.data[pos..pos + m]]) + rest.value.value;
    }
  }

  method ReadImageFile(r: Stream, e: Option<Error>) returns (res: Outcome<Reply<seq<RawImage>>>)
    ensures res == ImageFile(r, e)
  {
    if e.Some? {
      return Returns(Reply(None, e));
    }
    var buf, pos, err := ReadFull(r, 0, 4);
    if err.Some? {
      return Returns(Reply(None, err));
    }
    var magic := DecodeInt32(buf);
    if magic != ImageMagic {
      return Returns(Reply(None, err));
    }
    buf, pos, err := ReadFull(r, pos, 4);
    if err.Some? {
      return Returns(Reply(None, err));
    }
    var n := DecodeInt32(buf);
    buf, pos, err := ReadFull(r, pos, 4);
    if err.Some? {
      return Returns(Reply(None, err));
    }
    var nrow := DecodeInt32(buf);
    buf, pos, err := ReadFull(r, pos, 4);
    if err.Some? {
      return Returns(Reply(None, err));
    }
    var ncol := DecodeInt32(buf);
    assert n as int == ImageCount(r.data);
    var m := Wrap32(nrow as int * ncol as int) as int;
    assert m == ImageSize(r.data);
    if n < 0 || (n > 0 && m < 0) {
      // `make([][]byte, n)` panics on a negative count; otherwise the first
      // pass of the loop panics in `make([]byte, m)` before reading anything.
      return Panics(MakeLenOutOfRange);
    }
    var rep := ReadImageData(r, n as int, m);
    return Returns(rep);
  }

  /** The loop of `readImageFile`: read `n` images of `m` bytes each, starting
      right after the 16-byte header. */
  method ReadImageData(r: Stream, n: nat, m: int) returns (rep: Reply<seq<RawImage>>)
    requires 16 <= |r.data| && (n == 0 || m >= 0)
    ensures rep == ReadImages(r, 16, n, m)
  {
    var imgs := new RawImage[n];
    var i, pos := 0, 16;
    PrefixedEmpty(ReadImages(r, 16, n, m));
    while i < n
      invariant 0 <= i <= n && 16 <= pos <= |r.data|
      invariant ReadImages(r, 16, n, m) == Prefixed(imgs[..i], ReadImages(r, pos, n - i, m))
    {
      var at := pos;
      var buf, err;
      buf, pos, err := ReadFull(r, pos, m);
      if err.Some? {
        return Reply(None, err);
      }
      ghost var done := imgs[..i];
      ReadImagesStep(done, r, at, n - i, m);
      imgs[i] := buf;
      assert imgs[..i + 1] == done + [buf];
      i := i + 1;
    }
    assert imgs[..i] == imgs[..] == imgs[..] + [];
    return Reply(Some(imgs[..]), None);
  }

  /** `ReadImages` succeeds exactly when all `count * m` bytes are there; it
      then yields `count` images, image `k` being the `m` bytes at
      `pos + k * m`; otherwise it yields an error and no images. */
  lemma ReadImagesAt(r: Stream, pos: nat, count: nat, m: int)
    requires pos <= |r.data| && (count == 0 || m >= 0)
    ensures var rep := ReadImages(r, pos, count, m);
      (rep.value.Some? <==> pos + count * m <= |r.data|) &&
      (rep.value.None? ==> rep.err.Some?) &&
      (rep.value.Some? ==>
        rep.err.None? && |rep.value.value| == count &&
        forall k | 0 <= k < count ::
          0 <= k * m && pos + k * m + m <= |r.data| && rep.value.value[k] == r.data[pos + k * m .. pos + k * m + m])
  {
    ReadImagesSucceeds(r, pos, count, m);
    if ReadImages(r, pos, count, m).value.Some? {
      ReadImagesContents(r, pos, count, m);
    }
  }

  lemma {:induction false} ReadImagesSucceeds(r: Stream, pos: nat, count: nat, m: int)
    requires pos <= |r.data| && (count == 0 || m >= 0)
    ensures var rep := ReadImages(r, pos, count, m);
      (rep.value.Some? <==> pos + count * m <= |r.data|) &&
      (rep.value.None? ==> rep.err.Some?) &&
      (rep.value.Some? ==> rep.err.None? && |rep.value.value| == count)
    decreases count
  {
    if count > 0 {
      StepOffset(pos, m, count);
      if |r.data| - pos >= m {
        ReadImagesSucceeds(r, pos + m, count - 1, m);
      } else {
        Tensors.MulMonotone(0, count - 1, m);
      }
    }
  }

  /** Image `k` starts `m` bytes after image `k - 1`. */
  lemma StepOffset(pos: nat, m: nat, k: nat)
    requires k > 0
    ensures 0 <= (k - 1) * m <= k * m
    ensures pos + m + (k - 1) * m == pos + k * m
  {
    Tensors.MulMonotone(0, k - 1, m);
    Tensors.MulMonotone(k - 1, k, m);
  }

  lemma {:induction false} ReadImagesContents(r: Stream, pos: nat, count: nat, m: int)
    requires pos <= |r.data| && (count == 0 || m >= 0)
    requires ReadImages(r, pos, count, m).value.Some?
    ensures var imgs := ReadImages(r, pos, count, m).value.value;
      |imgs| == count &&
      forall k | 0 <= k < count ::
        0 <= k * m && pos + k * m + m <= |r.data| && imgs[k] == r.data[pos + k * m .. pos + k * m + m]
    decreases count
  {
    if count > 0 {
      ReadImagesContents(r, pos + m, count - 1, m);
      var rest := ReadImages(r, pos + m, count - 1, m).value.value;
      var imgs := ReadImages(r, pos, count, m).value.value;
      assert imgs == [r.data[pos..pos + m]] + rest;
      forall k | 0 <= k < count
        ensures 0 <= k * m && pos + k * m + m <= |r.data| && imgs[k] == r.data[pos + k * m .. pos + k * m + m]
      {
        if k > 0 {
          StepOffset(pos, m, k);
          assert imgs[k] == rest[k - 1];
        }
      }
    }
  }

  /** An image file parses exactly when the open succeeded, the header is
      complete with magic 0x00000803 and a non-negative count, and (if there
      is any image) the wrapped size is non-negative and every image is in the
      stream. */
  lemma ImageFileSucceeds(r: Stream, e: Option<Error>)
    ensures var res := ImageFile(r, e);
      (res.Returns? && res.result.value.Some?) <==>
        (e.None? && |r.data| >= 16 && Int32At(r.data, 0) == ImageMagic && ImageCount(r.data) >= 0 &&
         (ImageCount(r.data) == 0 ||
          (ImageSize(r.data) >= 0 && 16 + ImageCount(r.data) * ImageSize(r.data) <= |r.data|)))
  {
    if e.None? && |r.data| >= 16 && Int32At(r.data, 0) == ImageMagic {
      var n, m := ImageCount(r.data), ImageSize(r.data);
      if n >= 0 && (n == 0 || m >= 0) {
        ReadImagesAt(r, 16, n, m);
      }
    }
  }

  /** A successful image read yields `n` images of `m` bytes each, image `k`
      being the bytes at offsets `16 + k * m .. 16 + (k + 1) * m`. */
  lemma ImageFileContents(r: Stream, e: Option<Error>, imgs: seq<RawImage>, err: Option<Error>)
    requires ImageFile(r, e) == Returns(Reply(Some(imgs), err))
    ensures err.None? && |r.data| >= 16 && |imgs| == ImageCount(r.data)
    ensures |imgs| > 0 ==> ImageSize(r.data) >= 0
    ensures var m := ImageSize(r.data);
      forall k | 0 <= k < |imgs| ::
        |imgs[k]| == m && 0 <= k * m && 16 + k * m + m <= |r.data| && imgs[k] == r.data[16 + k * m .. 16 + k * m + m]
  {
    ImageFileReadsImages(r, e, imgs, err);
    var n, m := ImageCount(r.data), ImageSize(r.data);
    ReadImagesAt(r, 16, n, m);
    assert ReadImages(r, 16, n, m) == Reply(Some(imgs), err);
  }

  /** A read that returned images got past the header. */
  lemma ImageFileReadsImages(r: Stream, e: Option<Error>, imgs: seq<RawImage>, err: Option<Error>)
    requires ImageFile(r, e) == Returns(Reply(Some(imgs), err))
    ensures e.None? && |r.data| >= 16 && Int32At(r.data, 0) == ImageMagic
    ensures ImageCount(r.data) >= 0 && (ImageCount(r.data) == 0 || ImageSize(r.data) >= 0)
    ensures Reply(Some(imgs), err) == ReadImages(r, 16, ImageCount(r.data), ImageSize(r.data))
  {
  }

  /** Every failure returns no images. It carries an error, except for a
      wrong magic, which returns no images and no error. */
  lemma ImageFileNoPartial(r: Stream, e: Option<Error>)
    ensures var res := ImageFile(r, e);
      res.Returns? ==>
        (res.result.value.Some? ==> res.result.err.None?) &&
        ((res.result.value.None? && res.result.err.None?) <==>
          (e.None? && |r.data| >= 4 && Int32At(r.data, 0) != ImageMagic))
  {
    if e.None? && |r.data| >= 16 && Int32At(r.data, 0) == ImageMagic && ImageCount(r.data) >= 0 &&
       (ImageCount(r.data) == 0 || ImageSize(r.data) >= 0) {
      ReadImagesAt(r, 16, ImageCount(r.data), ImageSize(r.data));
    }
  }

  /** The image reader panics exactly on a negative count, or on a negative
      wrapped `rows * cols` when there is at least one image. */
  lemma ImageFilePanics(r: Stream, e: Option<Error>)
    ensures ImageFile(r, e).Panics? <==>
      (e.None? && |r.data| >= 16 && Int32At(r.data, 0) == ImageMagic &&
       (ImageCount(r.data) < 0 || (ImageCount(r.data) > 0 && ImageSize(r.data) < 0)))
  {
  }

  /** Image `k` of images laid end to end after a 16-byte header. */
  lemma FlattenedImageAt(data: seq<Byte>, imgs: seq<RawImage>, m: nat, k: nat)
    requires |data| >= 16 && data[16..] == Tensors.Flatten(imgs)
    requires Tensors.Rectangular(imgs, m) && k < |imgs|
    ensures 0 <= k * m && 16 + k * m + m <= |data| && data[16 + k * m .. 16 + k * m + m] == imgs[k]
  {
    Tensors.FlattenRow(imgs, m, k);
    Tensors.MulMonotone(0, k, m);
    SuffixSlice(data, Tensors.Flatten(imgs), imgs[k], 16, k * m);
  }

  /** A slice of what follows a header of `h` items is a slice of the whole. */
  lemma SuffixSlice<T>(data: seq<T>, tail: seq<T>, part: seq<T>, h: nat, off: nat)
    requires h <= |data| && data[h..] == tail
    requires off + |part| <= |tail| && tail[off .. off + |part|] == part
    ensures h + off + |part| <= |data| && data[h + off .. h + off + |part|] == part
  {
    assert data[h + off .. h + off + |part|] == data[h..][off .. off + |part|];
  }

  /** The IDX image layout: magic, count, rows, cols, then the images end to end. */
  function EncodeImageFile(imgs: seq<RawImage>, rows: int32, cols: int32): (data: seq<Byte>)
    requires |imgs| < 0x8000_0000
    ensures |data| == 16 + |Tensors.Flatten(imgs)|
  {
    EncodeInt32(ImageMagic) + EncodeInt32(|imgs| as int32) + EncodeInt32(rows) + EncodeInt32(cols)
      + Tensors.Flatten(imgs)
  }

  /** The header of an encoded image file reads back as written. */
  lemma EncodedImageHeader(imgs: seq<RawImage>, rows: int32, cols: int32)
    requires |imgs| < 0x8000_0000
    requires rows as int * cols as int < 0x8000_0000 && -0x8000_0000 <= rows as int * cols as int
    ensures var data := EncodeImageFile(imgs, rows, cols);
      |data| >= 16 && Int32At(data, 0) == ImageMagic && ImageCount(data) == |imgs| &&
      ImageSize(data) == rows as int * cols as int && data[16..] == Tensors.Flatten(imgs)
  {
    var data := EncodeImageFile(imgs, rows, cols);
    assert data[0..4] == EncodeInt32(ImageMagic);
    assert data[4..8] == EncodeInt32(|imgs| as int32);
    assert data[8..12] == EncodeInt32(rows);
    assert data[12..16] == EncodeInt32(cols);
    DecodeEncodeInt32(ImageMagic);
    DecodeEncodeInt32(|imgs| as int32);
    DecodeEncodeInt32(rows);
    DecodeEncodeInt32(cols);
    Wrap32Congruent(rows as int * cols as int);
  }

  /** Reading back an encoded image file whose images all hold `rows * cols`
      bytes returns those images, whatever the stream does after its last byte. */
  lemma ImageFileRoundTrip(imgs: seq<RawImage>, rows: int32, cols: int32, fault: Option<Error>)
    requires |imgs| < 0x8000_0000
    requires 0 <= rows as int * cols as int < 0x8000_0000
    requires Tensors.Rectangular(imgs, rows as int * cols as int)
    ensures ImageFile(Stream(EncodeImageFile(imgs, rows, cols), fault), None) == Returns(Reply(Some(imgs), None))
  {
    var n := |imgs|;
    var m := rows as int * cols as int;
    var data := EncodeImageFile(imgs, rows, cols);
    var r := Stream(data, fault);
    EncodedImageHeader(imgs, rows, cols);
    Tensors.FlattenLength(imgs, m);
    ReadImagesAt(r, 16, n, m);
    var got := ReadImages(r, 16, n, m).value.value;
    forall k | 0 <= k < n
      ensures got[k] == imgs[k]
    {
      FlattenedImageAt(data, imgs, m, k);
    }
    assert got == imgs;
  }
}
