// The image side of the DICOM reader: turning the pixel-data blob into a
// (frames, rows, columns) volume, the central crop, the per-slice smoothing,
// the circular edge mask and the sentinel-skipping extrema.
module DicomVolume {
  import opened Wrappers
  import opened PyStr
  import opened ByteCodec
  import opened DicomValue
  import opened DicomParse

  /** A numpy array of shape (frames, rows, columns), as nested sequences. */
  type Volume = seq<seq<seq<int>>>

  /** The value remove_image_edges writes outside the circle, and which
      max_pixel / min_pixel skip. */
  const Sentinel := 10000

  /** The metadata keys decode_image_data reads: Bits Allocated (0028,0100),
      Rows (0028,0010), Columns (0028,0011) and Number of Frames (0028,0008). */
  const BitsAllocatedTag := "00280100"
  const RowsTag := "00280010"
  const ColumnsTag := "00280011"
  const FramesTag := "00280008"

  /** v is a box of the given shape: every frame has the same number of rows
      and every row the same number of columns. */
  predicate IsBox(v: Volume, frames: nat, rows: nat, cols: nat)
  {
    |v| == frames &&
    (forall f | 0 <= f < |v| :: |v[f]| == rows) &&
    (forall f, r | 0 <= f < |v| && 0 <= r < |v[f]| :: |v[f][r]| == cols)
  }

  // ----- decode_image_data -----

  /** `[int.from_bytes(bs[i:i+b], "little") for i in range(0, len(bs), b)]`
      for b > 0: one little-endian sample per b bytes, the last chunk
      possibly short. */
  function Samples(bs: seq<Byte>, b: nat): seq<nat>
    requires b > 0
    decreases |bs|
  {
    if bs == [] then []
    else if |bs| <= b then [LittleEndian(bs)]                     // the last, possibly short, chunk
    else [LittleEndian(bs[..b])] + Samples(bs[b..], b)
  }

  /** x*c grows with x. */
  lemma MulMonotone(x: int, y: int, c: nat)
    ensures x <= y ==> x * c <= y * c
  {
    if x <= y {
      MulNonneg(y - x, c);
      assert y * c - x * c == (y - x) * c;
    }
  }

  lemma MulSucc(m: int, b: int)
    ensures (m + 1) * b == m * b + b
  {
  }

  /** There are ceil(|bs| / b) samples: just enough b-byte chunks to cover bs. */
  lemma {:induction false} SamplesLength(bs: seq<Byte>, b: nat)
    requires b > 0
    ensures |bs| <= |Samples(bs, b)| * b < |bs| + b
    decreases |bs|
  {
    if |bs| > b {
      var m := |Samples(bs[b..], b)|;
      SamplesLength(bs[b..], b);
      MulSucc(m, b);
    }
  }

  /** A blob of exactly n*b bytes holds n samples. */
  lemma {:induction false} SamplesCount(bs: seq<Byte>, b: nat, n: nat)
    requires b > 0 && |bs| == n * b
    ensures |Samples(bs, b)| == n
  {
    if n > 1 {
      MulSucc(n - 1, b);
      SamplesCount(bs[b..], b, n - 1);
    } else if n == 1 {
      assert |bs| == b;
    }
  }

  /** Where chunk i starts: i*b, counted chunk by chunk. */
  function Offset(i: nat, b: nat): nat
  {
    if i == 0 then 0 else Offset(i - 1, b) + b
  }

  lemma {:induction false} OffsetIsProduct(i: nat, b: nat)
    ensures Offset(i, b) == i * b
  {
    if i > 0 {
      OffsetIsProduct(i - 1, b);
      MulSucc(i - 1, b);
    }
  }

  lemma SliceOfSlice<T>(s: seq<T>, b: nat, p: nat, h: nat)
    requires b <= |s| && p <= h <= |s| - b
    ensures s[b..][p..h] == s[b + p..b + h]
  {
  }

  /** Sample i is read from the bytes at Offset(i, b), clamped to the blob. */
  lemma {:induction false} SampleFrom(bs: seq<Byte>, b: nat, i: nat)
    requires b > 0 && i < |Samples(bs, b)|
    ensures Offset(i, b) < |bs|
    ensures Samples(bs, b)[i] == LittleEndian(bs[Offset(i, b)..if Offset(i, b) + b <= |bs| then Offset(i, b) + b else |bs|])
    decreases i
  {
    if i > 0 {
      assert |bs| > b;
      var rest := bs[b..];
      assert Samples(bs, b)[i] == Samples(rest, b)[i - 1];
      SampleFrom(rest, b, i - 1);
      var p := Offset(i - 1, b);
      var h := if p + b <= |rest| then p + b else |rest|;
      SliceOfSlice(bs, b, p, h);
    } else {
      assert bs[0..|bs|] == bs;
    }
  }

  /** Sample i is the little-endian value of bytes [i*b, i*b+b), clamped to the blob. */
  lemma SampleAt(bs: seq<Byte>, b: nat, i: nat)
    requires b > 0 && i < |Samples(bs, b)|
    ensures i * b < |bs|
    ensures Samples(bs, b)[i] == LittleEndian(bs[i * b..if i * b + b <= |bs| then i * b + b else |bs|])
  {
    SampleFrom(bs, b, i);
    OffsetIsProduct(i, b);
  }

  /** Writing every value with b little-endian bytes. */
  function EncodeSamples(xs: seq<nat>, b: nat): (bs: seq<Byte>)
    ensures |bs| == |xs| * b
  {
    if xs == [] then [] else EncodeLittleEndian(xs[0], b) + EncodeSamples(xs[1..], b)
  }

  /** Reading back b-byte little-endian samples gives the values, as long as
      each fits in b bytes. */
  lemma {:induction false} SamplesRoundTrip(xs: seq<nat>, b: nat)
    requires b > 0
    requires forall i | 0 <= i < |xs| :: xs[i] < Pow256(b)
    ensures Samples(EncodeSamples(xs, b), b) == xs
  {
    if xs != [] {
      var head, tail := EncodeLittleEndian(xs[0], b), EncodeSamples(xs[1..], b);
      var bs := EncodeSamples(xs, b);
      assert bs == head + tail;
      if xs[1..] == [] {
        assert bs == head;
      } else {
        assert |tail| > 0;
        assert bs[..b] == head && bs[b..] == tail;
      }
      EncodeLittleEndianRoundTrip(xs[0], b);
      SamplesRoundTrip(xs[1..], b);
    }
  }

  /** Position of (f, r, c) in the row-major order of a (_, rows, cols) box:
      (f*rows + r)*cols + c, with the products counted by Offset. */
  function RowMajor(f: nat, r: nat, c: nat, rows: nat, cols: nat): nat
  {
    Offset(Offset(f, rows) + r, cols) + c
  }

  lemma RowMajorIsProduct(f: nat, r: nat, c: nat, rows: nat, cols: nat)
    ensures RowMajor(f, r, c, rows, cols) == (f * rows + r) * cols + c
  {
    OffsetIsProduct(f, rows);
    OffsetIsProduct(f * rows + r, cols);
  }

  lemma RowMajorBound(f: nat, r: nat, c: nat, frames: nat, rows: nat, cols: nat)
    requires f < frames && r < rows && c < cols
    ensures RowMajor(f, r, c, rows, cols) < frames * rows * cols
  {
    RowMajorIsProduct(f, r, c, rows, cols);
    MulMonotone(f + 1, frames, rows);
    MulSucc(f, rows);
    var k := f * rows + r;
    MulMonotone(k + 1, frames * rows, cols);
    MulSucc(k, cols);
  }

  /** `np.array(xs).reshape((frames, rows, cols))` once the sizes agree. */
  function Reshape(xs: seq<int>, frames: nat, rows: nat, cols: nat): (v: Volume)
    requires |xs| == frames * rows * cols
    ensures IsBox(v, frames, rows, cols)
  {
    seq(frames, f requires 0 <= f < frames =>
      seq(rows, r requires 0 <= r < rows =>
        seq(cols, c requires 0 <= c < cols =>
          RowMajorBound(f, r, c, frames, rows, cols);
          xs[RowMajor(f, r, c, rows, cols)])))
  }

  /** The reshaped volume holds sample (f*rows + r)*cols + c at [f][r][c]. */
  lemma ReshapeAt(xs: seq<int>, frames: nat, rows: nat, cols: nat, f: nat, r: nat, c: nat)
    requires |xs| == frames * rows * cols
    requires f < frames && r < rows && c < cols
    ensures (f * rows + r) * cols + c < |xs|
    ensures Reshape(xs, frames, rows, cols)[f][r][c] == xs[(f * rows + r) * cols + c]
  {
    RowMajorBound(f, r, c, frames, rows, cols);
    RowMajorIsProduct(f, r, c, rows, cols);
  }

  /** Position k of a (frames, rows, cols) box is the row-major position of
      the cell (k / (rows*cols), k / cols % rows, k % cols). */
  lemma Decompose(k: nat, frames: nat, rows: nat, cols: nat) returns (f: nat, r: nat, c: nat)
    requires k < frames * rows * cols
    ensures f < frames && r < rows && c < cols
    ensures RowMajor(f, r, c, rows, cols) == k
  {
    var q := k / cols;
    DivBelow(k, frames * rows, cols);
    DivBelow(q, frames, rows);
    f, r, c := q / rows, q % rows, k % cols;
    RowMajorIsProduct(f, r, c, rows, cols);
  }

  /** Below n*c, the quotient by c is below n. */
  lemma DivBelow(k: nat, n: nat, c: nat)
    requires k < n * c
    ensures c > 0 && k / c < n && k == (k / c) * c + k % c
  {
    assert c > 0;
    MulMonotone(n, k / c, c);
  }

  /** Every sample lands in some cell of the reshaped volume. */
  lemma ReshapeCovers(xs: seq<int>, frames: nat, rows: nat, cols: nat, k: nat)
    requires |xs| == frames * rows * cols && k < |xs|
    ensures exists f: nat, r: nat, c: nat | f < frames && r < rows && c < cols ::
      RowMajor(f, r, c, rows, cols) == k && Reshape(xs, frames, rows, cols)[f][r][c] == xs[k]
  {
    var f, r, c := Decompose(k, frames, rows, cols);
    assert Reshape(xs, frames, rows, cols)[f][r][c] == xs[k];
  }

  /** The number of entries len() sees in image_data, or TypeError when it has no length. */
  function PixelLength(pixel: Option<Value>): Result<nat, DicomError>
  {
    match pixel
    case None => Ok(0)
    case Some(Bytes(bs)) => Ok(|bs|)
    case Some(Text(t)) => Ok(|t|)
    case Some(_) => Err(TypeError)
  }

  /** The list comprehension of decode_image_data for a byte count b (an int,
      so possibly zero or negative). */
  function DecodeSamples(pixel: Option<Value>, b: int): (r: Result<seq<int>, DicomError>)
    ensures b == 0 && PixelLength(pixel).Ok? ==> r == Err(ValueError)
    ensures b < 0 && PixelLength(pixel).Ok? ==> r == Ok([])
  {
    var n :- PixelLength(pixel);
    if b == 0 then Err(ValueError)        // range() arg 3 must not be zero
    else if b < 0 || n == 0 then Ok([])
    else match pixel
      case Some(Bytes(bs)) => Ok(Samples(bs, b))
      case _ => Err(TypeError)            // int.from_bytes of a str slice
  }

  /** `parsed_data[tag][2]`: KeyError when the key is absent. */
  function Lookup(metadata: map<string, Entry>, tag: string): (r: Result<Value, DicomError>)
    ensures r.Ok? <==> tag in metadata
    ensures r.Err? ==> r.error == KeyError(tag)
    ensures r.Ok? ==> r.value == metadata[tag].value
  {
    if tag !in metadata then Err(KeyError(tag)) else Ok(metadata[tag].value)
  }

  /** A value used as an integer (by `//` or by reshape): TypeError unless it
      is one. */
  function AsInt(v: Value): Result<int, DicomError>
  {
    match v
    case Int(n) => Ok(n)
    case _ => Err(TypeError)
  }

  /** A dimension read from the metadata and used as an integer. */
  function Dimension(metadata: map<string, Entry>, tag: string): Result<int, DicomError>
  {
    var v :- Lookup(metadata, tag);
    AsInt(v)
  }

  /** The samples were cut from the pixel data: the bit depth is an integer
      and the stride it gives is usable. */
  predicate SamplesRead(metadata: map<string, Entry>, pixel: Option<Value>)
  {
    Dimension(metadata, BitsAllocatedTag).Ok? && DecodeSamples(pixel, Dimension(metadata, BitsAllocatedTag).value / 8).Ok?
  }

  /** Frames, rows and columns, when all three are non-negative integers. */
  function Dimensions(metadata: map<string, Entry>): Option<(nat, nat, nat)>
  {
    match (Dimension(metadata, FramesTag), Dimension(metadata, RowsTag), Dimension(metadata, ColumnsTag))
    case (Ok(f), Ok(r), Ok(c)) => if f >= 0 && r >= 0 && c >= 0 then Some((f, r, c)) else None
    case _ => None
  }

  /** decode_image_data: Bits Allocated // 8 bytes per sample, little-endian
      samples, then rows, columns and frames looked up in that order, then a
      reshape into (frames, rows, columns), which alone needs them to be
      integers; the first failing step raises. */
  function DecodeImageData(metadata: map<string, Entry>, pixel: Option<Value>): (r: Result<Volume, DicomError>)
    ensures BitsAllocatedTag !in metadata ==> r == Err(KeyError(BitsAllocatedTag))
    ensures SamplesRead(metadata, pixel) && RowsTag !in metadata ==> r == Err(KeyError(RowsTag))
    ensures SamplesRead(metadata, pixel) && RowsTag in metadata && ColumnsTag !in metadata ==>
              r == Err(KeyError(ColumnsTag))
    ensures (SamplesRead(metadata, pixel) && RowsTag in metadata && ColumnsTag in metadata &&
             FramesTag !in metadata) ==> r == Err(KeyError(FramesTag))
    ensures (SamplesRead(metadata, pixel) && RowsTag in metadata && ColumnsTag in metadata && FramesTag in metadata &&
             !(metadata[RowsTag].value.Int? && metadata[ColumnsTag].value.Int? && metadata[FramesTag].value.Int?))
            ==> r == Err(TypeError)
    ensures r.Ok? ==>
              Dimensions(metadata).Some? &&
              IsBox(r.value, Dimensions(metadata).value.0, Dimensions(metadata).value.1, Dimensions(metadata).value.2)
  {
    var bits :- Dimension(metadata, BitsAllocatedTag);
    var samples :- DecodeSamples(pixel, bits / 8);
    var rowsValue :- Lookup(metadata, RowsTag);
    var colsValue :- Lookup(metadata, ColumnsTag);
    var framesValue :- Lookup(metadata, FramesTag);
    var frames :- AsInt(framesValue);
    var rows :- AsInt(rowsValue);
    var cols :- AsInt(colsValue);
    if frames < 0 || rows < 0 || cols < 0 then Err(ValueError)
    else if |samples| != frames * rows * cols then Err(ValueError)   // cannot reshape
    else Ok(Reshape(samples, frames, rows, cols))
  }

  /** The header facts a well-formed image carries: b-byte samples and the
      three dimensions as integers. */
  predicate Header(metadata: map<string, Entry>, b: nat, frames: nat, rows: nat, cols: nat)
  {
    Dimension(metadata, BitsAllocatedTag) == Ok(8 * b) &&
    Dimension(metadata, RowsTag) == Ok(rows) &&
    Dimension(metadata, ColumnsTag) == Ok(cols) &&
    Dimension(metadata, FramesTag) == Ok(frames)
  }

  /** A blob whose sample count matches the header decodes to the reshaped
      samples. */
  lemma DecodeImageOk(metadata: map<string, Entry>, bs: seq<Byte>, b: nat, frames: nat, rows: nat, cols: nat)
    requires b > 0 && Header(metadata, b, frames, rows, cols)
    requires |Samples(bs, b)| == frames * rows * cols
    ensures DecodeImageData(metadata, Some(Bytes(bs))) == Ok(Reshape(Samples(bs, b), frames, rows, cols))
  {
    assert (8 * b) / 8 == b;
    assert DecodeSamples(Some(Bytes(bs)), b) == Ok(Samples(bs, b));
  }

  /** Chunk k of n lies inside a blob of n*b bytes. */
  lemma ChunkInside(k: nat, n: nat, b: nat)
    requires k < n
    ensures k * b + b <= n * b
  {
    MulMonotone(k + 1, n, b);
    MulSucc(k, b);
  }

  /** A blob of exactly frames*rows*cols samples of b bytes decodes, and the
      volume holds at [f][r][c] the little-endian value of the b bytes of
      sample (f*rows + r)*cols + c. */
  lemma DecodeImageAt(metadata: map<string, Entry>, bs: seq<Byte>, b: nat, frames: nat, rows: nat, cols: nat,
                      f: nat, r: nat, c: nat)
    requires b > 0 && Header(metadata, b, frames, rows, cols)
    requires |bs| == frames * rows * cols * b
    requires f < frames && r < rows && c < cols
    ensures DecodeImageData(metadata, Some(Bytes(bs))).Ok?
    ensures IsBox(DecodeImageData(metadata, Some(Bytes(bs))).value, frames, rows, cols)
    ensures var k := (f * rows + r) * cols + c;
      k * b + b <= |bs| &&
      DecodeImageData(metadata, Some(Bytes(bs))).value[f][r][c] == LittleEndian(bs[k * b..k * b + b])
  {
    var n := frames * rows * cols;
    var xs := Samples(bs, b);
    SamplesCount(bs, b, n);
    DecodeImageOk(metadata, bs, b, frames, rows, cols);
    var k := RowMajor(f, r, c, rows, cols);
    RowMajorIsProduct(f, r, c, rows, cols);
    ReshapeAt(xs, frames, rows, cols, f, r, c);
    ChunkInside(k, n, b);
    SampleAt(bs, b, k);
  }

  /** A blob whose sample count differs from frames*rows*cols raises ValueError. */
  lemma DecodeImageCountMismatch(metadata: map<string, Entry>, bs: seq<Byte>, b: nat, frames: nat, rows: nat, cols: nat)
    requires b > 0 && Header(metadata, b, frames, rows, cols)
    requires |Samples(bs, b)| != frames * rows * cols
    ensures DecodeImageData(metadata, Some(Bytes(bs))) == Err(ValueError)
  {
    assert (8 * b) / 8 == b;
  }

  /** A file without pixel data gives `image_data = []`: it decodes only when
      one of the dimensions is zero. */
  lemma DecodeImageNoPixel(metadata: map<string, Entry>, b: nat, frames: nat, rows: nat, cols: nat)
    requires b > 0 && Header(metadata, b, frames, rows, cols)
    ensures frames * rows * cols != 0 ==> DecodeImageData(metadata, None) == Err(ValueError)
    ensures frames * rows * cols == 0 ==> DecodeImageData(metadata, None) == Ok(Reshape([], frames, rows, cols))
  {
    assert (8 * b) / 8 == b;
  }

  /** Bits Allocated from 0 to 7 makes the byte count 0 and range() raises
      ValueError. */
  lemma DecodeImageNarrowBits(metadata: map<string, Entry>, pixel: Option<Value>, bits: int)
    requires Dimension(metadata, BitsAllocatedTag) == Ok(bits) && 0 <= bits < 8
    requires PixelLength(pixel).Ok?
    ensures DecodeImageData(metadata, pixel) == Err(ValueError)
  {
  }

  // ----- crop -----

  /** Python's `v[lo:hi, lo:hi, lo:hi]`: the same slice on all three axes. */
  function Slice3(v: Volume, lo: int, hi: int): Volume
  {
    var planes := Slice(v, lo, hi);
    seq(|planes|, f requires 0 <= f < |planes| =>
      var rows := Slice(planes[f], lo, hi);
      seq(|rows|, r requires 0 <= r < |rows| => Slice(rows[r], lo, hi)))
  }

  /** The offset crop uses on every axis: shape[0] // 2 - k // 2. */
  function CropStart(v: Volume, k: int): int
  {
    |v| / 2 - k / 2
  }

  /** crop: the central k-cube, sliced from CropStart on every axis. */
  function Crop(v: Volume, k: int): (c: Volume)
    ensures |c| <= |v| && (k >= 0 ==> |c| <= k)
    ensures 0 <= k && 0 <= CropStart(v, k) && CropStart(v, k) + k <= |v| ==> |c| == k
  {
    var start := CropStart(v, k);
    assert |Slice3(v, start, start + k)| == |Slice(v, start, start + k)|;
    Slice3(v, start, start + k)
  }

  /** An in-bounds three-axis slice is a cube read at the same offset on
      every axis. */
  lemma Slice3InBounds(v: Volume, lo: nat, hi: nat, frames: nat, rows: nat, cols: nat)
    requires IsBox(v, frames, rows, cols)
    requires lo <= hi && hi <= frames && hi <= rows && hi <= cols
    ensures IsBox(Slice3(v, lo, hi), hi - lo, hi - lo, hi - lo)
    ensures forall i, j, l | 0 <= i < hi - lo && 0 <= j < hi - lo && 0 <= l < hi - lo ::
      Slice3(v, lo, hi)[i][j][l] == v[lo + i][lo + j][lo + l]
  {
    var w := Slice3(v, lo, hi);
    var planes := Slice(v, lo, hi);
    assert planes == v[lo..hi];
    forall i | 0 <= i < hi - lo
      ensures |w[i]| == hi - lo
      ensures forall j | 0 <= j < hi - lo :: w[i][j] == v[lo + i][lo + j][lo..hi]
    {
      assert planes[i] == v[lo + i];
      var rs := Slice(planes[i], lo, hi);
      assert rs == v[lo + i][lo..hi];
    }
  }

  /** An in-bounds crop is a k-cube read from the input at the same offset on
      every axis. */
  lemma CropInBounds(v: Volume, k: nat, frames: nat, rows: nat, cols: nat)
    requires IsBox(v, frames, rows, cols)
    requires 0 <= CropStart(v, k)
    requires CropStart(v, k) + k <= frames && CropStart(v, k) + k <= rows && CropStart(v, k) + k <= cols
    ensures IsBox(Crop(v, k), k, k, k)
    ensures forall i, j, l | 0 <= i < k && 0 <= j < k && 0 <= l < k ::
      Crop(v, k)[i][j][l] == v[CropStart(v, k) + i][CropStart(v, k) + j][CropStart(v, k) + l]
  {
    Slice3InBounds(v, CropStart(v, k), CropStart(v, k) + k, frames, rows, cols);
  }

  /** A crop no larger than the layer count is centred: the layers dropped
      before and after the cube differ by at most one. */
  lemma CropCentred(v: Volume, k: nat)
    requires k <= |v|
    ensures 0 <= CropStart(v, k) && CropStart(v, k) + k <= |v|
    ensures -1 <= (|v| - k - CropStart(v, k)) - CropStart(v, k) <= 1
  {
    assert |v| == 2 * (|v| / 2) + |v| % 2;
    assert k == 2 * (k / 2) + k % 2;
  }

  // ----- apply_convolution -----

  /** A 2-D slice of a volume. */
  type Image = seq<seq<int>>

  predicate SameShape(a: Image, b: Image)
  {
    |a| == |b| && forall r | 0 <= r < |a| :: |a[r]| == |b[r]|
  }

  /** np.zeros_like. */
  function ZerosLike(v: Volume): (z: Volume)
    ensures |z| == |v|
  {
    seq(|v|, f requires 0 <= f < |v| =>
      seq(|v[f]|, r requires 0 <= r < |v[f]| => seq(|v[f][r]|, c => 0)))
  }

  /** Every slice of v replaced by its smoothed version. */
  function Smoothed(v: Volume, smooth: Image -> Image): Volume
  {
    seq(|v|, i requires 0 <= i < |v| => smooth(v[i]))
  }

  /** apply_convolution: new_array starts as zeros and slice i is replaced by
      the smoothed slice i of the input. The 2-D convolution itself is the
      parameter smooth. */
  method ApplyConvolution(v: Volume, smooth: Image -> Image) returns (out: Volume)
    ensures |out| == |v|
    ensures forall i | 0 <= i < |v| :: out[i] == smooth(v[i])
    ensures out == Smoothed(v, smooth)
  {
    out := ZerosLike(v);
    var i := 0;
    while i < |v|
      invariant 0 <= i <= |v| && |out| == |v|
      invariant forall j | 0 <= j < i :: out[j] == smooth(v[j])
    {
      out := out[i := smooth(v[i])];
      i := i + 1;
    }
  }

  /** With a shape-preserving slice operation (convolve2d in "same" mode),
      smoothing a box gives a box of the same shape. */
  lemma SmoothKeepsShape(v: Volume, out: Volume, smooth: Image -> Image, frames: nat, rows: nat, cols: nat)
    requires IsBox(v, frames, rows, cols)
    requires forall m: Image :: SameShape(smooth(m), m)
    requires |out| == |v| && forall i | 0 <= i < |v| :: out[i] == smooth(v[i])
    ensures IsBox(out, frames, rows, cols)
  {
    forall f, r | 0 <= f < |out| && 0 <= r < |out[f]|
      ensures |out[f][r]| == cols
    {
      assert SameShape(smooth(v[f]), v[f]);
    }
  }

  // ----- remove_image_edges -----

  /** (row, col) lies outside the circle of the given radius centred on (radius, radius). */
  predicate Outside(radius: int, row: int, col: int)
  {
    (radius - col) * (radius - col) + (radius - row) * (radius - row) > radius * radius
  }

  /** What remove_image_edges leaves in cell (row, col) that held x. */
  function Masked(radius: int, row: int, col: int, x: int): int
  {
    if Outside(radius, row, col) then Sentinel else x
  }

  /** remove_image_edges on a volume value; the radius is half the number of
      layers, applied on every layer. */
  function RemoveEdges(v: Volume): (w: Volume)
    ensures |w| == |v| && forall f | 0 <= f < |v| :: SameShape(w[f], v[f])
  {
    var radius := |v| / 2;
    seq(|v|, f requires 0 <= f < |v| =>
      seq(|v[f]|, r requires 0 <= r < |v[f]| =>
        seq(|v[f][r]|, c requires 0 <= c < |v[f][r]| => Masked(radius, r, c, v[f][r][c]))))
  }

  /** Exactly the cells outside the circle become the sentinel; the others keep
      their value. */
  lemma RemoveEdgesCells(v: Volume, f: nat, r: nat, c: nat)
    requires f < |v| && r < |v[f]| && c < |v[f][r]|
    ensures Outside(|v| / 2, r, c) ==> RemoveEdges(v)[f][r][c] == Sentinel
    ensures !Outside(|v| / 2, r, c) ==> RemoveEdges(v)[f][r][c] == v[f][r][c]
  {
  }

  /** Removing the edges twice is removing them once. */
  lemma RemoveEdgesIdempotent(v: Volume)
    ensures RemoveEdges(RemoveEdges(v)) == RemoveEdges(v)
  {
    var w := RemoveEdges(v);
    var ww := RemoveEdges(w);
    assert |ww| == |w|;
    forall f | 0 <= f < |w|
      ensures ww[f] == w[f]
    {
      assert |ww[f]| == |w[f]|;
      forall r | 0 <= r < |w[f]|
        ensures ww[f][r] == w[f][r]
      {
        assert |ww[f][r]| == |w[f][r]|;
      }
    }
  }

  /** The contents of a 3-D array as a volume value. */
  function Contents(a: array3<int>): (v: Volume)
    reads a
    ensures IsBox(v, a.Length0, a.Length1, a.Length2)
  {
    seq(a.Length0, f requires 0 <= f < a.Length0 reads a =>
      seq(a.Length1, r requires 0 <= r < a.Length1 reads a =>
        seq(a.Length2, c requires 0 <= c < a.Length2 reads a => a[f, r, c])))
  }

  /** remove_image_edges, in place: a triple loop over layers, rows and
      columns, writing the sentinel outside the circle. */
  method RemoveImageEdges(a: array3<int>)
    modifies a
    ensures forall f, r, c | 0 <= f < a.Length0 && 0 <= r < a.Length1 && 0 <= c < a.Length2 ::
      a[f, r, c] == Masked(a.Length0 / 2, r, c, old(a[f, r, c]))
    ensures Contents(a) == RemoveEdges(old(Contents(a)))
  {
    var radius := a.Length0 / 2;
    for layer := 0 to a.Length0
      invariant forall f, r, c | 0 <= f < a.Length0 && 0 <= r < a.Length1 && 0 <= c < a.Length2 ::
        a[f, r, c] == if f < layer then Masked(radius, r, c, old(a[f, r, c])) else old(a[f, r, c])
    {
      for row := 0 to a.Length1
        invariant forall f, r, c | 0 <= f < a.Length0 && 0 <= r < a.Length1 && 0 <= c < a.Length2 ::
          a[f, r, c] == if f < layer || (f == layer && r < row) then Masked(radius, r, c, old(a[f, r, c])) else old(a[f, r, c])
      {
        for column := 0 to a.Length2
          invariant forall f, r, c | 0 <= f < a.Length0 && 0 <= r < a.Length1 && 0 <= c < a.Length2 ::
            a[f, r, c] ==
              if f < layer || (f == layer && r < row) || (f == layer && r == row && c < column)
              then Masked(radius, r, c, old(a[f, r, c])) else old(a[f, r, c])
        {
          if Outside(radius, row, column) {
            a[layer, row, column] := Sentinel;
          }
        }
      }
    }
    ContentsMasked(a);
  }

  /** The per-cell postcondition of RemoveImageEdges is RemoveEdges on the contents. */
  twostate lemma ContentsMasked(a: array3<int>)
    requires forall f, r, c | 0 <= f < a.Length0 && 0 <= r < a.Length1 && 0 <= c < a.Length2 ::
      a[f, r, c] == Masked(a.Length0 / 2, r, c, old(a[f, r, c]))
    ensures Contents(a) == RemoveEdges(old(Contents(a)))
  {
    var v, w := old(Contents(a)), Contents(a);
    var m := RemoveEdges(v);
    forall f | 0 <= f < |w|
      ensures w[f] == m[f]
    {
      forall r | 0 <= r < |w[f]|
        ensures w[f][r] == m[f][r]
      {
        assert |m[f][r]| == |v[f][r]| == a.Length2;
      }
    }
  }

  // ----- max_pixel / min_pixel -----

  /** `[x for x in xs if x != 10000]`. */
  function Unmasked(xs: seq<int>): (ys: seq<int>)
    ensures forall y | y in ys :: y in xs && y != Sentinel
    ensures forall i | 0 <= i < |xs| && xs[i] != Sentinel :: xs[i] in ys
  {
    if xs == [] then []
    else if xs[0] == Sentinel then Unmasked(xs[1..])
    else [xs[0]] + Unmasked(xs[1..])
  }

  /** Python's max of a non-empty list. */
  function Max(ys: seq<int>): (m: int)
    requires ys != []
    ensures m in ys && forall y | y in ys :: y <= m
  {
    if |ys| == 1 then ys[0]
    else
      var t := Max(ys[1..]);
      assert forall y | y in ys :: y == ys[0] || y in ys[1..];
      if ys[0] >= t then ys[0] else t
  }

  /** Python's min of a non-empty list. */
  function Min(ys: seq<int>): (m: int)
    requires ys != []
    ensures m in ys && forall y | y in ys :: m <= y
  {
    if |ys| == 1 then ys[0]
    else
      var t := Min(ys[1..]);
      assert forall y | y in ys :: y == ys[0] || y in ys[1..];
      if ys[0] <= t then ys[0] else t
  }

  /** max_pixel: the largest value that is not the sentinel; ValueError (max
      of an empty list) when there is none. */
  function MaxPixel(xs: seq<int>): (r: Result<int, DicomError>)
    ensures r.Err? <==> forall i | 0 <= i < |xs| :: xs[i] == Sentinel
    ensures r.Err? ==> r.error == ValueError
    ensures r.Ok? ==> r.value in xs && r.value != Sentinel
    ensures r.Ok? ==> forall i | 0 <= i < |xs| && xs[i] != Sentinel :: xs[i] <= r.value
  {
    var ys := Unmasked(xs);
    if ys == [] then Err(ValueError) else Ok(Max(ys))
  }

  /** min_pixel: the smallest value that is not the sentinel; ValueError when
      there is none. */
  function MinPixel(xs: seq<int>): (r: Result<int, DicomError>)
    ensures r.Err? <==> forall i | 0 <= i < |xs| :: xs[i] == Sentinel
    ensures r.Err? ==> r.error == ValueError
    ensures r.Ok? ==> r.value in xs && r.value != Sentinel
    ensures r.Ok? ==> forall i | 0 <= i < |xs| && xs[i] != Sentinel :: r.value <= xs[i]
  {
    var ys := Unmasked(xs);
    if ys == [] then Err(ValueError) else Ok(Min(ys))
  }

  /** Both reducers succeed or fail together, and min never exceeds max. */
  lemma MinBelowMax(xs: seq<int>)
    ensures MinPixel(xs).Ok? <==> MaxPixel(xs).Ok?
    ensures MinPixel(xs).Ok? ==> MinPixel(xs).value <= MaxPixel(xs).value
  {
  }
}
