/**
 * What `yuv420ToNV21` computes, as pure functions: a YUV_420_888 camera image (three strided
 * planes Y, U, V) becomes one NV21 byte array — `width*height` luma bytes, then one (V, U)
 * pair per sample of the half-resolution chroma grid, row by row — or `null` (`None`) when the
 * strides are unsupported or any read falls outside a plane.
 */
module Nv21Layout {
  import opened Optional
  import opened ByteBuffers

  /** The only pixel strides the conversion accepts: packed luma, and chroma planes that interleave. */
  const LumaPixelStride: int32 := 1
  const ChromaPixelStride: int32 := 2

  /** `Image.Plane`: its buffer, row stride and pixel stride, as the camera reports them. */
  datatype Plane = Plane(buffer: ByteBuffer, rowStride: int32, pixelStride: int32)

  /** `android.media.Image` of format YUV_420_888: planes 0, 1 and 2 are Y, U and V. */
  datatype Image = Image(width: int32, height: int32, planes: seq<Plane>)

  /** `Image` never reports negative dimensions. */
  predicate ValidDimensions(image: Image) {
    image.width >= 0 && image.height >= 0
  }

  /** Length of the NV21 array, `width * height * 3 / 2`. */
  function FrameSize(w: nat, h: nat): nat {
    w * h * 3 / 2
  }

  /** Bytes the chroma loops write: two per sample of the `(h/2) x (w/2)` chroma grid. */
  function ChromaSize(w: nat, h: nat): nat {
    2 * ((h / 2) * (w / 2))
  }

  predicate SupportedStrides(y: Plane, u: Plane, v: Plane) {
    y.pixelStride == LumaPixelStride && u.pixelStride == ChromaPixelStride && v.pixelStride == ChromaPixelStride
  }

  /** Luma row `row` can be read: its start is a valid position and `width` bytes remain from there. */
  predicate LumaRowReadable(y: ByteBuffer, width: nat, rowStride: int, row: int) {
    0 <= row * rowStride && row * rowStride + width <= |y.content|
  }

  /** Offset of byte `i` of row `row` in a buffer whose rows are `rowStride` apart. */
  function RowOffset(rowStride: int, row: int, i: int): int {
    row * rowStride + i
  }

  /** Offset of chroma sample `col` of row `row` in a plane with pixel stride 2. */
  function SampleOffset(rowStride: int, row: int, col: int): int {
    row * rowStride + 2 * col
  }

  /** Index in the NV21 array of the V byte of chroma pair (`row`, `col`); its U byte follows it. */
  function PairIndex(w: nat, h: nat, row: int, col: int): int {
    w * h + 2 * RowOffset(w / 2, row, col)
  }

  /** Chroma sample `col` of the row starting at `rowStart` can be read. */
  predicate SampleAt(b: ByteBuffer, rowStart: int, col: int) {
    0 <= rowStart + 2 * col < |b.content|
  }

  /** Chroma sample (`row`, `col`) of a plane with pixel stride 2 can be read. */
  predicate SampleReadable(b: ByteBuffer, rowStride: int, row: int, col: int) {
    SampleAt(b, row * rowStride, col)
  }

  /** Every read the conversion makes on the three planes stays inside them. */
  predicate PlanesReadable(y: Plane, u: Plane, v: Plane, w: nat, h: nat) {
    var ys, us, vs := y.rowStride as int, u.rowStride as int, v.rowStride as int;
    (forall r :: 0 <= r < h ==> LumaRowReadable(y.buffer, w, ys, r))
    && (forall r, c :: 0 <= r < h / 2 && 0 <= c < w / 2 ==>
          SampleReadable(v.buffer, vs, r, c) && SampleReadable(u.buffer, us, r, c))
  }

  /** The image converts: three planes, supported pixel strides, and every read inside its plane. */
  predicate Convertible(image: Image)
    requires ValidDimensions(image)
  {
    |image.planes| >= 3
    && SupportedStrides(image.planes[0], image.planes[1], image.planes[2])
    && PlanesReadable(image.planes[0], image.planes[1], image.planes[2], image.width as int, image.height as int)
  }

  function Zeros(n: nat): (z: seq<byte>)
    ensures |z| == n
    ensures forall i :: 0 <= i < n ==> z[i] == 0
  {
    seq(n, _ => 0)
  }

  /** The first `rows` luma rows, `width` bytes each, every row read from `row * rowStride`. */
  function LumaRows(y: ByteBuffer, width: nat, rowStride: int, rows: nat): (r: Option<seq<byte>>)
    ensures r.Some? ==> |r.value| == rows * width
  {
    if rows == 0 then Some([])
    else
      match LumaRows(y, width, rowStride, rows - 1)
      case None => None
      case Some(prefix) =>
        match ReadRun(y, (rows - 1) * rowStride, width)
        case None => None
        case Some(line) => Some(prefix + line)
  }

  /** The (V, U) pairs of the first `cols` samples of one chroma row starting at `uRow` and `vRow`. */
  function ChromaRow(u: ByteBuffer, v: ByteBuffer, uRow: int, vRow: int, cols: nat): (r: Option<seq<byte>>)
    ensures r.Some? ==> |r.value| == 2 * cols
  {
    if cols == 0 then Some([])
    else
      match ChromaRow(u, v, uRow, vRow, cols - 1)
      case None => None
      case Some(prefix) =>
        match ReadAt(v, vRow + 2 * (cols - 1))
        case None => None
        case Some(vb) =>
          match ReadAt(u, uRow + 2 * (cols - 1))
          case None => None
          case Some(ub) => Some(prefix + [vb, ub])
  }

  /** The first `rows` chroma rows of `cols` (V, U) pairs each. */
  function ChromaRows(u: ByteBuffer, v: ByteBuffer, uRowStride: int, vRowStride: int, cols: nat, rows: nat)
    : (r: Option<seq<byte>>)
    ensures r.Some? ==> |r.value| == 2 * (rows * cols)
  {
    if rows == 0 then Some([])
    else
      match ChromaRows(u, v, uRowStride, vRowStride, cols, rows - 1)
      case None => None
      case Some(prefix) =>
        match ChromaRow(u, v, (rows - 1) * uRowStride, (rows - 1) * vRowStride, cols)
        case None => None
        case Some(line) => Some(prefix + line)
  }

  /**
   * The NV21 array `yuv420ToNV21` returns for `image`, or `None` for its `null`. Bytes the loops
   * do not reach (only when a dimension is odd) keep the zero Java gives a new array.
   */
  function Nv21Of(image: Image): (r: Option<seq<byte>>)
    requires ValidDimensions(image)
    ensures r.Some? ==> |r.value| == FrameSize(image.width as int, image.height as int)
    ensures r.Some? ==> |image.planes| >= 3 && SupportedStrides(image.planes[0], image.planes[1], image.planes[2])
  {
    var w: nat := image.width as int;
    var h: nat := image.height as int;
    if |image.planes| < 3 then None
    else
      var y, u, v := image.planes[0], image.planes[1], image.planes[2];
      if !SupportedStrides(y, u, v) then None
      else
        match LumaRows(y.buffer, w, y.rowStride as int, h)
        case None => None
        case Some(luma) =>
          match ChromaRows(u.buffer, v.buffer, u.rowStride as int, v.rowStride as int, w / 2, h / 2)
          case None => None
          case Some(chroma) =>
            WritesFitOutput(w, h);
            Some(luma + chroma + Zeros(FrameSize(w, h) - |luma| - |chroma|))
  }

  /**
   * The luma and chroma writes never pass the end of the `width * height * 3 / 2` array, for
   * any dimensions, odd ones included; with both even they fill it exactly.
   */
  lemma WritesFitOutput(w: nat, h: nat)
    ensures w * h + ChromaSize(w, h) <= FrameSize(w, h)
    ensures w % 2 == 0 && h % 2 == 0 ==> w * h + ChromaSize(w, h) == FrameSize(w, h)
  {
    var a, p := w / 2, w % 2;
    var b, q := h / 2, h % 2;
    assert w * h == 4 * (a * b) + 2 * (a * q) + 2 * (b * p) + p * q by {
      assert w == 2 * a + p;
      assert h == 2 * b + q;
    }
    assert ChromaSize(w, h) == 2 * (a * b);
    assert w * h * 3 == 2 * (w * h + 2 * (a * b) + a * q + b * p) + p * q;
    assert 0 <= p * q <= 1;
  }
}
