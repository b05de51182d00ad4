/**
 * The frame handling inside the `ImageReader.acquireLatestImage` hook: a YUV_420_888 frame is
 * converted to NV21 and, when that succeeds, handed to the 1280x720 JPEG pipeline. The hook
 * only logs what happens; the outcome records which of its branches was taken.
 */
module FrameHook {
  import opened Optional
  import opened ByteBuffers
  import opened Nv21Layout
  import opened Nv21Convert
  import opened JpegPipeline

  /** `ImageFormat.YUV_420_888`. */
  const Yuv420888: int := 0x23

  /** What the `acquireLatestImage` hook does with a frame. */
  datatype FrameOutcome =
    | NoImage                             // the reader returned no image
    | OtherFormat                         // not YUV_420_888: nothing is done
    | ConversionNull                      // the NV21 conversion returned null
    | Scaled(jpeg: Option<seq<byte>>)     // the scaler's result, null or not

  /**
   * The hook after `acquireLatestImage` returned `image` with format `format`. The frame is
   * converted only when its format is YUV_420_888, and the pipeline gets the converted array
   * with the frame's own width and height.
   */
  method HandleFrame<Bitmap>(codec: Codec<Bitmap>, image: Option<Image>, format: int) returns (r: FrameOutcome)
    requires image.Some? ==> ValidDimensions(image.value) && ArithmeticFits(image.value)
    ensures r == NoImage <==> image.None?
    ensures r == OtherFormat <==> image.Some? && format != Yuv420888
    ensures r == ConversionNull <==> image.Some? && format == Yuv420888 && Nv21Of(image.value).None?
    ensures r.Scaled? ==>
      image.Some? && format == Yuv420888 && Nv21Of(image.value).Some?
      && r.jpeg == ScaleToJpeg(codec, Nv21Of(image.value).value,
                               image.value.width as int, image.value.height as int).jpeg
  {
    if image.None? {
      return NoImage;
    }
    var frame := image.value;
    var w, h := frame.width, frame.height;
    if format != Yuv420888 {
      return OtherFormat;
    }
    var nv21, _ := Yuv420ToNv21(frame);
    if nv21.None? {
      return ConversionNull;
    }
    var scaled := ScaleToJpeg(codec, nv21.value, w as int, h as int);
    return Scaled(scaled.jpeg);
  }
}
