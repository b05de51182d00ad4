/**
 * `scaleToJpeg1280x720`: NV21 frame -> JPEG at the frame's own size -> decoded bitmap ->
 * bitmap scaled to 1280x720 -> JPEG again. The Android codecs are not part of this model; they
 * are the fields of a `Codec`, and what is modelled is the order in which the stages run, when
 * the pipeline stops, what it returns, and when it releases the two bitmaps.
 */
module JpegPipeline {
  import opened Optional
  import opened ByteBuffers

  /** Width of the scaled frame. */
  const TargetWidth: int := 1280
  /** Height of the scaled frame. */
  const TargetHeight: int := 720
  /** JPEG quality used by both compressions. */
  const JpegQuality: int := 90

  /** `android.graphics.Rect(left, top, right, bottom)`. */
  datatype Rect = Rect(left: int, top: int, right: int, bottom: int)

  /**
   * The Android calls the pipeline makes. `None` from a field means the call threw, or, for
   * `decode`, that it returned `null`: the pipeline treats the two alike.
   *  - `compressYuv(nv21, w, h, rect, quality)`: build a `YuvImage` and `compressToJpeg` it;
   *    the boolean it returns, and the bytes written to the stream.
   *  - `decode(jpeg)`: `BitmapFactory.decodeByteArray` over the whole array.
   *  - `createScaled(bitmap, width, height, filter)`: `Bitmap.createScaledBitmap`.
   *  - `compress(bitmap, quality)`: `Bitmap.compress` as JPEG; the boolean it returns, and the
   *    bytes written to the stream.
   */
  datatype Codec<!Bitmap> = Codec(
    compressYuv: (seq<byte>, int, int, Rect, int) -> Option<(bool, seq<byte>)>,
    decode: seq<byte> -> Option<Bitmap>,
    createScaled: (Bitmap, int, int, bool) -> Option<Bitmap>,
    compress: (Bitmap, int) -> Option<(bool, seq<byte>)>)

  /** One call the pipeline makes, with the arguments that are fixed by the source. */
  datatype Step =
    | CompressYuv(rect: Rect, quality: int)
    | DecodeJpeg
    | CreateScaled(width: int, height: int, filter: bool)
    | CompressBitmap(quality: int)
    | RecycleSource
    | RecycleScaled

  /** What the pipeline returns (`None` for `null`) and the calls it made, in order. */
  datatype Outcome = Outcome(jpeg: Option<seq<byte>>, steps: seq<Step>)

  /** Every call, in the order the source makes them when nothing fails. */
  function FullSchedule(w: int, h: int): seq<Step> {
    [CompressYuv(Rect(0, 0, w, h), JpegQuality), DecodeJpeg, CreateScaled(TargetWidth, TargetHeight, true),
     CompressBitmap(JpegQuality), RecycleSource, RecycleScaled]
  }

  predicate IsRecycle(s: Step) {
    s == RecycleSource || s == RecycleScaled
  }

  /**
   * The pipeline. It stops with `null` when the YUV compression throws or returns false, when
   * decoding yields no bitmap, or when scaling or the final compression throws; the bitmaps are
   * recycled only after the final compression. The boolean of the final compression is not
   * looked at: whatever it wrote is returned.
   */
  function ScaleToJpeg<Bitmap>(codec: Codec<Bitmap>, nv21: seq<byte>, w: int, h: int): (r: Outcome)
    ensures |r.steps| >= 1 && r.steps <= FullSchedule(w, h)
    ensures r.jpeg.Some? <==> r.steps == FullSchedule(w, h)
    ensures r.jpeg.Some? ==>
      YuvJpeg(codec, nv21, w, h).Some? && codec.decode(YuvJpeg(codec, nv21, w, h).value).Some?
      && var src := codec.decode(YuvJpeg(codec, nv21, w, h).value).value;
      codec.createScaled(src, 1280, 720, true).Some?
      && var scaled := codec.createScaled(src, 1280, 720, true).value;
      codec.compress(scaled, 90).Some? && r.jpeg.value == codec.compress(scaled, 90).value.1
  {
    var schedule := FullSchedule(w, h);
    match codec.compressYuv(nv21, w, h, Rect(0, 0, w, h), JpegQuality)
    case None => Outcome(None, schedule[..1])
    case Some((written, jpeg)) =>
      if !written then Outcome(None, schedule[..1])
      else
        match codec.decode(jpeg)
        case None => Outcome(None, schedule[..2])
        case Some(src) =>
          match codec.createScaled(src, TargetWidth, TargetHeight, true)
          case None => Outcome(None, schedule[..3])
          case Some(scaled) =>
            match codec.compress(scaled, JpegQuality)
            case None => Outcome(None, schedule[..4])
            case Some((_, out)) => Outcome(Some(out), schedule)
  }

  /** The bytes the first compression wrote, when it returned true; `None` otherwise. */
  function YuvJpeg<Bitmap>(codec: Codec<Bitmap>, nv21: seq<byte>, w: int, h: int): Option<seq<byte>> {
    match codec.compressYuv(nv21, w, h, Rect(0, 0, w, h), JpegQuality)
    case Some((true, jpeg)) => Some(jpeg)
    case _ => None
  }

  /**
   * The first compression covers the whole frame at quality 90, and a failure there (a throw or
   * a false return) ends the pipeline with `null` before anything is decoded.
   */
  lemma YuvCompressFailureStops<Bitmap>(codec: Codec<Bitmap>, nv21: seq<byte>, w: int, h: int)
    requires YuvJpeg(codec, nv21, w, h).None?
    ensures var r := ScaleToJpeg(codec, nv21, w, h);
      r.jpeg.None? && r.steps == [CompressYuv(Rect(0, 0, w, h), 90)]
  {
  }

  /**
   * When decoding the first compression's bytes yields no bitmap, the pipeline ends with `null`
   * right after the decode, and no bitmap is scaled or recycled.
   */
  lemma DecodeFailureStops<Bitmap>(codec: Codec<Bitmap>, nv21: seq<byte>, w: int, h: int)
    requires YuvJpeg(codec, nv21, w, h).Some? && codec.decode(YuvJpeg(codec, nv21, w, h).value).None?
    ensures var r := ScaleToJpeg(codec, nv21, w, h);
      r.jpeg.None? && |r.steps| == 2 && r.steps[1] == DecodeJpeg
      && forall i :: 0 <= i < |r.steps| ==> !IsRecycle(r.steps[i]) && !r.steps[i].CreateScaled?
  {
  }

  /** The pipeline produces an array exactly when every stage after the first one gets its input. */
  lemma ScaleSucceedsIffStagesSucceed<Bitmap>(codec: Codec<Bitmap>, nv21: seq<byte>, w: int, h: int)
    ensures ScaleToJpeg(codec, nv21, w, h).jpeg.Some? <==>
      YuvJpeg(codec, nv21, w, h).Some?
      && codec.decode(YuvJpeg(codec, nv21, w, h).value).Some?
      && codec.createScaled(codec.decode(YuvJpeg(codec, nv21, w, h).value).value, 1280, 720, true).Some?
      && codec.compress(codec.createScaled(codec.decode(YuvJpeg(codec, nv21, w, h).value).value,
                                           1280, 720, true).value, 90).Some?
  {
  }

  /**
   * The final compression's boolean is ignored: whether it returns true or false, the pipeline
   * returns the bytes it wrote.
   */
  lemma FinalCompressFlagIgnored<Bitmap>(codec: Codec<Bitmap>, nv21: seq<byte>, w: int, h: int,
                                         src: Bitmap, scaled: Bitmap, flag: bool, out: seq<byte>)
    requires YuvJpeg(codec, nv21, w, h).Some?
    requires codec.decode(YuvJpeg(codec, nv21, w, h).value) == Some(src)
    requires codec.createScaled(src, 1280, 720, true) == Some(scaled)
    requires codec.compress(scaled, 90) == Some((flag, out))
    ensures ScaleToJpeg(codec, nv21, w, h).jpeg == Some(out)
  {
  }

  /**
   * Both bitmaps are recycled exactly when the pipeline returns an array: a throw in scaling or
   * in the final compression leaves the decoded bitmap unrecycled.
   */
  lemma {:induction false} RecycledOnlyOnSuccess<Bitmap>(codec: Codec<Bitmap>, nv21: seq<byte>, w: int, h: int)
    ensures var r := ScaleToJpeg(codec, nv21, w, h);
      (r.jpeg.Some? <==> RecycleSource in r.steps && RecycleScaled in r.steps)
      && (r.jpeg.None? ==> forall i :: 0 <= i < |r.steps| ==> !IsRecycle(r.steps[i]))
  {
    var r := ScaleToJpeg(codec, nv21, w, h);
    var schedule := FullSchedule(w, h);
    if r.jpeg.Some? {
      assert r.steps[4] == RecycleSource && r.steps[5] == RecycleScaled;
    } else {
      assert |r.steps| < 6 by {
        assert r.steps != schedule && r.steps <= schedule;
      }
      assert r.steps == schedule[..|r.steps|];
      forall i | 0 <= i < |r.steps|
        ensures !IsRecycle(r.steps[i])
      {
        assert r.steps[i] == schedule[i];
      }
    }
  }
}
