# NV21 conversion of camera frames (CamYan `HookEntry`)

This project models the frame-processing core of the `HookEntry` Xposed module. Inside the
`ImageReader.acquireLatestImage` hook, each YUV_420_888 camera frame is handed to
`yuv420ToNV21`, and the result goes to `scaleToJpeg1280x720`.

`yuv420ToNV21` takes the three strided planes of an `android.media.Image` (Y, U, V) and packs
them into one NV21 byte array:

- first, `width * height` luma bytes, copied row by row through the Y row stride;
- then one (V, U) byte pair for every sample of the `(height / 2) x (width / 2)` chroma grid,
  each sample read at `row * rowStride + 2 * col` from its plane.

The conversion returns `null` when a pixel stride is not 1 (Y) or 2 (U, V). It also returns
`null` when any buffer read throws. It never returns an array after a failed read.
`scaleToJpeg1280x720` compresses that array to JPEG, decodes it, scales it to 1280x720 and
compresses it again.

The Dafny modules follow that structure:

- `Optional`: `Option`, with `None` standing for Java's `null`.
- `ByteBuffers`:
  - Java `int` as `int32` and Java `byte` as `byte`;
  - a read-only `ByteBuffer` with the three calls the conversion makes: `position(p)`, bulk
    `get(dst, off, len)` and `get()`;
  - `ReadRun` and `ReadAt`, which combine a `position` with the read that follows it.
- `Nv21Layout`: what the conversion returns, as pure functions. `LumaRows`, `ChromaRow` and
  `ChromaRows` read the planes. `Nv21Of` assembles the array, including the zero tail that a
  new Java array keeps when a dimension is odd.
- `Nv21Properties`: what the layout promises, proved about `Nv21Of`:
  - all-or-nothing failure;
  - luma copied through the row stride;
  - chroma interleaved as (V, U);
  - row padding ignored;
  - a zero tail;
  - swapping U and V swaps every pair.
- `Nv21Convert`: `yuv420ToNV21` as Java runs it: 32-bit `int` arithmetic, a write cursor
  `pos`, the luma loop and the nested chroma loops, each read going through the buffer's
  position. It is proved equal to `Nv21Of`.
- `JpegPipeline`: the stage order of `scaleToJpeg1280x720`, with the Android codecs as
  function-valued fields of a `Codec`. A trace of the calls made shows where the pipeline
  stops and when the bitmaps are recycled.
- `FrameHook`: the branch in the hook that picks YUV_420_888 frames and chains the two
  functions.

Three behaviours of the code worth noting:

- Odd widths and heights are not rejected. The array is still `width * height * 3 / 2` bytes
  long, the writes stay inside it (`Nv21Layout.WritesFitOutput`), and the unwritten tail stays
  zero (`Nv21Properties.UnwrittenTailIsZero`).
- The bitmaps are recycled only on the success path (`JpegPipeline.RecycledOnlyOnSuccess`).
- The boolean returned by the final `Bitmap.compress` is ignored
  (`JpegPipeline.FinalCompressFlagIgnored`).

## Model

| member | source | states |
|---|---|---|
| ByteBuffers.ReadRun | app/src/main/java/com/gaba/eskukap/HookEntry.java:222-223 | `position(p)` then a bulk `get` of `len` bytes succeeds exactly when `0 <= p` and `p + len` is within the limit; the bytes read are the buffer's bytes `p .. p + len` |
| ByteBuffers.ReadAt | app/src/main/java/com/gaba/eskukap/HookEntry.java:233-236 | `position(p)` then `get()` succeeds exactly when `0 <= p < limit`, and yields the byte at `p` |
| Nv21Layout.LumaRows | app/src/main/java/com/gaba/eskukap/HookEntry.java:221-225 | the luma loop over `rows` rows, each read with `position(r * rowStride)` and a bulk `get` of `width` bytes, yields `rows * width` bytes when it completes |
| Nv21Layout.ChromaRow | app/src/main/java/com/gaba/eskukap/HookEntry.java:232-237 | the inner chroma loop over `cols` columns, each reading one V and one U sample, yields `2 * cols` bytes when it completes |
| Nv21Layout.ChromaRows | app/src/main/java/com/gaba/eskukap/HookEntry.java:228-238 | the outer chroma loop over `rows` chroma rows of `cols` pairs yields `2 * (rows * cols)` bytes when it completes |
| Nv21Layout.Nv21Of | app/src/main/java/com/gaba/eskukap/HookEntry.java:193-246 | a returned array is exactly `width * height * 3 / 2` long, and an array comes back only for three planes whose pixel strides are 1, 2 and 2 |
| Nv21Layout.WritesFitOutput | app/src/main/java/com/gaba/eskukap/HookEntry.java:217-238 | the luma and chroma writes, `width * height + 2 * (height / 2) * (width / 2)` bytes, fit in the `width * height * 3 / 2` array for all non-negative dimensions, odd ones included; with both dimensions even they fill it exactly |
| Nv21Properties.LumaRowsSomeIff | app/src/main/java/com/gaba/eskukap/HookEntry.java:221-225 | the luma loop completes exactly when every row `r < height` starts at a non-negative `r * yRowStride` with `width` bytes left from there |
| Nv21Properties.LumaRowsBytes | app/src/main/java/com/gaba/eskukap/HookEntry.java:221-225 | the luma bytes hold plane byte `r * yRowStride + i` at `r * width + i` |
| Nv21Properties.ChromaRowSomeIff | app/src/main/java/com/gaba/eskukap/HookEntry.java:232-237 | a chroma row completes exactly when each of its V and U samples lies inside its plane |
| Nv21Properties.ChromaRowBytes | app/src/main/java/com/gaba/eskukap/HookEntry.java:232-237 | a chroma row holds, for column `c`, the V byte at `vRow + 2c` and then the U byte at `uRow + 2c` |
| Nv21Properties.ChromaRowsSomeIff | app/src/main/java/com/gaba/eskukap/HookEntry.java:228-238 | the chroma loops complete exactly when every sample of the `(height / 2) x (width / 2)` grid lies inside both chroma planes |
| Nv21Properties.ChromaRowsBytes | app/src/main/java/com/gaba/eskukap/HookEntry.java:228-238 | chroma pair (`r`, `c`) sits at `2 * (r * (width / 2) + c)` of the chroma bytes, V first, then U |
| Nv21Properties.LumaRowFailureFailsPlane | app/src/main/java/com/gaba/eskukap/HookEntry.java:222-223 | one luma row outside the Y plane makes the whole luma read fail |
| Nv21Properties.ChromaSampleFailureFailsRow | app/src/main/java/com/gaba/eskukap/HookEntry.java:233-236 | one chroma sample outside its plane makes its row fail |
| Nv21Properties.ChromaRowFailureFailsGrid | app/src/main/java/com/gaba/eskukap/HookEntry.java:229-238 | one failing chroma row makes the whole chroma read fail |
| Nv21Properties.ChromaRowIgnoresPosition | app/src/main/java/com/gaba/eskukap/HookEntry.java:233-234 | every chroma read sets the position first, so where earlier reads left the buffers does not change what a row reads |
| Nv21Properties.Nv21SucceedsIffConvertible | app/src/main/java/com/gaba/eskukap/HookEntry.java:212-245 | all or nothing: an array comes back exactly when there are three planes, the pixel strides are supported and every read is inside its plane; any stride mismatch or out-of-range read gives `null` |
| Nv21Properties.LumaCopiedThroughRowStride | app/src/main/java/com/gaba/eskukap/HookEntry.java:221-225 | for every row `r < height` and `i < width`, output byte `r * width + i` is Y-plane byte `r * yRowStride + i` |
| Nv21Properties.RowPaddingNeverReachesOutput | app/src/main/java/com/gaba/eskukap/HookEntry.java:222-223 | changing the Y plane's bytes outside the first `width` bytes of each row leaves the result unchanged |
| Nv21Properties.ChromaInterleavedVU | app/src/main/java/com/gaba/eskukap/HookEntry.java:228-238 | for `r < height / 2` and `c < width / 2`, with `k = width * height + 2 * (r * (width / 2) + c)`, output byte `k` is V-plane byte `r * vRowStride + 2c` and byte `k + 1` is U-plane byte `r * uRowStride + 2c` |
| Nv21Properties.UnwrittenTailIsZero | app/src/main/java/com/gaba/eskukap/HookEntry.java:217-238 | bytes past the luma and chroma writes keep the zero of a new array |
| Nv21Properties.SwappingChromaPlanesSwapsPairs | app/src/main/java/com/gaba/eskukap/HookEntry.java:233-236 | exchanging the U and V planes changes neither success nor the luma bytes, and swaps the two bytes of every chroma pair |
| Nv21Convert.CopyLumaRows | app/src/main/java/com/gaba/eskukap/HookEntry.java:220-225 | the luma loop succeeds exactly when the luma rows can be read; it then leaves the cursor at `width * height`, with the luma rows before it and nothing after it changed |
| Nv21Convert.InterleaveChromaRow | app/src/main/java/com/gaba/eskukap/HookEntry.java:232-237 | the inner chroma loop succeeds exactly when the row's samples can be read; it then advances the cursor by `2 * (width / 2)`, having written that row's (V, U) pairs and nothing after them |
| Nv21Convert.InterleaveGridRow | app/src/main/java/com/gaba/eskukap/HookEntry.java:229-237 | one pass of the outer chroma loop extends the written chroma rows from `row` to `row + 1`, and a failing read in it makes the whole chroma read fail |
| Nv21Convert.InterleaveChromaRows | app/src/main/java/com/gaba/eskukap/HookEntry.java:227-238 | the chroma loops succeed exactly when the whole grid can be read; the cursor then ends `2 * (height / 2) * (width / 2)` further on, with the interleaved pairs before it and nothing after it changed |
| Nv21Convert.Yuv420ToNv21 | app/src/main/java/com/gaba/eskukap/HookEntry.java:193-246 | the Java conversion returns exactly the layout's array, or `null` when the layout has none; the output array is created exactly when there are three planes with pixel strides 1, 2 and 2, so an unsupported stride gives `null` with no array |
| JpegPipeline.ScaleToJpeg | app/src/main/java/com/gaba/eskukap/HookEntry.java:249-271 | the calls made are always a prefix of the fixed schedule (YUV compression of `Rect(0, 0, w, h)` at quality 90, decode, scale to 1280x720 with filtering, compression at quality 90, recycle source, recycle scaled), and an array comes back exactly when the whole schedule ran; that array is the bytes written by `compress(createScaled(decode(first JPEG), 1280, 720, true), 90)` |
| JpegPipeline.YuvCompressFailureStops | app/src/main/java/com/gaba/eskukap/HookEntry.java:251-253 | when the YUV compression throws or returns false, the result is `null` and nothing is decoded |
| JpegPipeline.DecodeFailureStops | app/src/main/java/com/gaba/eskukap/HookEntry.java:255-256 | when decoding yields no bitmap, the result is `null` and nothing is scaled, re-encoded or recycled |
| JpegPipeline.ScaleSucceedsIffStagesSucceed | app/src/main/java/com/gaba/eskukap/HookEntry.java:250-270 | an array comes back exactly when every stage succeeds on the previous stage's output |
| JpegPipeline.FinalCompressFlagIgnored | app/src/main/java/com/gaba/eskukap/HookEntry.java:259-265 | whatever boolean the final `compress` returns, true or false, the pipeline yields the bytes it wrote |
| JpegPipeline.RecycledOnlyOnSuccess | app/src/main/java/com/gaba/eskukap/HookEntry.java:258-265 | both bitmaps are recycled exactly when an array comes back; on every `null` path neither is |
| FrameHook.HandleFrame | app/src/main/java/com/gaba/eskukap/HookEntry.java:159-180 | no image: nothing is done; a format other than YUV_420_888 (0x23): nothing is done; otherwise the conversion runs, and a `null` from it stops the hook; an array goes to the scaler with the frame's width and height |

## Left out

- Xposed hook registration and the other hooked call sites: host-runtime instrumentation with no algorithmic content. Every `XposedBridge.log` call is left out too, since logging has no effect on the results.
- `AntiDebug`: a stub whose scan always reports nothing.
- The Android codecs:
  - `YuvImage.compressToJpeg`, `BitmapFactory.decodeByteArray`, the filtered `Bitmap.createScaledBitmap` and `Bitmap.compress` are lossy or floating-point library code.
  - They are parameters (the fields of `JpegPipeline.Codec`), so only the stage order, the short-circuits and the returned bytes are modelled.
- `Bitmap.recycle`: only the fact that it is called, and when, is modelled. Memory release is not.
- Nv21Convert.Yuv420ToNv21: does not model Java's 32-bit wrap-around.
  - It requires `ArithmeticFits`: `width * height * 3` and every row start and sample position it computes fit in an `int`.
  - Beyond that range Java's wrapped products could address other bytes or throw `NegativeArraySizeException`. The model does not follow them there.
- Nv21Convert.Yuv420ToNv21: does not promise anything about the plane buffers' positions after the call.
  - The Java code moves the positions of the buffers that `getBuffer()` returns, and the hooked app sees them: Y ends after the last luma row read, U and V one past the last sample read.
  - The model reads through buffer values and discards the final buffers, so this side effect on the app's `Image` is not stated.
- Nv21Convert.Yuv420ToNv21: assumes the U and V planes are distinct buffers. If both were the same object, `uBuffer.get()` would read at the V sample's position plus one; this aliasing is not modelled.
- Nv21Convert.Yuv420ToNv21: requires non-negative width and height (`ValidDimensions`). An `Image` never reports negative ones.
- Allocation failure (`OutOfMemoryError` from `new byte[...]`, caught as `Throwable`) is not modelled: allocation always succeeds here.
- `Image.getPlanes()` on a closed image is not modelled. `ByteBuffer` slices, array offsets, marks and read-only flags are not modelled either. Only the content up to the limit and the position matter to the conversion.
- The output is an immutable sequence that each loop passes on, not a mutable Java array. Each write is a sequence update at the cursor, at the same index the array store uses.
- Planes after the third are ignored, as the code ignores them.
- FrameHook.HandleFrame: the image format is a parameter rather than a field of `Image`. The hook's outer `catch` is not modelled, because both functions it calls already catch everything.
