/** Properties of the NV21 layout that `yuv420ToNV21` produces. */
module Nv21Properties {
  import opened Optional
  import opened ByteBuffers
  import opened Nv21Layout

  /** The luma rows are read in full exactly when every row's start and `width` bytes lie in the plane. */
  lemma {:induction false} LumaRowsSomeIff(y: ByteBuffer, width: nat, rowStride: int, rows: nat)
    ensures LumaRows(y, width, rowStride, rows).Some?
        <==> forall r :: 0 <= r < rows ==> LumaRowReadable(y, width, rowStride, r)
  {
    if rows > 0 {
      LumaRowsSomeIff(y, width, rowStride, rows - 1);
      var read := ReadRun(y, (rows - 1) * rowStride, width);
      assert read.Some? <==> LumaRowReadable(y, width, rowStride, rows - 1);
      if LumaRows(y, width, rowStride, rows).Some? {
        forall r | 0 <= r < rows
          ensures LumaRowReadable(y, width, rowStride, r)
        {
        }
      } else if LumaRows(y, width, rowStride, rows - 1).Some? {
        assert !LumaRowReadable(y, width, rowStride, rows - 1);
      }
    }
  }

  /** Byte `i` of luma row `r` lands at `r * width + i`, copied from `r * rowStride + i` in the plane. */
  lemma {:induction false} LumaRowsBytes(y: ByteBuffer, width: nat, rowStride: int, rows: nat)
    requires LumaRows(y, width, rowStride, rows).Some?
    ensures var out := LumaRows(y, width, rowStride, rows).value;
      forall r, i :: 0 <= r < rows && 0 <= i < width ==>
        0 <= RowOffset(width, r, i) < |out| && 0 <= RowOffset(rowStride, r, i) < |y.content|
        && out[RowOffset(width, r, i)] == y.content[RowOffset(rowStride, r, i)]
  {
    if rows > 0 {
      LumaRowsBytes(y, width, rowStride, rows - 1);
      var prefix := LumaRows(y, width, rowStride, rows - 1).value;
      var line := ReadRun(y, (rows - 1) * rowStride, width).value;
      var out := LumaRows(y, width, rowStride, rows).value;
      assert out == prefix + line;
      forall r, i | 0 <= r < rows && 0 <= i < width
        ensures 0 <= RowOffset(width, r, i) < |out| && 0 <= RowOffset(rowStride, r, i) < |y.content|
        ensures out[RowOffset(width, r, i)] == y.content[RowOffset(rowStride, r, i)]
      {
        if r < rows - 1 {
          assert out[RowOffset(width, r, i)] == prefix[RowOffset(width, r, i)];
        } else {
          assert RowOffset(width, r, i) == |prefix| + i;
          assert RowOffset(rowStride, r, i) == (rows - 1) * rowStride + i;
        }
      }
    }
  }

  /** Pair (`r`, `c`) of `out` sits at `2 * (r * cols + c)` and holds the grid's V sample, then its U sample. */
  predicate ChromaPairAt(u: ByteBuffer, v: ByteBuffer, uRowStride: int, vRowStride: int, cols: nat,
                         out: seq<byte>, r: int, c: int)
  {
    SampleReadable(v, vRowStride, r, c) && SampleReadable(u, uRowStride, r, c)
    && 0 <= 2 * RowOffset(cols, r, c) && 2 * RowOffset(cols, r, c) + 1 < |out|
    && out[2 * RowOffset(cols, r, c)] == v.content[SampleOffset(vRowStride, r, c)]
    && out[2 * RowOffset(cols, r, c) + 1] == u.content[SampleOffset(uRowStride, r, c)]
  }

  /** One chroma row is read in full exactly when each of its V and U samples lies in its plane. */
  lemma {:induction false} ChromaRowSomeIff(u: ByteBuffer, v: ByteBuffer, uRow: int, vRow: int, cols: nat)
    ensures ChromaRow(u, v, uRow, vRow, cols).Some?
        <==> forall c :: 0 <= c < cols ==> SampleAt(v, vRow, c) && SampleAt(u, uRow, c)
  {
    if cols > 0 {
      ChromaRowSomeIff(u, v, uRow, vRow, cols - 1);
      var c := cols - 1;
      var vb, ub := ReadAt(v, vRow + 2 * c), ReadAt(u, uRow + 2 * c);
      assert vb.Some? <==> SampleAt(v, vRow, c);
      assert ub.Some? <==> SampleAt(u, uRow, c);
      if ChromaRow(u, v, uRow, vRow, cols).Some? {
        forall c' | 0 <= c' < cols
          ensures SampleAt(v, vRow, c') && SampleAt(u, uRow, c')
        {
        }
      } else if ChromaRow(u, v, uRow, vRow, cols - 1).Some? {
        assert !(SampleAt(v, vRow, c) && SampleAt(u, uRow, c));
      }
    }
  }

  /** Pair `c` of a chroma row is (V, U): the V sample at `vRow + 2c`, then the U sample at `uRow + 2c`. */
  lemma {:induction false} ChromaRowBytes(u: ByteBuffer, v: ByteBuffer, uRow: int, vRow: int, cols: nat)
    requires ChromaRow(u, v, uRow, vRow, cols).Some?
    ensures var out := ChromaRow(u, v, uRow, vRow, cols).value;
      forall c :: 0 <= c < cols ==>
        SampleAt(v, vRow, c) && SampleAt(u, uRow, c) && 2 * c + 1 < |out|
        && out[2 * c] == v.content[vRow + 2 * c] && out[2 * c + 1] == u.content[uRow + 2 * c]
  {
    if cols > 0 {
      ChromaRowBytes(u, v, uRow, vRow, cols - 1);
      var prefix := ChromaRow(u, v, uRow, vRow, cols - 1).value;
      var out := ChromaRow(u, v, uRow, vRow, cols).value;
      forall c | 0 <= c < cols
        ensures SampleAt(v, vRow, c) && SampleAt(u, uRow, c) && 2 * c + 1 < |out|
        ensures out[2 * c] == v.content[vRow + 2 * c] && out[2 * c + 1] == u.content[uRow + 2 * c]
      {
        if c < cols - 1 {
          assert SampleAt(v, vRow, c);
          assert out[2 * c] == prefix[2 * c] && out[2 * c + 1] == prefix[2 * c + 1];
        }
      }
    }
  }

  /** The chroma rows are read in full exactly when every V and U sample of the grid lies in its plane. */
  lemma {:induction false} ChromaRowsSomeIff(u: ByteBuffer, v: ByteBuffer, uRowStride: int, vRowStride: int,
                                             cols: nat, rows: nat)
    ensures ChromaRows(u, v, uRowStride, vRowStride, cols, rows).Some?
        <==> forall r, c :: 0 <= r < rows && 0 <= c < cols ==>
               SampleReadable(v, vRowStride, r, c) && SampleReadable(u, uRowStride, r, c)
  {
    if rows > 0 {
      var r := rows - 1;
      var uRow, vRow := r * uRowStride, r * vRowStride;
      ChromaRowsSomeIff(u, v, uRowStride, vRowStride, cols, r);
      ChromaRowSomeIff(u, v, uRow, vRow, cols);
      var prefix := ChromaRows(u, v, uRowStride, vRowStride, cols, r);
      var line := ChromaRow(u, v, uRow, vRow, cols);
      assert forall c :: SampleReadable(v, vRowStride, r, c) == SampleAt(v, vRow, c);
      assert forall c :: SampleReadable(u, uRowStride, r, c) == SampleAt(u, uRow, c);
      if ChromaRows(u, v, uRowStride, vRowStride, cols, rows).Some? {
        assert prefix.Some? && line.Some?;
        forall r', c | 0 <= r' < rows && 0 <= c < cols
          ensures SampleReadable(v, vRowStride, r', c) && SampleReadable(u, uRowStride, r', c)
        {
          if r' == r {
            assert SampleAt(v, vRow, c) && SampleAt(u, uRow, c);
          }
        }
      } else if prefix.Some? {
        assert line.None?;
        var c :| 0 <= c < cols && !(SampleAt(v, vRow, c) && SampleAt(u, uRow, c));
        assert !(SampleReadable(v, vRowStride, r, c) && SampleReadable(u, uRowStride, r, c));
      } else {
        var r', c :| 0 <= r' < r && 0 <= c < cols
          && !(SampleReadable(v, vRowStride, r', c) && SampleReadable(u, uRowStride, r', c));
      }
    }
  }

  /** Chroma pair (`r`, `c`) sits at `2 * (r * cols + c)` and holds the V, then the U sample of the grid. */
  lemma {:induction false} ChromaRowsBytes(u: ByteBuffer, v: ByteBuffer, uRowStride: int, vRowStride: int,
                                           cols: nat, rows: nat)
    requires ChromaRows(u, v, uRowStride, vRowStride, cols, rows).Some?
    ensures var out := ChromaRows(u, v, uRowStride, vRowStride, cols, rows).value;
      forall r, c :: 0 <= r < rows && 0 <= c < cols ==> ChromaPairAt(u, v, uRowStride, vRowStride, cols, out, r, c)
  {
    if rows > 0 {
      ChromaRowsBytes(u, v, uRowStride, vRowStride, cols, rows - 1);
      var prefix := ChromaRows(u, v, uRowStride, vRowStride, cols, rows - 1).value;
      var line := ChromaRow(u, v, (rows - 1) * uRowStride, (rows - 1) * vRowStride, cols).value;
      var out := ChromaRows(u, v, uRowStride, vRowStride, cols, rows).value;
      assert out == prefix + line;
      forall r, c | 0 <= r < rows - 1 && 0 <= c < cols
        ensures ChromaPairAt(u, v, uRowStride, vRowStride, cols, out, r, c)
      {
        ChromaPairKeptByAppend(u, v, uRowStride, vRowStride, cols, prefix, line, r, c);
      }
      var last := rows - 1;
      forall c | 0 <= c < cols
        ensures ChromaPairAt(u, v, uRowStride, vRowStride, cols, out, last, c)
      {
        ChromaPairOfLastRow(u, v, uRowStride, vRowStride, cols, prefix, line, last, c);
      }
    }
  }

  lemma ChromaPairKeptByAppend(u: ByteBuffer, v: ByteBuffer, uRowStride: int, vRowStride: int, cols: nat,
                               prefix: seq<byte>, line: seq<byte>, r: int, c: int)
    requires ChromaPairAt(u, v, uRowStride, vRowStride, cols, prefix, r, c)
    ensures ChromaPairAt(u, v, uRowStride, vRowStride, cols, prefix + line, r, c)
  {
    var k := 2 * RowOffset(cols, r, c);
    assert (prefix + line)[k] == prefix[k] && (prefix + line)[k + 1] == prefix[k + 1];
  }

  lemma ChromaPairOfLastRow(u: ByteBuffer, v: ByteBuffer, uRowStride: int, vRowStride: int, cols: nat,
                            prefix: seq<byte>, line: seq<byte>, r: nat, c: nat)
    requires |prefix| == 2 * (r * cols) && c < cols
    requires ChromaRow(u, v, r * uRowStride, r * vRowStride, cols) == Some(line)
    ensures ChromaPairAt(u, v, uRowStride, vRowStride, cols, prefix + line, r, c)
  {
    var uRow, vRow := r * uRowStride, r * vRowStride;
    ChromaRowBytes(u, v, uRow, vRow, cols);
    assert SampleAt(v, vRow, c) && SampleAt(u, uRow, c);
    var k := 2 * RowOffset(cols, r, c);
    assert k == |prefix| + 2 * c;
    assert (prefix + line)[k] == line[2 * c] && (prefix + line)[k + 1] == line[2 * c + 1];
  }

  /** Luma rows read from two same-length buffers that agree on every row's first `width` bytes are equal. */
  lemma {:induction false} LumaRowsIgnorePadding(y: ByteBuffer, y': ByteBuffer, width: nat, rowStride: int, rows: nat)
    requires |y'.content| == |y.content|
    requires forall r, i :: 0 <= r < rows && 0 <= i < width && 0 <= RowOffset(rowStride, r, i) < |y.content| ==>
               y'.content[RowOffset(rowStride, r, i)] == y.content[RowOffset(rowStride, r, i)]
    ensures LumaRows(y', width, rowStride, rows) == LumaRows(y, width, rowStride, rows)
  {
    if rows > 0 {
      var r := rows - 1;
      LumaRowsIgnorePadding(y, y', width, rowStride, r);
      var p := r * rowStride;
      var line, line' := ReadRun(y, p, width), ReadRun(y', p, width);
      if line.Some? {
        forall i | 0 <= i < width
          ensures line'.value[i] == line.value[i]
        {
          assert RowOffset(rowStride, r, i) == p + i;
        }
        assert line'.value == line.value;
      }
    }
  }

  /*
   * Properties of the whole conversion.
   */

  /**
   * All or nothing: the conversion yields an array exactly when the image has three planes with
   * supported pixel strides and every luma row and chroma sample it reads lies inside its plane;
   * otherwise it yields `null`, never a partly filled array.
   */
  lemma Nv21SucceedsIffConvertible(image: Image)
    requires ValidDimensions(image)
    ensures Nv21Of(image).Some? <==> Convertible(image)
  {
    if |image.planes| >= 3 {
      var y, u, v := image.planes[0], image.planes[1], image.planes[2];
      var w: nat, h: nat := image.width as int, image.height as int;
      LumaRowsSomeIff(y.buffer, w, y.rowStride as int, h);
      ChromaRowsSomeIff(u.buffer, v.buffer, u.rowStride as int, v.rowStride as int, w / 2, h / 2);
    }
  }

  /**
   * Luma is copied row by row through the row stride: output byte `r * width + i` is plane byte
   * `r * yRowStride + i`, for every row `r < height` and every `i < width`.
   */
  lemma LumaCopiedThroughRowStride(image: Image)
    requires ValidDimensions(image) && Nv21Of(image).Some?
    ensures var out, y := Nv21Of(image).value, image.planes[0];
      var w: nat, h: nat, ys := image.width as int, image.height as int, y.rowStride as int;
      forall r, i :: 0 <= r < h && 0 <= i < w ==>
        0 <= RowOffset(w, r, i) < |out| && 0 <= RowOffset(ys, r, i) < |y.buffer.content|
        && out[RowOffset(w, r, i)] == y.buffer.content[RowOffset(ys, r, i)]
  {
    var out, y := Nv21Of(image).value, image.planes[0];
    var w: nat, h: nat, ys := image.width as int, image.height as int, y.rowStride as int;
    var luma := LumaRows(y.buffer, w, ys, h).value;
    LumaRowsBytes(y.buffer, w, ys, h);
    assert out[..|luma|] == luma;
    forall r, i | 0 <= r < h && 0 <= i < w
      ensures 0 <= RowOffset(w, r, i) < |out| && 0 <= RowOffset(ys, r, i) < |y.buffer.content|
      ensures out[RowOffset(w, r, i)] == y.buffer.content[RowOffset(ys, r, i)]
    {
      assert out[RowOffset(w, r, i)] == out[..|luma|][RowOffset(w, r, i)];
    }
  }

  /**
   * Chroma is interleaved as (V, U): the pair for chroma sample (`r`, `c`) sits at
   * `width * height + 2 * (r * (width / 2) + c)`, its first byte read from the V plane at
   * `r * vRowStride + 2 * c` and its second from the U plane at `r * uRowStride + 2 * c`.
   */
  lemma ChromaInterleavedVU(image: Image)
    requires ValidDimensions(image) && Nv21Of(image).Some?
    ensures var out, u, v := Nv21Of(image).value, image.planes[1], image.planes[2];
      var w: nat, h: nat := image.width as int, image.height as int;
      forall r, c :: 0 <= r < h / 2 && 0 <= c < w / 2 ==>
        0 <= PairIndex(w, h, r, c) && PairIndex(w, h, r, c) + 1 < |out|
        && SampleReadable(v.buffer, v.rowStride as int, r, c) && SampleReadable(u.buffer, u.rowStride as int, r, c)
        && out[PairIndex(w, h, r, c)] == v.buffer.content[SampleOffset(v.rowStride as int, r, c)]
        && out[PairIndex(w, h, r, c) + 1] == u.buffer.content[SampleOffset(u.rowStride as int, r, c)]
  {
    var out, y, u, v := Nv21Of(image).value, image.planes[0], image.planes[1], image.planes[2];
    var w: nat, h: nat := image.width as int, image.height as int;
    var us, vs := u.rowStride as int, v.rowStride as int;
    var luma := LumaRows(y.buffer, w, y.rowStride as int, h).value;
    var chroma := ChromaRows(u.buffer, v.buffer, us, vs, w / 2, h / 2).value;
    ChromaRowsBytes(u.buffer, v.buffer, us, vs, w / 2, h / 2);
    assert out == luma + chroma + Zeros(FrameSize(w, h) - |luma| - |chroma|);
    forall r, c | 0 <= r < h / 2 && 0 <= c < w / 2
      ensures 0 <= PairIndex(w, h, r, c) && PairIndex(w, h, r, c) + 1 < |out|
      ensures SampleReadable(v.buffer, vs, r, c) && SampleReadable(u.buffer, us, r, c)
      ensures out[PairIndex(w, h, r, c)] == v.buffer.content[SampleOffset(vs, r, c)]
      ensures out[PairIndex(w, h, r, c) + 1] == u.buffer.content[SampleOffset(us, r, c)]
    {
      assert ChromaPairAt(u.buffer, v.buffer, us, vs, w / 2, chroma, r, c);
      var k := 2 * RowOffset(w / 2, r, c);
      assert PairIndex(w, h, r, c) == |luma| + k;
      assert out[|luma| + k] == chroma[k] && out[|luma| + k + 1] == chroma[k + 1];
    }
  }

  /**
   * Bytes past the luma and chroma writes keep the zero of a new Java array; they exist only
   * when a dimension is odd, since with both even the writes fill the array.
   */
  lemma UnwrittenTailIsZero(image: Image)
    requires ValidDimensions(image) && Nv21Of(image).Some?
    ensures var out := Nv21Of(image).value;
      var w: nat, h: nat := image.width as int, image.height as int;
      forall k :: w * h + ChromaSize(w, h) <= k < |out| ==> out[k] == 0
  {
    var out, y, u, v := Nv21Of(image).value, image.planes[0], image.planes[1], image.planes[2];
    var w: nat, h: nat := image.width as int, image.height as int;
    var luma := LumaRows(y.buffer, w, y.rowStride as int, h).value;
    var chroma := ChromaRows(u.buffer, v.buffer, u.rowStride as int, v.rowStride as int, w / 2, h / 2).value;
    var tail := Zeros(FrameSize(w, h) - |luma| - |chroma|);
    assert out == luma + chroma + tail;
    assert |luma| + |chroma| == w * h + ChromaSize(w, h);
    forall k | w * h + ChromaSize(w, h) <= k < |out|
      ensures out[k] == 0
    {
      assert out[k] == tail[k - |luma| - |chroma|];
    }
  }

  /** `image` with the U and V planes exchanged. */
  function SwapChromaPlanes(image: Image): (swapped: Image)
    requires |image.planes| >= 3
    ensures swapped.width == image.width && swapped.height == image.height && |swapped.planes| == |image.planes|
    ensures swapped.planes[0] == image.planes[0]
    ensures swapped.planes[1] == image.planes[2] && swapped.planes[2] == image.planes[1]
  {
    image.(planes := [image.planes[0], image.planes[2], image.planes[1]] + image.planes[3..])
  }

  /**
   * Swapping the U and V planes leaves the luma bytes alone and exchanges the two bytes of every
   * chroma pair; it neither makes the conversion fail nor succeed.
   */
  lemma SwappingChromaPlanesSwapsPairs(image: Image)
    requires ValidDimensions(image) && |image.planes| >= 3
    ensures Nv21Of(SwapChromaPlanes(image)).Some? <==> Nv21Of(image).Some?
    ensures Nv21Of(image).Some? ==>
      var out, out' := Nv21Of(image).value, Nv21Of(SwapChromaPlanes(image)).value;
      var w: nat, h: nat := image.width as int, image.height as int;
      |out'| == |out|
      && (forall k :: 0 <= k < w * h ==> k < |out| && out'[k] == out[k])
      && (forall r, c :: 0 <= r < h / 2 && 0 <= c < w / 2 ==>
            0 <= PairIndex(w, h, r, c) && PairIndex(w, h, r, c) + 1 < |out|
            && out'[PairIndex(w, h, r, c)] == out[PairIndex(w, h, r, c) + 1]
            && out'[PairIndex(w, h, r, c) + 1] == out[PairIndex(w, h, r, c)])
  {
    var swapped := SwapChromaPlanes(image);
    Nv21SucceedsIffConvertible(image);
    Nv21SucceedsIffConvertible(swapped);
    var y, u, v := image.planes[0], image.planes[1], image.planes[2];
    var w: nat, h: nat := image.width as int, image.height as int;
    assert PlanesReadable(y, v, u, w, h) <==> PlanesReadable(y, u, v, w, h);
    if Nv21Of(image).Some? {
      var out, out' := Nv21Of(image).value, Nv21Of(swapped).value;
      var luma := LumaRows(y.buffer, w, y.rowStride as int, h).value;
      assert out[..|luma|] == luma && out'[..|luma|] == luma;
      forall k | 0 <= k < w * h
        ensures k < |out| && out'[k] == out[k]
      {
        assert out[k] == out[..|luma|][k] && out'[k] == out'[..|luma|][k];
      }
      ChromaInterleavedVU(image);
      ChromaInterleavedVU(swapped);
    }
  }

  /** `image` with the Y plane's bytes replaced by `content`. */
  function WithLumaBytes(image: Image, content: seq<byte>): (changed: Image)
    requires |image.planes| >= 3
    ensures changed.width == image.width && changed.height == image.height && |changed.planes| == |image.planes|
    ensures changed.planes[0].buffer.content == content
    ensures changed.planes[0].rowStride == image.planes[0].rowStride
    ensures changed.planes[0].pixelStride == image.planes[0].pixelStride
    ensures forall i :: 1 <= i < |image.planes| ==> changed.planes[i] == image.planes[i]
  {
    var y := image.planes[0];
    image.(planes := image.planes[0 := y.(buffer := y.buffer.(content := content))])
  }

  /**
   * Row padding never reaches the output: Y planes of the same length that agree on the first
   * `width` bytes of every row give the same result, whatever the bytes between rows hold.
   */
  lemma RowPaddingNeverReachesOutput(image: Image, content: seq<byte>)
    requires ValidDimensions(image) && |image.planes| >= 3
    requires |content| == |image.planes[0].buffer.content|
    requires var y := image.planes[0].buffer.content;
      var w: nat, h: nat, ys := image.width as int, image.height as int, image.planes[0].rowStride as int;
      forall r, i :: 0 <= r < h && 0 <= i < w && 0 <= RowOffset(ys, r, i) < |y| ==>
        content[RowOffset(ys, r, i)] == y[RowOffset(ys, r, i)]
    ensures Nv21Of(WithLumaBytes(image, content)) == Nv21Of(image)
  {
    var changed := WithLumaBytes(image, content);
    var y, y' := image.planes[0], changed.planes[0];
    var w: nat, h: nat := image.width as int, image.height as int;
    LumaRowsIgnorePadding(y.buffer, y'.buffer, w, y.rowStride as int, h);
    assert changed.planes[1] == image.planes[1] && changed.planes[2] == image.planes[2];
  }

  /** A chroma row depends on the planes' bytes only, not on where their positions were left. */
  lemma {:induction false} ChromaRowIgnoresPosition(u: ByteBuffer, v: ByteBuffer, u': ByteBuffer, v': ByteBuffer,
                                                     uRow: int, vRow: int, cols: nat)
    requires u'.content == u.content && v'.content == v.content
    ensures ChromaRow(u', v', uRow, vRow, cols) == ChromaRow(u, v, uRow, vRow, cols)
  {
    if cols > 0 {
      ChromaRowIgnoresPosition(u, v, u', v', uRow, vRow, cols - 1);
    }
  }

  /** One luma row out of range makes the whole luma read fail. */
  lemma LumaRowFailureFailsPlane(y: ByteBuffer, width: nat, rowStride: int, rows: nat, r: int)
    requires 0 <= r < rows && !LumaRowReadable(y, width, rowStride, r)
    ensures LumaRows(y, width, rowStride, rows).None?
  {
    LumaRowsSomeIff(y, width, rowStride, rows);
  }

  /** One chroma sample out of range makes its chroma row fail. */
  lemma ChromaSampleFailureFailsRow(u: ByteBuffer, v: ByteBuffer, uRow: int, vRow: int, cols: nat, c: int)
    requires 0 <= c < cols && !(SampleAt(v, vRow, c) && SampleAt(u, uRow, c))
    ensures ChromaRow(u, v, uRow, vRow, cols).None?
  {
    ChromaRowSomeIff(u, v, uRow, vRow, cols);
  }

  /** One failing chroma row makes the whole chroma read fail. */
  lemma ChromaRowFailureFailsGrid(u: ByteBuffer, v: ByteBuffer, uRowStride: int, vRowStride: int,
                                  cols: nat, rows: nat, r: int)
    requires 0 <= r < rows && ChromaRow(u, v, r * uRowStride, r * vRowStride, cols).None?
    ensures ChromaRows(u, v, uRowStride, vRowStride, cols, rows).None?
  {
    ChromaRowSomeIff(u, v, r * uRowStride, r * vRowStride, cols);
    var c :| 0 <= c < cols && !(SampleAt(v, r * vRowStride, c) && SampleAt(u, r * uRowStride, c));
    assert !(SampleReadable(v, vRowStride, r, c) && SampleReadable(u, uRowStride, r, c));
    ChromaRowsSomeIff(u, v, uRowStride, vRowStride, cols, rows);
  }

  /** Appending chroma row `r` to the array holding rows `0..r` yields the array holding rows `0..r+1`. */
  lemma ChromaRowsAppendRow(u: ByteBuffer, v: ByteBuffer, uRowStride: int, vRowStride: int, cols: nat, r: nat,
                            prefix: seq<byte>, before: seq<byte>, after: seq<byte>)
    requires ChromaRows(u, v, uRowStride, vRowStride, cols, r).Some?
    requires ChromaRow(u, v, r * uRowStride, r * vRowStride, cols).Some?
    requires before == prefix + ChromaRows(u, v, uRowStride, vRowStride, cols, r).value
    requires after == before + ChromaRow(u, v, r * uRowStride, r * vRowStride, cols).value
    ensures ChromaRows(u, v, uRowStride, vRowStride, cols, r + 1).Some?
    ensures after == prefix + ChromaRows(u, v, uRowStride, vRowStride, cols, r + 1).value
  {
    var done := ChromaRows(u, v, uRowStride, vRowStride, cols, r).value;
    var line := ChromaRow(u, v, r * uRowStride, r * vRowStride, cols).value;
    assert ChromaRows(u, v, uRowStride, vRowStride, cols, r + 1) == Some(done + line);
    assert after == prefix + (done + line);
  }

  /**
   * Writing the V and then the U sample of column `c` at the cursor that follows the first `c`
   * pairs of a chroma row extends the written row to `c + 1` pairs.
   */
  lemma ChromaRowAppendPair(u: ByteBuffer, v: ByteBuffer, uRow: int, vRow: int, c: nat,
                            prefix: seq<byte>, before: seq<byte>, after: seq<byte>, pos: nat)
    requires ChromaRow(u, v, uRow, vRow, c).Some?
    requires ReadAt(v, vRow + 2 * c).Some? && ReadAt(u, uRow + 2 * c).Some?
    requires pos + 2 <= |before| && before[..pos] == prefix + ChromaRow(u, v, uRow, vRow, c).value
    requires after == before[pos := ReadAt(v, vRow + 2 * c).value][pos + 1 := ReadAt(u, uRow + 2 * c).value]
    ensures ChromaRow(u, v, uRow, vRow, c + 1).Some?
    ensures after[..pos + 2] == prefix + ChromaRow(u, v, uRow, vRow, c + 1).value
  {
    var pair := [ReadAt(v, vRow + 2 * c).value, ReadAt(u, uRow + 2 * c).value];
    assert ChromaRow(u, v, uRow, vRow, c + 1) == Some(ChromaRow(u, v, uRow, vRow, c).value + pair);
    assert after[..pos + 2] == before[..pos] + pair;
  }
}
