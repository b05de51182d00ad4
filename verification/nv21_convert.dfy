/**
 * `yuv420ToNV21` as Java runs it: pixel-stride check, allocation of a zeroed array, a luma loop
 * and a chroma loop driven by a write cursor `pos`, every plane read through the buffer's
 * `position`/`get` calls, and `null` on the first read that throws.
 */
module Nv21Convert {
  import opened Optional
  import opened ByteBuffers
  import opened Nv21Layout
  import Nv21Properties

  /**
   * Every Java `int` the chroma loops compute for a plane with row stride `rowStride` stays in
   * range: the row starts `row * rowStride` and the sample positions `row * rowStride + 2 * col`.
   */
  predicate ChromaOffsetsFit(w: nat, h: nat, rowStride: int) {
    h / 2 == 0
    || (Fits32((h / 2 - 1) * rowStride) && (w / 2 == 0 || Fits32((h / 2 - 1) * rowStride + 2 * (w / 2 - 1))))
  }

  /**
   * Every Java `int` the conversion computes stays in range, so Java's wrapping arithmetic agrees
   * with the unbounded arithmetic of the layout: the array length `width * height * 3`, the luma
   * row starts `row * yRowStride`, and the chroma offsets of both chroma planes.
   */
  predicate ArithmeticFits(image: Image)
    requires ValidDimensions(image)
  {
    var w: nat, h: nat := image.width as int, image.height as int;
    |image.planes| < 3
    || (Fits32(w * h * 3)
        && (h == 0 || Fits32((h - 1) * (image.planes[0].rowStride as int)))
        && ChromaOffsetsFit(w, h, image.planes[1].rowStride as int)
        && ChromaOffsetsFit(w, h, image.planes[2].rowStride as int))
  }

  /** `k * s` lies between `0` and `n * s` when `0 <= k <= n`. */
  lemma ScaledBetween(k: int, n: int, s: int)
    requires 0 <= k <= n
    ensures s >= 0 ==> 0 <= k * s <= n * s
    ensures s < 0 ==> n * s <= k * s <= 0
  {
    assert n * s - k * s == (n - k) * s;
    if s >= 0 {
      assert (n - k) * s >= 0;
      assert k * s >= 0;
    } else {
      assert (n - k) * (-s) >= 0;
      assert k * (-s) >= 0;
    }
  }

  /** Row `row < rows` of a plane starts at an `int` offset when the last row does. */
  lemma RowStartFits(row: int, rows: int, rowStride: int)
    requires 0 <= row < rows && Fits32((rows - 1) * rowStride)
    ensures Fits32(row * rowStride)
  {
    ScaledBetween(row, rows - 1, rowStride);
  }

  /** The chroma position `row * rowStride + 2 * col` is an `int` for every sample of the grid. */
  lemma SamplePositionFits(w: nat, h: nat, rowStride: int, row: int, col: int)
    requires ChromaOffsetsFit(w, h, rowStride) && Fits32(w * h * 3)
    requires 0 <= row < h / 2 && 0 <= col < w / 2
    ensures Fits32(row * rowStride) && Fits32(row * rowStride + 2 * col)
  {
    ScaledBetween(row, h / 2 - 1, rowStride);
    assert 2 * col <= w <= w * h <= w * h * 3 by {
      assert h >= 1;
      ScaledBetween(1, h, w);
    }
  }

  /** The array length and every cursor value up to it are `int`s. */
  lemma SizesFit(w: nat, h: nat)
    requires Fits32(w * h * 3)
    ensures 0 <= w * h <= w * h * 3 && Fits32(w * h)
    ensures Fits32(FrameSize(w, h))
  {
    assert w * h >= 0;
  }

  /** Luma rows end inside the luma part: `(row + 1) * w <= h * w` for `row < h`. */
  lemma LumaRowEnds(row: nat, w: nat, h: nat)
    requires row < h
    ensures row * w + w == (row + 1) * w <= h * w
  {
    ScaledBetween(row + 1, h, w);
  }

  /** Chroma rows end inside the chroma part: `2 * ((row + 1) * cols) <= 2 * (rows * cols)` for `row < rows`. */
  lemma ChromaRowEnds(row: nat, cols: nat, rows: nat)
    requires row < rows
    ensures 2 * (row * cols) + 2 * cols == 2 * ((row + 1) * cols) <= 2 * (rows * cols)
  {
    ScaledBetween(row + 1, rows, cols);
  }

  /** The arguments the chroma loop passes for chroma row `row` are `int`s and stay in the array. */
  lemma ChromaRowCallFits(w: nat, h: nat, us: int, vs: int, row: nat, start: int, cursor: int)
    requires Fits32(w * h * 3) && ChromaOffsetsFit(w, h, us) && ChromaOffsetsFit(w, h, vs)
    requires row < h / 2 && cursor == start + 2 * (row * (w / 2)) && Fits32(start + ChromaSize(w, h))
    requires 0 <= start
    ensures Fits32(row * us) && Fits32(row * vs) && Fits32(2 * (w / 2))
    ensures w / 2 == 0 || (Fits32(row * us + 2 * (w / 2 - 1)) && Fits32(row * vs + 2 * (w / 2 - 1)))
    ensures start <= cursor && cursor + 2 * (w / 2) <= start + ChromaSize(w, h)
    ensures cursor + 2 * (w / 2) == start + 2 * ((row + 1) * (w / 2))
  {
    ChromaRowEnds(row, w / 2, h / 2);
    ScaledBetween(row, h / 2, w / 2);
    RowStartFits(row, h / 2, us);
    RowStartFits(row, h / 2, vs);
    if w / 2 > 0 {
      SamplePositionFits(w, h, us, row, w / 2 - 1);
      SamplePositionFits(w, h, vs, row, w / 2 - 1);
    }
  }

  /**
   * The luma loop: row `row` of the Y plane is read with `position(row * yRowStride)` and a bulk
   * `get` of `width` bytes into the array at the cursor. `ok` is false when a read throws;
   * otherwise the array starts with the luma rows, the cursor ends at `width * height` and
   * nothing past it changes.
   */
  method CopyLumaRows(out: seq<byte>, yBuffer: ByteBuffer, width: int32, height: int32, yRowStride: int32)
    returns (ok: bool, pos: int32, out': seq<byte>, yAfter: ByteBuffer)
    requires width >= 0 && height >= 0
    requires width as int * height as int <= |out| && Fits32(width as int * height as int)
    requires height == 0 || Fits32((height as int - 1) * yRowStride as int)
    ensures |out'| == |out| && yAfter.content == yBuffer.content
    ensures ok <==> LumaRows(yBuffer, width as int, yRowStride as int, height as int).Some?
    ensures ok ==> 0 <= pos as int <= |out| && pos as int == width as int * height as int
                   && out'[..pos] == LumaRows(yBuffer, width as int, yRowStride as int, height as int).value
                   && (forall k :: pos as int <= k < |out| ==> out'[k] == out[k])
  {
    ghost var w: nat, h: nat, ys := width as int, height as int, yRowStride as int;
    ScaledBetween(0, h, w);
    var y := yBuffer;
    out' := out;
    pos := 0;
    var row: int32 := 0;
    assert out'[..pos] == [] == LumaRows(yBuffer, w, ys, 0).value;
    while row < height
      invariant 0 <= row <= height
      invariant 0 <= pos as int <= w * h && pos as int == row as int * w
      invariant |out'| == |out| && y.content == yBuffer.content
      invariant LumaRows(yBuffer, w, ys, row as int).Some?
      invariant out'[..pos] == LumaRows(yBuffer, w, ys, row as int).value
      invariant forall k :: w * h <= k < |out| ==> out'[k] == out[k]
    {
      ghost var r := row as int;
      LumaRowEnds(r, w, h);
      RowStartFits(r, h, ys);
      var at := y.SetPosition((row * yRowStride) as int);
      var got := if at.Some? then at.value.GetBytes(width as int) else None;
      if got.None? {
        Nv21Properties.LumaRowFailureFailsPlane(yBuffer, w, ys, h, r);
        return false, pos, out', y;
      }
      var bytes := got.value.0;
      y := got.value.1;
      assert ReadRun(yBuffer, r * ys, w) == Some(bytes);
      assert LumaRows(yBuffer, w, ys, r + 1) == Some(out'[..pos] + bytes);
      out' := out'[..pos] + bytes + out'[pos + width..];
      assert out'[..pos as int + w] == LumaRows(yBuffer, w, ys, r + 1).value;
      pos := pos + width;
      row := row + 1;
    }
    return true, pos, out', y;
  }

  /**
   * One pass of the inner chroma loop: for `col < cols`, `position` both chroma buffers at
   * `rowStart + col * pixelStride`, then write the V byte and the U byte at the cursor. `ok` is
   * false when a read throws; otherwise the row's (V, U) pairs follow `out[..pos]` and nothing
   * past them changes.
   */
  method InterleaveChromaRow(out: seq<byte>, pos: int32, uBuffer: ByteBuffer, vBuffer: ByteBuffer,
                             uRow: int32, vRow: int32, cols: int32, uPixelStride: int32, vPixelStride: int32)
    returns (ok: bool, pos': int32, out': seq<byte>, uAfter: ByteBuffer, vAfter: ByteBuffer)
    requires uPixelStride == ChromaPixelStride && vPixelStride == ChromaPixelStride
    requires 0 <= pos as int && 0 <= cols as int && pos as int + 2 * cols as int <= |out|
    requires cols == 0 || (Fits32(uRow as int + 2 * (cols as int - 1)) && Fits32(vRow as int + 2 * (cols as int - 1)))
    requires Fits32(2 * cols as int) && Fits32(pos as int + 2 * cols as int)
    ensures |out'| == |out| && uAfter.content == uBuffer.content && vAfter.content == vBuffer.content
    ensures ok <==> ChromaRow(uBuffer, vBuffer, uRow as int, vRow as int, cols as int).Some?
    ensures ok ==> pos' as int == pos as int + 2 * cols as int
                   && out'[..pos'] == out[..pos] + ChromaRow(uBuffer, vBuffer, uRow as int, vRow as int, cols as int).value
                   && (forall k :: pos' as int <= k < |out| ==> out'[k] == out[k])
  {
    ghost var end := pos as int + 2 * cols as int;
    var u, v := uBuffer, vBuffer;
    out' := out;
    pos' := pos;
    var col: int32 := 0;
    while col < cols
      invariant 0 <= col <= cols
      invariant pos' as int == pos as int + 2 * col as int
      invariant |out'| == |out| && u.content == uBuffer.content && v.content == vBuffer.content
      invariant ChromaRow(uBuffer, vBuffer, uRow as int, vRow as int, col as int).Some?
      invariant out'[..pos'] == out[..pos] + ChromaRow(uBuffer, vBuffer, uRow as int, vRow as int, col as int).value
      invariant forall k :: end <= k < |out| ==> out'[k] == out[k]
    {
      var uAt := u.SetPosition((uRow + col * uPixelStride) as int);
      var vAt := v.SetPosition((vRow + col * vPixelStride) as int);
      var vGot := if uAt.Some? && vAt.Some? then vAt.value.Get() else None;
      var uGot := if vGot.Some? then uAt.value.Get() else None;
      if uGot.None? {
        Nv21Properties.ChromaSampleFailureFailsRow(uBuffer, vBuffer, uRow as int, vRow as int, cols as int, col as int);
        return false, pos', out', u, v;
      }
      ghost var c := col as int;
      assert ReadAt(vBuffer, vRow as int + 2 * c) == Some(vGot.value.0);
      assert ReadAt(uBuffer, uRow as int + 2 * c) == Some(uGot.value.0);
      u, v := uGot.value.1, vGot.value.1;
      ghost var before := out';
      out' := out'[pos' := vGot.value.0];
      out' := out'[pos' + 1 := uGot.value.0];
      Nv21Properties.ChromaRowAppendPair(uBuffer, vBuffer, uRow as int, vRow as int, c, out[..pos],
                                         before, out', pos' as int);
      pos' := pos' + 2;
      col := col + 1;
    }
    return true, pos', out', u, v;
  }

  /**
   * One pass of the outer chroma loop: chroma row `row` starts at `row * rowStride` in each
   * chroma plane and its (V, U) pairs go to the cursor, right after the `row` rows already
   * written behind `prefix`. `u` and `v` are the buffers as the previous passes left them; only
   * their positions differ from `uBuffer` and `vBuffer`. A failing read here makes the whole
   * grid fail.
   */
  method InterleaveGridRow(out: seq<byte>, pos: int32, ghost prefix: seq<byte>,
                           ghost uBuffer: ByteBuffer, ghost vBuffer: ByteBuffer,
                           u: ByteBuffer, v: ByteBuffer, width: int32, height: int32,
                           uRowStride: int32, vRowStride: int32, row: int32)
    returns (ok: bool, pos': int32, out': seq<byte>, uAfter: ByteBuffer, vAfter: ByteBuffer)
    requires width >= 0 && height >= 0 && Fits32(width as int * height as int * 3)
    requires ChromaOffsetsFit(width as int, height as int, uRowStride as int)
    requires ChromaOffsetsFit(width as int, height as int, vRowStride as int)
    requires 0 <= row as int < height as int / 2
    requires |prefix| + ChromaSize(width as int, height as int) <= |out|
    requires Fits32(|prefix| + ChromaSize(width as int, height as int))
    requires u.content == uBuffer.content && v.content == vBuffer.content
    requires var done := ChromaRows(uBuffer, vBuffer, uRowStride as int, vRowStride as int,
                                    width as int / 2, row as int);
      done.Some? && pos as int == |prefix| + |done.value|
      && |prefix| <= pos as int <= |prefix| + ChromaSize(width as int, height as int)
      && out[..pos] == prefix + done.value
    ensures |out'| == |out| && uAfter.content == uBuffer.content && vAfter.content == vBuffer.content
    ensures var done := ChromaRows(uBuffer, vBuffer, uRowStride as int, vRowStride as int,
                                   width as int / 2, row as int + 1);
      (!ok ==> ChromaRows(uBuffer, vBuffer, uRowStride as int, vRowStride as int,
                          width as int / 2, height as int / 2).None?)
      && (ok <==> done.Some?)
      && (ok ==> pos' as int == |prefix| + |done.value|
                 && |prefix| <= pos' as int <= |prefix| + ChromaSize(width as int, height as int)
                 && out'[..pos'] == prefix + done.value
                 && (forall k :: pos' as int <= k < |out| ==> out'[k] == out[k]))
  {
    ghost var us, vs, r := uRowStride as int, vRowStride as int, row as int;
    ghost var cols := width as int / 2;
    ChromaRowCallFits(width as int, height as int, us, vs, r, |prefix|, pos as int);
    var uRow := row * uRowStride;
    var vRow := row * vRowStride;
    Nv21Properties.ChromaRowIgnoresPosition(uBuffer, vBuffer, u, v, uRow as int, vRow as int, cols);
    ok, pos', out', uAfter, vAfter := InterleaveChromaRow(out, pos, u, v, uRow, vRow, width / 2,
                                                          ChromaPixelStride, ChromaPixelStride);
    if !ok {
      Nv21Properties.ChromaRowFailureFailsGrid(uBuffer, vBuffer, us, vs, cols, height as int / 2, r);
    } else {
      Nv21Properties.ChromaRowsAppendRow(uBuffer, vBuffer, us, vs, cols, r, prefix, out[..pos], out'[..pos']);
    }
  }

  /**
   * The outer chroma loop over the `height / 2` chroma rows. `ok` is false when a read throws;
   * otherwise the (V, U) pairs of the whole grid follow `out[..pos]` and nothing past them
   * changes.
   */
  method InterleaveChromaRows(out: seq<byte>, pos: int32, uBuffer: ByteBuffer, vBuffer: ByteBuffer,
                              width: int32, height: int32, uRowStride: int32, vRowStride: int32)
    returns (ok: bool, pos': int32, out': seq<byte>)
    requires width >= 0 && height >= 0 && Fits32(width as int * height as int * 3)
    requires ChromaOffsetsFit(width as int, height as int, uRowStride as int)
    requires ChromaOffsetsFit(width as int, height as int, vRowStride as int)
    requires 0 <= pos as int && pos as int + ChromaSize(width as int, height as int) <= |out|
    requires Fits32(pos as int + ChromaSize(width as int, height as int))
    ensures |out'| == |out|
    ensures var grid := ChromaRows(uBuffer, vBuffer, uRowStride as int, vRowStride as int,
                                   width as int / 2, height as int / 2);
      (ok <==> grid.Some?)
      && (ok ==> pos' as int == pos as int + ChromaSize(width as int, height as int)
                 && out'[..pos'] == out[..pos] + grid.value
                 && (forall k :: pos' as int <= k < |out| ==> out'[k] == out[k]))
  {
    ghost var us, vs := uRowStride as int, vRowStride as int;
    ghost var cols: nat, rows: nat := width as int / 2, height as int / 2;
    ghost var end := pos as int + ChromaSize(width as int, height as int);
    ghost var prefix := out[..pos];
    var u, v := uBuffer, vBuffer;
    out' := out;
    pos' := pos;
    var row: int32 := 0;
    assert out'[..pos'] == prefix + ChromaRows(uBuffer, vBuffer, us, vs, cols, 0).value;
    while row < height / 2
      invariant 0 <= row as int <= rows
      invariant |out'| == |out| && u.content == uBuffer.content && v.content == vBuffer.content
      invariant var done := ChromaRows(uBuffer, vBuffer, us, vs, cols, row as int);
        done.Some? && pos' as int == |prefix| + |done.value|
        && |prefix| <= pos' as int <= |prefix| + ChromaSize(width as int, height as int)
        && out'[..pos'] == prefix + done.value
      invariant forall k :: end <= k < |out| ==> out'[k] == out[k]
    {
      var rowOk;
      rowOk, pos', out', u, v := InterleaveGridRow(out', pos', prefix, uBuffer, vBuffer, u, v, width, height,
                                                   uRowStride, vRowStride, row);
      if !rowOk {
        return false, pos', out';
      }
      row := row + 1;
    }
    return true, pos', out';
  }

  /** With both reads succeeding, the layout's array is the luma, the chroma and a zero tail. */
  lemma Nv21Assembled(image: Image, luma: seq<byte>, chroma: seq<byte>)
    requires ValidDimensions(image) && |image.planes| >= 3
    requires SupportedStrides(image.planes[0], image.planes[1], image.planes[2])
    requires var w: nat, h: nat := image.width as int, image.height as int;
      var y, u, v := image.planes[0], image.planes[1], image.planes[2];
      LumaRows(y.buffer, w, y.rowStride as int, h) == Some(luma)
      && ChromaRows(u.buffer, v.buffer, u.rowStride as int, v.rowStride as int, w / 2, h / 2) == Some(chroma)
    ensures var w: nat, h: nat := image.width as int, image.height as int;
      |luma| + |chroma| <= FrameSize(w, h)
      && Nv21Of(image) == Some(luma + chroma + Zeros(FrameSize(w, h) - |luma| - |chroma|))
  {
    WritesFitOutput(image.width as int, image.height as int);
  }

  /**
   * The conversion. `arrayCreated` reports whether the output array was created, which happens
   * exactly when the image has three planes with supported pixel strides; the result is the
   * layout's NV21 array, or `None` for Java's `null`.
   */
  method Yuv420ToNv21(image: Image) returns (nv21: Option<seq<byte>>, arrayCreated: bool)
    requires ValidDimensions(image) && ArithmeticFits(image)
    ensures nv21 == Nv21Of(image)
    ensures arrayCreated <==> |image.planes| >= 3 && SupportedStrides(image.planes[0], image.planes[1], image.planes[2])
    ensures nv21.Some? ==> |nv21.value| == FrameSize(image.width as int, image.height as int)
  {
    if |image.planes| < 3 {
      // `planes[1]` or `planes[2]` throws; the catch turns it into null.
      return None, false;
    }
    var planes := image.planes;
    var width, height := image.width, image.height;
    var yBuffer, uBuffer, vBuffer := planes[0].buffer, planes[1].buffer, planes[2].buffer;
    var yRowStride, yPixelStride := planes[0].rowStride, planes[0].pixelStride;
    var uRowStride, uPixelStride := planes[1].rowStride, planes[1].pixelStride;
    var vRowStride, vPixelStride := planes[2].rowStride, planes[2].pixelStride;

    if yPixelStride != 1 || uPixelStride != 2 || vPixelStride != 2 {
      return None, false;
    }

    ghost var w: nat, h: nat := width as int, height as int;
    SizesFit(w, h);
    WritesFitOutput(w, h);
    // A new Java array is all zeros.
    var out := Zeros((width * height * 3 / 2) as int);
    arrayCreated := true;
    ghost var zeros := out;

    // Y
    var ok, pos, yAfter;
    ok, pos, out, yAfter := CopyLumaRows(out, yBuffer, width, height, yRowStride);
    if !ok {
      return None, arrayCreated;
    }
    ghost var luma, afterLuma := out[..pos], out;

    // VU
    ok, pos, out := InterleaveChromaRows(out, pos, uBuffer, vBuffer, width, height, uRowStride, vRowStride);
    if !ok {
      return None, arrayCreated;
    }
    ghost var chroma := ChromaRows(uBuffer, vBuffer, uRowStride as int, vRowStride as int, w / 2, h / 2).value;
    forall k | pos as int <= k < |out|
      ensures out[k] == 0
    {
      assert out[k] == afterLuma[k] == zeros[k];
    }
    assert out[pos..] == Zeros(FrameSize(w, h) - |luma| - |chroma|);
    assert out == luma + chroma + out[pos..] by {
      assert out == out[..pos] + out[pos..];
    }
    Nv21Assembled(image, luma, chroma);
    return Some(out), arrayCreated;
  }
}
