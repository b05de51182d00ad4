/**
 * The parts of Java that the frame conversion leans on: 32-bit `int`, signed `byte`,
 * and the three `java.nio.ByteBuffer` operations it calls on a plane's buffer.
 */
module ByteBuffers {
  import opened Optional

  /** Java `int`. */
  newtype int32 = x: int | -0x8000_0000 <= x < 0x8000_0000

  /** Java `byte` (signed). */
  type byte = b: int | -128 <= b < 128

  /** True when `x` can be held in a Java `int`. */
  predicate Fits32(x: int) {
    -0x8000_0000 <= x < 0x8000_0000
  }

  /**
   * A read-only buffer: its bytes up to the limit, and the current position.
   * Every read the conversion makes first sets the position, so the position a
   * buffer arrives with never matters.
   */
  datatype ByteBuffer = ByteBuffer(content: seq<byte>, position: nat) {

    function Limit(): nat {
      |content|
    }

    /** `position(p)`: throws `IllegalArgumentException` unless `0 <= p <= limit`. */
    function SetPosition(p: int): (r: Option<ByteBuffer>)
      ensures r.Some? <==> 0 <= p <= Limit()
      ensures r.Some? ==> r.value.content == content && r.value.position == p
    {
      if p < 0 || p > Limit() then None else Some(ByteBuffer(content, p))
    }

    /**
     * Relative bulk `get(dst, offset, len)`: the next `len` bytes, and the buffer advanced
     * past them; throws `BufferUnderflowException` when fewer than `len` remain.
     */
    function GetBytes(len: nat): (r: Option<(seq<byte>, ByteBuffer)>)
      ensures r.Some? <==> position + len <= Limit()
      ensures r.Some? ==> |r.value.0| == len
      ensures r.Some? ==> forall i :: 0 <= i < len ==> r.value.0[i] == content[position + i]
      ensures r.Some? ==> r.value.1.content == content && r.value.1.position == position + len
    {
      if len > Limit() - position then None
      else Some((content[position..position + len], ByteBuffer(content, position + len)))
    }

    /** Relative `get()`: the byte at the position, and the buffer advanced by one; throws at the limit. */
    function Get(): (r: Option<(byte, ByteBuffer)>)
      ensures r.Some? <==> position < Limit()
      ensures r.Some? ==> r.value.0 == content[position]
      ensures r.Some? ==> r.value.1.content == content && r.value.1.position == position + 1
    {
      if position >= Limit() then None
      else Some((content[position], ByteBuffer(content, position + 1)))
    }
  }

  /** `buf.position(p); buf.get(dst, offset, len)`: the `len` bytes at `p`, or `None` if either call throws. */
  function ReadRun(buf: ByteBuffer, p: int, len: nat): (r: Option<seq<byte>>)
    ensures r.Some? <==> 0 <= p && p + len <= |buf.content|
    ensures r.Some? ==> |r.value| == len
    ensures r.Some? ==> forall i :: 0 <= i < len ==> r.value[i] == buf.content[p + i]
  {
    match buf.SetPosition(p)
    case None => None
    case Some(at) =>
      match at.GetBytes(len)
      case None => None
      case Some((bytes, _)) => Some(bytes)
  }

  /** `buf.position(p); buf.get()`: the byte at `p`, or `None` if either call throws. */
  function ReadAt(buf: ByteBuffer, p: int): (r: Option<byte>)
    ensures r.Some? <==> 0 <= p < |buf.content|
    ensures r.Some? ==> r.value == buf.content[p]
  {
    match buf.SetPosition(p)
    case None => None
    case Some(at) =>
      match at.Get()
      case None => None
      case Some((b, _)) => Some(b)
  }
}
