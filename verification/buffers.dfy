/** The slice of `java.nio.ByteBuffer` the signing-block utilities rely on, and the
    bounds-checked cursor primitives built on it (`sliceFromTo`, `getByteBuffer`,
    `getLengthPrefixedSlice`, `readLengthPrefixedByteArray`).

    A buffer is a value: every call that moves the Java buffer's position or limit returns
    the buffer's new state next to its result. A slice copies the viewed bytes; nothing in
    the modelled code writes to a buffer, so sharing the backing array is unobservable. */
module Buffers {
  import opened Results
  import opened ByteCodec

  datatype BufferState = BufferState(data: seq<byte>, position: nat, limit: nat, order: ByteOrder)

  /** A buffer state obeying `0 <= position <= limit <= capacity`, with an `int` capacity. */
  type ByteBuffer = b: BufferState | b.position <= b.limit <= |b.data| <= INT_MAX
    witness BufferState([], 0, 0, BigEndian)

  /** A value read from a buffer, together with the buffer's state afterwards. */
  datatype Step<+T> = Step(value: T, buffer: ByteBuffer)

  function Capacity(b: ByteBuffer): nat
  {
    |b.data|
  }

  function Remaining(b: ByteBuffer): nat
  {
    b.limit - b.position
  }

  predicate HasRemaining(b: ByteBuffer)
  {
    b.position < b.limit
  }

  /** The bytes between position and limit. */
  function RemainingBytes(b: ByteBuffer): seq<byte>
  {
    b.data[b.position..b.limit]
  }

  /** `ByteBuffer.wrap`/`allocate` followed by `order(order)`. */
  function Wrap(data: seq<byte>, order: ByteOrder): ByteBuffer
    requires |data| <= INT_MAX
  {
    BufferState(data, 0, |data|, order)
  }

  /** `Buffer.position(int)`. */
  function SetPosition(b: ByteBuffer, p: int): Result<ByteBuffer>
  {
    if p < 0 then Err(IllegalArgument(NegativePosition))
    else if p > b.limit then Err(IllegalArgument(PositionBeyondLimit))
    else Ok(b.(position := p))
  }

  /** `Buffer.limit(int)`: a position beyond the new limit is pulled back to it. */
  function SetLimit(b: ByteBuffer, l: int): Result<ByteBuffer>
  {
    if l < 0 || l > |b.data| then Err(IllegalArgument(LimitOutOfRange))
    else Ok(b.(limit := l, position := if b.position > l then l else b.position))
  }

  /** `ByteBuffer.slice()`: a new buffer over the remaining bytes, big-endian by default. */
  function Slice(b: ByteBuffer): ByteBuffer
  {
    BufferState(RemainingBytes(b), 0, Remaining(b), BigEndian)
  }

  function WithOrder(b: ByteBuffer, order: ByteOrder): ByteBuffer
  {
    b.(order := order)
  }

  /** `Buffer.rewind()`. */
  function Rewind(b: ByteBuffer): ByteBuffer
  {
    b.(position := 0)
  }

  /** What `Signature.update(ByteBuffer)` does to its argument: it consumes every
      remaining byte. */
  function Drain(b: ByteBuffer): ByteBuffer
  {
    b.(position := b.limit)
  }

  /** Relative `getInt()`. */
  function GetInt(b: ByteBuffer): Result<Step<Int32>>
  {
    if Remaining(b) < 4 then Err(BufferUnderflow)
    else Ok(Step(DecodeInt(b.data[b.position..b.position + 4], b.order), b.(position := b.position + 4)))
  }

  /** Relative `getLong()`. */
  function GetLong(b: ByteBuffer): Result<Step<Int64>>
  {
    if Remaining(b) < 8 then Err(BufferUnderflow)
    else Ok(Step(DecodeLong(b.data[b.position..b.position + 8], b.order), b.(position := b.position + 8)))
  }

  /** Absolute `getLong(index)`: eight bytes at `index`, which must lie below the limit;
      the position does not move. */
  function GetLongAt(b: ByteBuffer, index: int): (r: Result<Int64>)
    ensures r.Ok? <==> 0 <= index && index + 8 <= b.limit
    ensures r.Ok? ==> r.value == DecodeLong(b.data[index..index + 8], b.order)
  {
    if index < 0 || index + 8 > b.limit then Err(IndexOutOfBounds)
    else Ok(DecodeLong(b.data[index..index + 8], b.order))
  }

  /** Relative bulk `get(byte[n])`. */
  function GetBytes(b: ByteBuffer, n: nat): Result<Step<seq<byte>>>
  {
    if n > Remaining(b) then Err(BufferUnderflow)
    else Ok(Step(b.data[b.position..b.position + n], b.(position := b.position + n)))
  }

  /** The `int` a relative `getInt()` would return, when four bytes remain. */
  function NextInt(b: ByteBuffer): Int32
    requires Remaining(b) >= 4
  {
    DecodeInt(b.data[b.position..b.position + 4], b.order)
  }

  /** `sliceFromTo(source, start, end)`: the bytes `[start, end)` of the source's whole
      content as a fresh buffer in the source's byte order. The source's position and limit
      are moved to carve the slice out and then put back, so the returned source state is
      the one passed in. */
  function SliceFromTo(source: ByteBuffer, start: Int32, end: Int32): (r: Result<Step<ByteBuffer>>)
    ensures r.Ok? <==> 0 <= start <= end <= Capacity(source)
    ensures r.Err? ==> r.error.IllegalArgument?
    ensures r.Ok? ==> r.value.value == Wrap(source.data[start..end], source.order)
    ensures r.Ok? ==> r.value.buffer == source
  {
    if start < 0 then Err(IllegalArgument(BadSliceStart))
    else if end < start then Err(IllegalArgument(SliceEndBeforeStart))
    else if end > Capacity(source) then Err(IllegalArgument(SliceEndBeyondCapacity))
    else
      var originalLimit := source.limit;
      var originalPosition := source.position;
      // none of these position/limit moves can fail once the bounds above hold
      var s0 := SetPosition(source, 0).value;
      var s1 := SetLimit(s0, end).value;
      var s2 := SetPosition(s1, start).value;
      var result := WithOrder(Slice(s2), source.order);
      // the `finally` block
      var t0 := SetPosition(s2, 0).value;
      var t1 := SetLimit(t0, originalLimit).value;
      var t2 := SetPosition(t1, originalPosition).value;
      Ok(Step(result, t2))
  }

  /** `getByteBuffer(source, size)`: the next `size` bytes as a fresh buffer in the
      source's byte order; the source advances past them. The end position is computed in
      `int` arithmetic, so an overflowing sum is caught by the `limit < position` test. */
  function GetByteBuffer(source: ByteBuffer, size: Int32): (r: Result<Step<ByteBuffer>>)
    ensures r.Ok? <==> 0 <= size <= Remaining(source)
    ensures r.Err? && size < 0 ==> r.error.IllegalArgument?
    ensures r.Err? && size >= 0 ==> r.error == BufferUnderflow
    ensures r.Ok? ==> r.value.value == Wrap(RemainingBytes(source)[..size], source.order)
    ensures r.Ok? ==> r.value.buffer == source.(position := source.position + size)
  {
    if size < 0 then Err(IllegalArgument(NegativeSize))
    else
      var originalLimit := source.limit;
      var position := source.position;
      var limit := WrapInt(position + size);
      WrapIntOfNonNegativeSum(position, size);
      if limit < position || limit > originalLimit then Err(BufferUnderflow)
      else
        var s1 := SetLimit(source, limit).value;
        var result := WithOrder(Slice(s1), source.order);
        var s2 := SetPosition(s1, limit).value;
        // the `finally` block
        var s3 := SetLimit(s2, originalLimit).value;
        assert limit == position + size;
        assert result.data == source.data[position..limit];
        assert RemainingBytes(source) == source.data[position..originalLimit];
        assert source.data[position..originalLimit][..size] == source.data[position..limit];
        assert result.data == RemainingBytes(source)[..size];
        Ok(Step(result, s3))
  }

  /** `getLengthPrefixedSlice(source)`: a signed `int` length in the source's byte order,
      then that many bytes as a fresh buffer. */
  function GetLengthPrefixedSlice(source: ByteBuffer): (r: Result<Step<ByteBuffer>>)
    ensures r.Ok? <==> Remaining(source) >= 4 && 0 <= NextInt(source) <= Remaining(source) - 4
    ensures r.Err? && Remaining(source) < 4 ==> r.error == IOError(LengthPrefixTooShort)
    ensures r.Err? && Remaining(source) >= 4 && NextInt(source) < 0 ==> r.error.IllegalArgument?
    ensures r.Err? && Remaining(source) >= 4 && NextInt(source) >= 0 ==> r.error.IOError?
    ensures r.Ok? ==> var len := NextInt(source);
      && r.value.value == Wrap(RemainingBytes(source)[4..4 + len], source.order)
      && r.value.buffer == source.(position := source.position + 4 + len)
  {
    if Remaining(source) < 4 then Err(IOError(LengthPrefixTooShort))
    else
      var Step(len, s1) := GetInt(source).value;
      if len < 0 then Err(IllegalArgument(NegativeLengthPrefix))
      else if len > Remaining(s1) then Err(IOError(FieldLongerThanRemaining))
      else GetByteBuffer(s1, len)
  }

  /** `readLengthPrefixedByteArray(buf)`: a signed `int` length in the buffer's byte order,
      then that many bytes copied out. Unlike `getLengthPrefixedSlice`, a missing length
      field surfaces as the raw buffer underflow. */
  function ReadLengthPrefixedByteArray(buf: ByteBuffer): (r: Result<Step<seq<byte>>>)
    ensures r.Ok? <==> Remaining(buf) >= 4 && 0 <= NextInt(buf) <= Remaining(buf) - 4
    ensures r.Err? && Remaining(buf) < 4 ==> r.error == BufferUnderflow
    ensures r.Err? && Remaining(buf) >= 4 ==> r.error.IOError?
    ensures r.Ok? ==> var len := NextInt(buf);
      && r.value.value == RemainingBytes(buf)[4..4 + len]
      && r.value.buffer == buf.(position := buf.position + 4 + len)
  {
    var Step(len, b1) :- GetInt(buf);
    if len < 0 then Err(IOError(NegativeLength))
    else if len > Remaining(b1) then Err(IOError(FieldLongerThanRemaining))
    else
      SliceOfSlice(buf.data, buf.position, buf.limit, 4, 4 + len);
      GetBytes(b1, len)
  }

  /** A length-prefixed field as the writer lays it out: a 4-byte length, then the bytes. */
  function LengthPrefixed(bytes: seq<byte>, order: ByteOrder): (r: seq<byte>)
    requires |bytes| <= INT_MAX
    ensures |r| == 4 + |bytes|
  {
    EncodeInt(|bytes|, order) + bytes
  }

  /** Reading back a written length-prefixed field yields exactly the written bytes and
      moves the cursor just past it, whichever of the two readers is used. */
  lemma LengthPrefixedRoundTrip(b: ByteBuffer, bytes: seq<byte>)
    requires |bytes| <= INT_MAX
    requires b.position + 4 + |bytes| <= b.limit
    requires b.data[b.position..b.position + 4 + |bytes|] == LengthPrefixed(bytes, b.order)
    ensures GetLengthPrefixedSlice(b)
      == Ok(Step(Wrap(bytes, b.order), b.(position := b.position + 4 + |bytes|)))
    ensures ReadLengthPrefixedByteArray(b)
      == Ok(Step(bytes, b.(position := b.position + 4 + |bytes|)))
  {
    var n := 4 + |bytes|;
    var field := b.data[b.position..b.position + n];
    SliceOfSlice(b.data, b.position, b.position + n, 0, 4);
    SliceOfSlice(b.data, b.position, b.position + n, 4, n);
    assert field[0..4] == EncodeInt(|bytes|, b.order);
    assert NextInt(b) == |bytes|;
    SliceOfSlice(b.data, b.position, b.limit, 4, n);
    assert field[4..n] == bytes;
  }

  /** An `int` written at the cursor is read back, and the cursor moves past it. */
  lemma GetIntOfEncoded(b: ByteBuffer, x: Int32)
    requires b.position + 4 <= b.limit
    requires b.data[b.position..b.position + 4] == EncodeInt(x, b.order)
    ensures GetInt(b) == Ok(Step(x, b.(position := b.position + 4)))
  {
  }

  /** An `int` read at the cursor is laid out as the writer writes it. */
  lemma GetIntLayout(b: ByteBuffer)
    requires GetInt(b).Ok?
    ensures b.position + 4 <= b.limit && GetInt(b).value.buffer == b.(position := b.position + 4)
    ensures b.data[b.position..b.position + 4] == EncodeInt(GetInt(b).value.value, b.order)
  {
    var s := b.data[b.position..b.position + 4];
    DecodeIntInjective(EncodeInt(DecodeInt(s, b.order), b.order), s, b.order);
  }

  /** A length-prefixed byte array read at the cursor is laid out as `LengthPrefixed` writes
      it, and the cursor moves just past it. */
  lemma ReadLengthPrefixedLayout(b: ByteBuffer)
    requires ReadLengthPrefixedByteArray(b).Ok?
    ensures var Step(bytes, after) := ReadLengthPrefixedByteArray(b).value;
      && |bytes| <= INT_MAX && after == b.(position := b.position + 4 + |bytes|) && after.position <= b.limit
      && b.data[b.position..after.position] == LengthPrefixed(bytes, b.order)
  {
    var Step(bytes, after) := ReadLengthPrefixedByteArray(b).value;
    var s := b.data[b.position..b.position + 4];
    DecodeIntInjective(EncodeInt(DecodeInt(s, b.order), b.order), s, b.order);
    SliceOfSlice(b.data, b.position, b.limit, 4, 4 + |bytes|);
    assert b.data[b.position..after.position] == s + b.data[b.position + 4..after.position];
  }

  /** A length-prefixed slice read at the cursor is laid out as `LengthPrefixed` writes it,
      and the cursor moves just past it. */
  lemma GetLengthPrefixedLayout(b: ByteBuffer)
    requires GetLengthPrefixedSlice(b).Ok?
    ensures var Step(slice, after) := GetLengthPrefixedSlice(b).value;
      && slice == Wrap(slice.data, b.order)
      && after == b.(position := b.position + 4 + |slice.data|) && after.position <= b.limit
      && b.data[b.position..after.position] == LengthPrefixed(slice.data, b.order)
  {
    var Step(slice, after) := GetLengthPrefixedSlice(b).value;
    var s := b.data[b.position..b.position + 4];
    DecodeIntInjective(EncodeInt(DecodeInt(s, b.order), b.order), s, b.order);
    SliceOfSlice(b.data, b.position, b.limit, 4, 4 + |slice.data|);
    assert b.data[b.position..after.position] == s + b.data[b.position + 4..after.position];
  }
}
