/** The shared region of the circular buffer, seen as a snapshot of its bytes.
    Layout: the ring area [0, bufferSize - 4) followed by a 4-byte footer that
    holds the start index of the most recently inserted frame.

    Each private helper of CircularBuffer.cs that reads the region is a
    function of a snapshot; each one that writes it is an `Effect`: the outcome
    (a value or the exception thrown) together with the bytes of the region
    afterwards. */
module RingRegion {
  import opened Runtime
  import opened BitConverter
  import opened FrameCodec

  const FooterSize: int := 4

  /** The largest byte array .NET allocates (Array.MaxLength). */
  const MaxArrayLength: int := 0x7fff_ffc7

  /** A region of `bufferSize` bytes, bufferSize being a C# int large enough
      to hold the footer. */
  predicate IsRegion(raw: seq<byte>) { FooterSize <= |raw| <= I32Max }

  /** maxEndIndex: the end of the ring area, where the footer starts. */
  function MaxEnd(raw: seq<byte>): int
    requires IsRegion(raw)
  {
    |raw| - FooterSize
  }

  /** The outcome of a region update and the region's bytes afterwards. An
      exception thrown part-way leaves the bytes already written in place. */
  datatype Effect<T> = Effect(outcome: Result<T>, region: seq<byte>)

  /** `raw` with `piece` copied over it at `pos`. */
  function Overwrite(raw: seq<byte>, pos: int, piece: seq<byte>): (r: seq<byte>)
    requires 0 <= pos && pos + |piece| <= |raw|
    ensures |r| == |raw|
    ensures forall i :: 0 <= i < |raw| ==> r[i] == if pos <= i < pos + |piece| then piece[i - pos] else raw[i]
  {
    raw[..pos] + piece + raw[pos + |piece|..]
  }

  /** MemoryMappedViewAccessor.WriteArray(position, array, offset, count) on a
      view of |raw| bytes: copies array[offset..offset+count) to `position`, and
      throws, writing nothing, when any argument is negative or either range
      does not fit. */
  function WriteArrayEffect(raw: seq<byte>, position: int, src: seq<byte>, offset: int, count: int): (r: Effect<()>)
    ensures |r.region| == |raw|
    ensures r.outcome.Ok? <==> 0 <= position && 0 <= offset && 0 <= count && offset + count <= |src| && position + count <= |raw|
    ensures r.outcome.Err? ==> r.outcome.fault == RangeError && r.region == raw
  {
    if position < 0 || offset < 0 || count < 0 then Effect(Err(RangeError), raw)
    else if offset + count > |src| || position + count > |raw| then Effect(Err(RangeError), raw)
    else Effect(Ok(()), Overwrite(raw, position, src[offset..offset + count]))
  }

  /** putBuffer: writes `putData` at `startIndex`. `overflowLength` is how far
      the data runs past maxEnd; when it is at least maxEnd the method throws
      OverflowException, when it is positive the data is written as two
      pieces, otherwise as one. The second piece is written with the call
      WriteArray(0, putData[beforeLength..], beforeLength, overflowLength),
      whose offset indexes an array that is already sliced. */
  function PutBufferEffect(raw: seq<byte>, putData: seq<byte>, startIndex: int): (r: Effect<()>)
    requires IsRegion(raw) && IsI32(startIndex) && |putData| <= I32Max
    ensures |r.region| == |raw|
  {
    var maxEndIndex := MaxEnd(raw);
    var length := |putData|;
    var overflowLength := Wrap32(Wrap32(startIndex + length) - maxEndIndex);
    if overflowLength >= maxEndIndex then
      Effect(Err(OverflowError), raw)
    else if overflowLength > 0 then
      var beforeLength := Wrap32(length - overflowLength);
      if !(0 <= beforeLength <= length) then
        // putData[..beforeLength] throws before anything is written
        Effect(Err(RangeError), raw)
      else
        var first := WriteArrayEffect(raw, startIndex, putData[..beforeLength], 0, beforeLength);
        if first.outcome.Err? then first
        else WriteArrayEffect(first.region, 0, putData[beforeLength..], beforeLength, overflowLength)
    else
      WriteArrayEffect(raw, startIndex, putData, 0, length)
  }

  /** takeOneFrameFromBuffer: reads the 16-byte header at `startIndex` (split
      in two when it runs past maxEnd), takes the body length from it, and
      returns the whole frame, split in two when it runs past maxEnd. The first
      header piece is sliced as [startIndex .. headerSize - overflowHeaderLength),
      whose end is maxEnd - startIndex. */
  function TakeOneFrameFromBuffer(raw: seq<byte>, startIndex: int): (r: Result<seq<byte>>)
    requires IsRegion(raw) && IsI32(startIndex)
    ensures r.Ok? ==> 0 <= startIndex <= MaxEnd(raw)
  {
    var maxEndIndex := MaxEnd(raw);
    var headerEnd := Wrap32(startIndex + HeaderSize);
    var headerData :-
      if headerEnd > maxEndIndex then
        var overflowHeaderLength := Wrap32(headerEnd - maxEndIndex);
        var first :- Slice(raw, startIndex, Wrap32(HeaderSize - overflowHeaderLength));
        var second :- Slice(raw, 0, overflowHeaderLength);
        Ok(first + second)
      else
        Slice(raw, startIndex, headerEnd);
    var lengthField :- Slice(headerData, 12, 16);
    var length := Wrap32(ToInt32(lengthField) + HeaderSize);
    var overflowLength := Wrap32(Wrap32(startIndex + length) - maxEndIndex);
    if overflowLength >= maxEndIndex then
      Err(OverflowError)
    else if overflowLength > 0 then
      var first :- Slice(raw, startIndex, maxEndIndex);
      var second :- Slice(raw, 0, overflowLength);
      Ok(first + second)
    else
      Slice(raw, startIndex, Wrap32(startIndex + length))
  }

  /** getLatestTickIndex: the footer read as an int32. */
  function GetLatestTickIndex(raw: seq<byte>): (r: int)
    requires IsRegion(raw)
    ensures IsI32(r)
    ensures GetBytes32(r) == raw[|raw| - FooterSize..]
  {
    GetBytes32OfToInt32(raw[|raw| - FooterSize..]);
    ToInt32(raw[|raw| - FooterSize..])
  }

  /** putLatestTickIndex: overwrites the footer with `latestTickIndex`; the
      ring area is untouched and the footer then reads back as that index. */
  function PutLatestTickIndexEffect(raw: seq<byte>, latestTickIndex: int): (r: Effect<()>)
    requires IsRegion(raw) && IsI32(latestTickIndex)
    ensures r.outcome.Ok? && |r.region| == |raw|
    ensures r.region[..MaxEnd(raw)] == raw[..MaxEnd(raw)]
    ensures GetLatestTickIndex(r.region) == latestTickIndex
  {
    var r := WriteArrayEffect(raw, |raw| - FooterSize, GetBytes32(latestTickIndex), 0, FooterSize);
    assert r.region[|raw| - FooterSize..] == GetBytes32(latestTickIndex);
    assert r.region[..MaxEnd(raw)] == raw[..MaxEnd(raw)];
    r
  }

  /** A frame read at `index` and decoded (takeOneFrameFromBuffer followed by
      deserializeFrame, as every reader of the buffer does). */
  function FrameAt(raw: seq<byte>, index: int): (r: Result<Frame>)
    requires IsRegion(raw) && IsI32(index)
    ensures r.Ok? ==> 0 <= index <= MaxEnd(raw)
    ensures r.Ok? ==> IsI64(r.value.tick) && IsI32(r.value.beforeTickIndex) && IsI32(r.value.bodyLength)
  {
    var frameRaw :- TakeOneFrameFromBuffer(raw, index);
    DeserializeFrame(frameRaw)
  }

  /** GetLatestTickOrNull: the tick of the frame the footer names, or None
      when that frame's body length is 0 (the buffer is taken to be empty). */
  function GetLatestTickOrNull(raw: seq<byte>): (r: Result<Option<int>>)
    requires IsRegion(raw)
    ensures r.Err? <==> GetLatestFrameDataOrNull(raw).Err?
    ensures r.Ok? ==> (r.value.None? <==> GetLatestFrameDataOrNull(raw).value.None?)
    ensures r.Ok? && r.value.Some? ==> r.value.value == GetLatestFrameDataOrNull(raw).value.value.tick
  {
    var latestFrame :- FrameAt(raw, GetLatestTickIndex(raw));
    if latestFrame.bodyLength == 0 then Ok(None) else Ok(Some(latestFrame.tick))
  }

  datatype LatestFrame = LatestFrame(frameLength: int, tickIndex: int, tick: int, body: seq<byte>)

  /** getLatestFrameDataOrNull: the frame the footer names, with its length
      (body length + 16, in int32) and start index; None when its body
      length is 0. */
  function GetLatestFrameDataOrNull(raw: seq<byte>): (r: Result<Option<LatestFrame>>)
    requires IsRegion(raw)
    ensures r.Ok? && r.value.Some? ==> IsI32(r.value.value.frameLength) && IsI32(r.value.value.tickIndex)
  {
    var latestTickIndex := GetLatestTickIndex(raw);
    var latestFrame :- FrameAt(raw, latestTickIndex);
    if latestFrame.bodyLength == 0 then Ok(None)
    else Ok(Some(LatestFrame(Wrap32(latestFrame.bodyLength + HeaderSize), latestTickIndex, latestFrame.tick, latestFrame.body)))
  }

  /** Where makeHeaderAndPutBuffer places the next frame: 0 when the buffer
      reads as empty, otherwise one byte past the end of the latest frame
      (never reduced modulo maxEnd). */
  function NextStartIndex(latest: Option<LatestFrame>): (r: int)
    requires latest.Some? ==> IsI32(latest.value.frameLength) && IsI32(latest.value.tickIndex)
    ensures IsI32(r)
  {
    match latest
    case None => 0
    case Some(l) => Wrap32(Wrap32(l.tickIndex + l.frameLength) + 1)
  }

  /** The payloads InsertNewData accepts: the frame built around them must be
      a .NET byte array. */
  predicate IsInsertable(bodyData: seq<byte>) { |bodyData| + HeaderSize <= MaxArrayLength }

  /** makeHeaderAndPutBuffer: builds the frame (tick, startIndex, |body|, body)
      and writes it at the next start index, returning that index. The
      frame's before-index field receives the frame's own startIndex. */
  function MakeHeaderAndPutBufferEffect(raw: seq<byte>, bodyData: seq<byte>, tick: int): (r: Effect<int>)
    requires IsRegion(raw) && IsI64(tick) && IsInsertable(bodyData)
    ensures |r.region| == |raw|
    ensures r.outcome.Ok? ==> IsI32(r.outcome.value)
  {
    match GetLatestFrameDataOrNull(raw)
    case Err(e) => Effect(Err(e), raw)
    case Ok(latestFrame) =>
      var startIndex := NextStartIndex(latestFrame);
      var put := PutBufferEffect(raw, SerializeFrame(tick, startIndex, |bodyData|, bodyData), startIndex);
      Effect(if put.outcome.Ok? then Ok(startIndex) else Err(put.outcome.fault), put.region)
  }

  /** InsertNewData: the frame write, then the footer write. An exception from
      the frame write propagates and the footer is not written. */
  function InsertNewDataEffect(raw: seq<byte>, data: seq<byte>, tick: int): (r: Effect<()>)
    requires IsRegion(raw) && IsI64(tick) && IsInsertable(data)
    ensures |r.region| == |raw|
  {
    var made := MakeHeaderAndPutBufferEffect(raw, data, tick);
    if made.outcome.Err? then Effect(Err(made.outcome.fault), made.region)
    else PutLatestTickIndexEffect(made.region, made.outcome.value)
  }
}
