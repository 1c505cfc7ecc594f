/** One ring-buffer frame:
    | tick 8 bytes | before tick index 4 bytes | body length 4 bytes | body |
    all integers little-endian. */
module FrameCodec {
  import opened Runtime
  import opened BitConverter

  /** tick (8) + before tick index (4) + body length (4). */
  const HeaderSize: int := 16

  /** The decoded form of a frame; `bodyLength` is the stored header field,
      which need not equal |body|. */
  datatype Frame = Frame(tick: int, beforeTickIndex: int, bodyLength: int, body: seq<byte>)

  /** Decoding a frame: the header fields from the first 16 bytes, the body
      is everything after them. Fewer than 16 bytes make the slicing throw. */
  function DeserializeFrame(raw: seq<byte>): (r: Result<Frame>)
    ensures r.Ok? <==> |raw| >= HeaderSize
    ensures r.Ok? ==> IsI64(r.value.tick) && IsI32(r.value.beforeTickIndex) && IsI32(r.value.bodyLength)
    ensures r.Ok? ==> |r.value.body| == |raw| - HeaderSize
  {
    if |raw| < HeaderSize then Err(RangeError)
    else Ok(Frame(ToInt64(raw[..8]), ToInt32(raw[8..12]), ToInt32(raw[12..16]), raw[16..]))
  }

  /** Encoding a frame: the encoding is 16 + |body| bytes and decodes to
      exactly the fields it was built from. */
  function SerializeFrame(tick: int, beforeTickIndex: int, bodyLength: int, body: seq<byte>): (r: seq<byte>)
    requires IsI64(tick) && IsI32(beforeTickIndex) && IsI32(bodyLength)
    ensures |r| == HeaderSize + |body|
    ensures DeserializeFrame(r) == Ok(Frame(tick, beforeTickIndex, bodyLength, body))
  {
    var r := GetBytes64(tick) + GetBytes32(beforeTickIndex) + GetBytes32(bodyLength) + body;
    assert r[..8] == GetBytes64(tick);
    assert r[8..12] == GetBytes32(beforeTickIndex);
    assert r[12..16] == GetBytes32(bodyLength);
    assert r[16..] == body;
    r
  }

  /** The other direction of the round trip: any string of at least 16 bytes
      is the encoding of the frame it decodes to. */
  lemma DeserializeThenSerialize(raw: seq<byte>)
    requires |raw| >= HeaderSize
    ensures var f := DeserializeFrame(raw).value;
            SerializeFrame(f.tick, f.beforeTickIndex, f.bodyLength, f.body) == raw
  {
    GetBytes64OfToInt64(raw[..8]);
    GetBytes32OfToInt32(raw[8..12]);
    GetBytes32OfToInt32(raw[12..16]);
    assert raw == raw[..8] + raw[8..12] + raw[12..16] + raw[16..];
  }
}
