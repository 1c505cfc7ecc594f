/** SharedMemoryPublisher.PublishAsync: the envelope a message is sent in.
    The serializer and Crc32.Hash are foreign; the serialized message and the
    hash function come in as parameters. */
module Publisher {
  import opened Runtime
  import opened BitConverter

  /** A Crc32.Hash result: 4 bytes. */
  type Hash = h: seq<byte> | |h| == 4 witness [0, 0, 0, 0]

  /** messageAndLengthBin: the message length as a little-endian int32,
      then the message. */
  function MessageAndLength(messageBin: seq<byte>): (r: seq<byte>)
    requires |messageBin| <= I32Max
    ensures |r| == 4 + |messageBin|
    ensures ToInt32(r[..4]) == |messageBin| && r[4..] == messageBin
  {
    var r := GetBytes32(|messageBin|) + messageBin;
    assert r[..4] == GetBytes32(|messageBin|);
    r
  }

  /** sendbody: the hash of messageAndLengthBin, then messageAndLengthBin. */
  function SendBody(messageBin: seq<byte>, crc: seq<byte> -> Hash): (r: seq<byte>)
    requires |messageBin| <= I32Max
    ensures |r| == 8 + |messageBin|
    ensures r[..4] == crc(r[4..])
    ensures ToInt32(r[4..8]) == |messageBin| && r[8..] == messageBin
  {
    var body := MessageAndLength(messageBin);
    var r := crc(body) + body;
    assert r[..4] == crc(body) && r[4..] == body;
    assert r[4..8] == body[..4] && r[8..] == body[4..];
    r
  }

  /** What PublishAsync hands to the shared-memory library: the channel
      named by the serialized key, a node size, and the bytes written. */
  datatype Write = Write(channel: seq<byte>, nodeSize: int, data: seq<byte>)

  /** PublishAsync: the serialized key only names the channel; the bytes
      written are the envelope of the message, in a node of exactly their
      size. */
  function Publish(keyBin: seq<byte>, messageBin: seq<byte>, crc: seq<byte> -> Hash): (w: Write)
    requires |messageBin| <= I32Max
    ensures w.channel == keyBin
    ensures w.data == SendBody(messageBin, crc) && w.nodeSize == |w.data| == 8 + |messageBin|
  {
    var sendbody := SendBody(messageBin, crc);
    Write(keyBin, |sendbody|, sendbody)
  }
}
