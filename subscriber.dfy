/** SharedMemorySubscriber: checking and opening the envelope read from the
    shared-memory node, and one pass of the polling loop of
    subscribeAsyncBase. The hash function and the deserializer are foreign
    and come in as parameters. */
module Subscriber {
  import opened Runtime
  import opened BitConverter
  import opened Publisher

  /** checkHash: the first 4 bytes against the hash of the rest. Taking the
      first 4 bytes (getHash) throws on a shorter buffer. */
  function CheckHash(raw: seq<byte>, crc: seq<byte> -> Hash): (r: Result<bool>)
    ensures r.Ok? <==> |raw| >= 4
    ensures r.Ok? ==> (r.value <==> raw[..4] == crc(raw[4..]))
  {
    var rawDataHeaderHash :- Slice(raw, 0, 4);
    Ok(rawDataHeaderHash == crc(raw[4..]))
  }

  /** The int32 length field read by tryDeserialize; the buffer must hold
      at least 8 bytes. */
  function LengthField(raw: seq<byte>): int
    requires |raw| >= 8
  {
    ToInt32(raw[4..8])
  }

  /** tryDeserialize as written: a failed check gives no message (the
      deserializer is not called); otherwise the length field L is read and
      the deserializer gets raw[8..L], which throws unless 8 <= L <= |raw|. */
  function TryDeserialize<M>(raw: seq<byte>, crc: seq<byte> -> Hash, deser: seq<byte> -> M): (r: Result<Option<M>>)
    ensures |raw| >= 4 && raw[..4] != crc(raw[4..]) ==> r == Ok(None)
    ensures r.Err? <==>
              |raw| < 4 ||
              (raw[..4] == crc(raw[4..]) && !(|raw| >= 8 && 8 <= LengthField(raw) <= |raw|))
    ensures r.Err? ==> r.fault == RangeError
    ensures r.Ok? && r.value.Some? ==>
              |raw| >= 8 && 8 <= LengthField(raw) <= |raw| && r.value.value == deser(raw[8..LengthField(raw)])
    ensures |raw| >= 8 && raw[..4] == crc(raw[4..]) && 8 <= LengthField(raw) <= |raw| ==>
              r == Ok(Some(deser(raw[8..LengthField(raw)])))
  {
    var hashOk :- CheckHash(raw, crc);
    if !hashOk then Ok(None)
    else
      var lengthField :- Slice(raw, 4, 8);
      var length := ToInt32(lengthField);
      var messageBin :- Slice(raw, 8, length);
      Ok(Some(deser(messageBin)))
  }

  /** tryDeserialize with the message sliced as raw[8..8 + L], the L bytes
      after the length field (8 + L in unchecked int32; a span holds at most
      I32Max bytes). */
  function TryDeserializeIntended<M>(raw: seq<byte>, crc: seq<byte> -> Hash, deser: seq<byte> -> M): (r: Result<Option<M>>)
    requires |raw| <= I32Max
    ensures |raw| >= 4 && raw[..4] != crc(raw[4..]) ==> r == Ok(None)
    ensures r.Err? <==>
              |raw| < 4 ||
              (raw[..4] == crc(raw[4..]) && !(|raw| >= 8 && 0 <= LengthField(raw) <= |raw| - 8))
    ensures r.Ok? && r.value.Some? ==>
              |raw| >= 8 && 0 <= LengthField(raw) <= |raw| - 8
              && r.value.value == deser(raw[8..8 + LengthField(raw)])
    ensures |raw| >= 8 && raw[..4] == crc(raw[4..]) && 0 <= LengthField(raw) <= |raw| - 8 ==>
              r == Ok(Some(deser(raw[8..8 + LengthField(raw)])))
  {
    var hashOk :- CheckHash(raw, crc);
    if !hashOk then Ok(None)
    else
      var lengthField :- Slice(raw, 4, 8);
      var length := ToInt32(lengthField);
      var messageEnd := Wrap32(8 + length);
      assert messageEnd == if 8 + length > I32Max then 8 + length - TwoTo32 else 8 + length;
      assert 8 <= messageEnd <= |raw| <==> 0 <= length <= |raw| - 8;
      var messageBin :- Slice(raw, 8, messageEnd);
      Ok(Some(deser(messageBin)))
  }

  /** Every envelope the publisher builds passes checkHash. */
  lemma PublishedEnvelopePassesCheck(messageBin: seq<byte>, crc: seq<byte> -> Hash)
    requires |messageBin| <= I32Max
    ensures CheckHash(SendBody(messageBin, crc), crc) == Ok(true)
  {
    var raw := SendBody(messageBin, crc);
    assert raw[..4] == crc(raw[4..]);
  }

  /** As written, the subscriber opening a published envelope of exactly its
      size throws for a message shorter than 8 bytes and otherwise
      deserializes the message less its last 8 bytes. */
  lemma AsWrittenEnvelopeDropsTail<M>(messageBin: seq<byte>, crc: seq<byte> -> Hash, deser: seq<byte> -> M)
    requires |messageBin| <= I32Max - 8
    ensures TryDeserialize(SendBody(messageBin, crc), crc, deser)
              == if |messageBin| < 8 then Err(RangeError) else Ok(Some(deser(messageBin[..|messageBin| - 8])))
  {
    var raw := SendBody(messageBin, crc);
    PublishedEnvelopePassesCheck(messageBin, crc);
    if |messageBin| >= 8 {
      assert raw[8..|messageBin|] == raw[8..][..|messageBin| - 8];
    }
  }

  /** A concrete case: a 3-byte message published and read back makes the
      subscriber throw instead of delivering it. */
  lemma AsWrittenShortMessageThrows<M>(crc: seq<byte> -> Hash, deser: seq<byte> -> M)
    ensures TryDeserialize(SendBody([1, 2, 3], crc), crc, deser) == Err(RangeError)
  {
    AsWrittenEnvelopeDropsTail([1, 2, 3], crc, deser);
  }

  /** With the message sliced as raw[8..8 + L], every published envelope
      read back whole delivers the deserialized message; when the
      deserializer inverts the serializer, the original value. */
  lemma EnvelopeRoundTrip<T>(value: T, ser: T -> seq<byte>, deser: seq<byte> -> T, crc: seq<byte> -> Hash)
    requires |ser(value)| <= I32Max - 8
    requires deser(ser(value)) == value
    ensures TryDeserializeIntended(SendBody(ser(value), crc), crc, deser) == Ok(Some(value))
  {
    var messageBin := ser(value);
    var raw := SendBody(messageBin, crc);
    PublishedEnvelopePassesCheck(messageBin, crc);
    assert raw[8..8 + |messageBin|] == messageBin;
  }

  /** The state subscribeAsyncBase keeps across passes of its loop: the
      buffer the node is read into, the hash seen on the previous pass, and
      the messages passed to the handler so far. */
  class Subscription<M> {
    const buffer: array<byte>
    var latestHash: array<byte>
    var handled: seq<M>

    /** `new byte[theClient.NodeBufferSize]` and `new byte[4]`. */
    constructor (nodeBufferSize: nat)
      ensures fresh(buffer) && buffer.Length == nodeBufferSize
      ensures fresh(latestHash) && latestHash.Length == 4
      ensures handled == []
    {
      buffer := new byte[nodeBufferSize];
      latestHash := new byte[4];
      handled := [];
    }

    /** theClient.Read: the bytes of the node the library hands over
        (`incoming`, empty on a timeout) are copied to the front of the
        buffer; the rest of the buffer keeps its old bytes. */
    method Read(incoming: seq<byte>)
      requires |incoming| <= buffer.Length
      modifies buffer
      ensures buffer[..] == incoming + old(buffer[..])[|incoming|..]
    {
      var i := 0;
      while i < |incoming|
        invariant 0 <= i <= |incoming|
        invariant forall k :: 0 <= k < i ==> buffer[k] == incoming[k]
        invariant forall k :: i <= k < buffer.Length ==> buffer[k] == old(buffer[k])
      {
        buffer[i] := incoming[i];
        i := i + 1;
      }
    }

    /** getHash: a new array holding the first 4 bytes of the buffer. */
    method GetHash() returns (h: Result<array<byte>>)
      ensures h.Ok? <==> buffer.Length >= 4
      ensures h.Err? ==> h.fault == RangeError
      ensures h.Ok? ==> fresh(h.value) && h.value[..] == buffer[..4]
    {
      if buffer.Length < 4 {
        return Err(RangeError);
      }
      var a := new byte[4];
      a[0], a[1], a[2], a[3] := buffer[0], buffer[1], buffer[2], buffer[3];
      assert a[..] == buffer[..4];
      h := Ok(a);
    }

    /** One pass of the loop: read the node, take the hash, and when it is
        not the previous hash object (never, getHash returning a new array
        each time) try to open the envelope, handing the message to the
        handler when there is one. latestHash is replaced whatever happens
        after the hash was taken; an exception ends the loop. */
    method PollOnce(incoming: seq<byte>, crc: seq<byte> -> Hash, deser: seq<byte> -> M) returns (r: Result<()>)
      requires |incoming| <= buffer.Length
      modifies this, buffer
      ensures buffer[..] == incoming + old(buffer[..])[|incoming|..]
      ensures buffer.Length < 4 ==>
                r == Err(RangeError) && latestHash == old(latestHash) && handled == old(handled)
      ensures buffer.Length >= 4 ==>
                var outcome := TryDeserialize(buffer[..], crc, deser);
                && fresh(latestHash) && latestHash[..] == buffer[..4]
                && r == (if outcome.Err? then Err(outcome.fault) else Ok(()))
                && handled == old(handled) + (if outcome.Ok? && outcome.value.Some? then [outcome.value.value] else [])
    {
      Read(incoming);
      var currentHash := GetHash();
      if currentHash.Err? {
        return Err(currentHash.fault);
      }
      r := Ok(());
      if currentHash.value != latestHash {
        var outcome := TryDeserialize(buffer[..], crc, deser);
        if outcome.Err? {
          r := Err(outcome.fault);
        } else if outcome.value.Some? {
          handled := handled + [outcome.value.value];
        }
      }
      latestHash := currentHash.value;
    }
  }
}
