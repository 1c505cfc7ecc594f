/** What the circular buffer promises, and where it falls short, stated over
    snapshots of the region. */
module RingProperties {
  import opened Runtime
  import opened BitConverter
  import opened FrameCodec
  import opened RingRegion
  import opened RingWalk

  // ---------------------------------------------------------------- putBuffer

  /** putBuffer throws OverflowException exactly when the data would run
      maxEnd or more bytes past maxEnd, and then writes nothing. */
  lemma PutBufferOverflowIff(raw: seq<byte>, putData: seq<byte>, startIndex: int)
    requires IsRegion(raw) && IsI32(startIndex) && |putData| <= I32Max
    requires IsI32(startIndex + |putData| - MaxEnd(raw))
    ensures var r := PutBufferEffect(raw, putData, startIndex);
            (r.outcome == Err(OverflowError) <==> startIndex + |putData| - MaxEnd(raw) >= MaxEnd(raw))
            && (r.outcome == Err(OverflowError) ==> r.region == raw)
  {
    Wrap32Sub(startIndex + |putData|, MaxEnd(raw));
  }

  /** A write that ends at or before maxEnd succeeds, puts the data at
      [startIndex, startIndex + |putData|) and leaves every other byte,
      the footer included, as it was. (With an empty ring area, maxEnd == 0,
      even an empty write throws.) */
  lemma PutBufferContiguous(raw: seq<byte>, putData: seq<byte>, startIndex: int)
    requires IsRegion(raw) && 0 <= startIndex && startIndex + |putData| <= MaxEnd(raw) && MaxEnd(raw) > 0
    ensures var r := PutBufferEffect(raw, putData, startIndex);
            && r.outcome.Ok?
            && r.region[startIndex..startIndex + |putData|] == putData
            && (forall i :: 0 <= i < |raw| && !(startIndex <= i < startIndex + |putData|) ==> r.region[i] == raw[i])
            && r.region == Overwrite(raw, startIndex, putData)
  {
    var r := PutBufferEffect(raw, putData, startIndex);
    Wrap32Sub(startIndex + |putData|, MaxEnd(raw));
    assert putData[0..|putData|] == putData;
    assert r.region == Overwrite(raw, startIndex, putData);
  }

  /** A write that starts inside the ring and runs past maxEnd writes its
      first piece [startIndex, maxEnd) and then throws: the second WriteArray
      asks for beforeLength + overflowLength bytes of an array holding only
      overflowLength. */
  lemma PutBufferWrapFault(raw: seq<byte>, putData: seq<byte>, startIndex: int)
    requires IsRegion(raw) && 0 <= startIndex < MaxEnd(raw) && |putData| <= I32Max
    requires MaxEnd(raw) < startIndex + |putData| < 2 * MaxEnd(raw)
    ensures var r := PutBufferEffect(raw, putData, startIndex);
            && r.outcome == Err(RangeError)
            && r.region == Overwrite(raw, startIndex, putData[..MaxEnd(raw) - startIndex])
  {
    Wrap32Sub(startIndex + |putData|, MaxEnd(raw));
    var beforeLength := MaxEnd(raw) - startIndex;
    assert putData[..beforeLength][0..beforeLength] == putData[..beforeLength];
  }

  /** The one wrapping write that succeeds: from startIndex == maxEnd the first
      piece is empty and the whole data lands at [0, |putData|). */
  lemma PutBufferFromMaxEnd(raw: seq<byte>, putData: seq<byte>)
    requires IsRegion(raw) && 0 < |putData| < MaxEnd(raw)
    ensures PutBufferEffect(raw, putData, MaxEnd(raw)) == Effect(Ok(()), Overwrite(raw, 0, putData))
  {
    var r := PutBufferEffect(raw, putData, MaxEnd(raw));
    assert putData[..0][0..0] == [];
    assert Overwrite(raw, MaxEnd(raw), []) == raw;
    assert putData[0..][0..|putData|] == putData;
  }

  /** Every call of putBuffer ends in one of four ways: it throws having
      written nothing; it writes the data whole before maxEnd; it starts at
      maxEnd and writes the data whole at 0; or it starts inside the ring,
      runs past maxEnd, writes only the piece [startIndex, maxEnd) and throws. */
  lemma PutBufferOutcomes(raw: seq<byte>, putData: seq<byte>, startIndex: int)
    requires IsRegion(raw) && IsI32(startIndex) && |putData| <= I32Max
    ensures var e := PutBufferEffect(raw, putData, startIndex);
            || (e.outcome.Err? && e.region == raw)
            || (e.outcome.Ok? && 0 <= startIndex && startIndex + |putData| <= MaxEnd(raw)
                && e.region == Overwrite(raw, startIndex, putData))
            || (e.outcome.Ok? && startIndex == MaxEnd(raw) && 0 < |putData| < MaxEnd(raw)
                && e.region == Overwrite(raw, 0, putData))
            || (e.outcome == Err(RangeError) && 0 <= startIndex < MaxEnd(raw) < startIndex + |putData| < 2 * MaxEnd(raw)
                && e.region == Overwrite(raw, startIndex, putData[..MaxEnd(raw) - startIndex]))
  {
    var m := MaxEnd(raw);
    var len := |putData|;
    var x := startIndex + len - m;
    Wrap32Sub(startIndex + len, m);
    Wrap32Once(x);
    if 0 <= startIndex <= m && x <= I32Max {
      if x <= 0 && m > 0 {
        PutBufferContiguous(raw, putData, startIndex);
      } else if x < m {
        if startIndex == m {
          PutBufferFromMaxEnd(raw, putData);
        } else {
          PutBufferWrapFault(raw, putData, startIndex);
        }
      }
    }
  }

  // ---------------------------------------------------- takeOneFrameFromBuffer

  /** With its header inside the ring, a frame is read as 16 + the stored body
      length bytes: in one piece when it ends by maxEnd, otherwise as
      [startIndex, maxEnd) followed by [0, overflow); and it throws
      OverflowException exactly when the overflow reaches maxEnd. */
  lemma TakeOneFrameContiguousHeader(raw: seq<byte>, startIndex: int)
    requires IsRegion(raw) && 0 <= startIndex && startIndex + HeaderSize <= MaxEnd(raw)
    requires 0 <= ToInt32(raw[startIndex + 12..startIndex + 16]) <= I32Max - HeaderSize
    ensures var len := ToInt32(raw[startIndex + 12..startIndex + 16]) + HeaderSize;
            var overflow := startIndex + len - MaxEnd(raw);
            var r := TakeOneFrameFromBuffer(raw, startIndex);
            && (r.Ok? <==> overflow < MaxEnd(raw))
            && (r.Err? ==> r == Err(OverflowError))
            && (r.Ok? ==> |r.value| == len)
            && (r.Ok? && overflow > 0 ==> r.value == raw[startIndex..MaxEnd(raw)] + raw[..overflow])
            && (r.Ok? && overflow <= 0 ==> r.value == raw[startIndex..startIndex + len])
  {
    var headerData := raw[startIndex..startIndex + HeaderSize];
    assert headerData[12..16] == raw[startIndex + 12..startIndex + 16];
    var len := ToInt32(raw[startIndex + 12..startIndex + 16]) + HeaderSize;
    Wrap32Sub(startIndex + len, MaxEnd(raw));
  }

  /** A frame whose header and body lie whole before maxEnd is decoded from
      exactly its own bytes. */
  lemma FrameAtIsSlice(raw: seq<byte>, index: int)
    requires IsRegion(raw) && 0 <= index && index + HeaderSize <= MaxEnd(raw)
    requires 0 <= ToInt32(raw[index + 12..index + 16])
    requires index + HeaderSize + ToInt32(raw[index + 12..index + 16]) <= MaxEnd(raw)
    ensures var len := HeaderSize + ToInt32(raw[index + 12..index + 16]);
            FrameAt(raw, index) == DeserializeFrame(raw[index..index + len])
  {
    TakeOneFrameContiguousHeader(raw, index);
  }

  /** The header fields of the bytes [index, index + len) are the fields
      read in place. */
  lemma DecodeInPlace(raw: seq<byte>, index: int, len: int)
    requires 0 <= index && HeaderSize <= len && index + len <= |raw|
    ensures DeserializeFrame(raw[index..index + len])
              == Ok(Frame(ToInt64(raw[index..index + 8]), ToInt32(raw[index + 8..index + 12]),
                          ToInt32(raw[index + 12..index + 16]), raw[index + HeaderSize..index + len]))
  {
    SliceOfSlice(raw, index, index + len, 0, 8);
    SliceOfSlice(raw, index, index + len, 8, 12);
    SliceOfSlice(raw, index, index + len, 12, 16);
    SliceOfSlice(raw, index, index + len, HeaderSize, len);
  }

  /** A frame whose header and body lie whole before maxEnd is decoded from
      its own bytes: tick, before index and body length from the header,
      the body after it. */
  lemma FrameAtWhole(raw: seq<byte>, index: int)
    requires IsRegion(raw) && 0 <= index && index + HeaderSize <= MaxEnd(raw)
    requires 0 <= ToInt32(raw[index + 12..index + 16])
    requires index + HeaderSize + ToInt32(raw[index + 12..index + 16]) <= MaxEnd(raw)
    ensures var len := HeaderSize + ToInt32(raw[index + 12..index + 16]);
            FrameAt(raw, index)
              == Ok(Frame(ToInt64(raw[index..index + 8]), ToInt32(raw[index + 8..index + 12]),
                          ToInt32(raw[index + 12..index + 16]), raw[index + HeaderSize..index + len]))
  {
    hide FrameAt, TakeOneFrameFromBuffer, DeserializeFrame;
    FrameAtIsSlice(raw, index);
    DecodeInPlace(raw, index, HeaderSize + ToInt32(raw[index + 12..index + 16]));
  }

  /** A header that runs past maxEnd is never read when the frame starts
      after 0: the first header piece is sliced up to maxEnd - startIndex
      instead of maxEnd, so the read throws. */
  lemma TakeOneFrameHeaderWrapFault(raw: seq<byte>, startIndex: int)
    requires IsRegion(raw) && IsI32(startIndex)
    requires 0 < startIndex && startIndex + HeaderSize > MaxEnd(raw)
    ensures TakeOneFrameFromBuffer(raw, startIndex) == Err(RangeError)
  {
  }
}
