/** Corrected forms of three steps of the circular buffer, each differing from
    the code as written in one expression, with the property the code evidently
    intends proved about them. */
module RingIntended {
  import opened Runtime
  import opened BitConverter
  import opened FrameCodec
  import opened RingRegion
  import opened RingWalk
  import opened RingProperties
  import opened RingHistory
  import opened RingInsert

  /** putBuffer with the second piece written from offset 0 of the already
      sliced tail, instead of offset beforeLength. */
  function PutBufferIntendedEffect(raw: seq<byte>, putData: seq<byte>, startIndex: int): (r: Effect<()>)
    requires IsRegion(raw) && IsI32(startIndex) && |putData| <= I32Max
    ensures |r.region| == |raw|
  {
    var maxEndIndex := MaxEnd(raw);
    var length := |putData|;
    var overflowLength := Wrap32(Wrap32(startIndex + length) - maxEndIndex);
    if overflowLength >= maxEndIndex then
      Effect(Err(OverflowError), raw)
    else if overflowLength > 0 then
      var beforeLength := Wrap32(length - overflowLength);
      if !(0 <= beforeLength <= length) then
        Effect(Err(RangeError), raw)
      else
        var first := WriteArrayEffect(raw, startIndex, putData[..beforeLength], 0, beforeLength);
        if first.outcome.Err? then first
        else WriteArrayEffect(first.region, 0, putData[beforeLength..], 0, overflowLength)
    else
      WriteArrayEffect(raw, startIndex, putData, 0, length)
  }

  /** takeOneFrameFromBuffer with the first piece of a split header sliced up
      to maxEnd, instead of up to maxEnd - startIndex. */
  function TakeOneFrameIntended(raw: seq<byte>, startIndex: int): (r: Result<seq<byte>>)
    requires IsRegion(raw) && IsI32(startIndex)
    ensures r.Ok? ==> 0 <= startIndex <= MaxEnd(raw)
  {
    var maxEndIndex := MaxEnd(raw);
    var headerEnd := Wrap32(startIndex + HeaderSize);
    var headerData :-
      if headerEnd > maxEndIndex then
        var overflowHeaderLength := Wrap32(headerEnd - maxEndIndex);
        var first :- Slice(raw, startIndex, maxEndIndex);
        var second :- Slice(raw, 0, overflowHeaderLength);
        Ok(first + second)
      else
        Slice(raw, startIndex, headerEnd);
    var lengthField :- Slice(headerData, 12, 16);
    var length := Wrap32(ToInt32(lengthField) + HeaderSize);
    var overflowLength := Wrap32(Wrap32(startIndex + length) - maxEndIndex);
    if overflowLength >= maxEndIndex then
      Err(OverflowError)
    else if overflowLength > 0 then
      var first :- Slice(raw, startIndex, maxEndIndex);
      var second :- Slice(raw, 0, overflowLength);
      Ok(first + second)
    else
      Slice(raw, startIndex, Wrap32(startIndex + length))
  }

  /** `frame` stored at `s`: whole when it ends by maxEnd, otherwise its
      first maxEnd - s bytes at [s, maxEnd) and the rest at [0, ...). */
  ghost predicate Placed(raw: seq<byte>, s: int, frame: seq<byte>)
    requires IsRegion(raw) && 0 <= s <= MaxEnd(raw) && |frame| < MaxEnd(raw)
  {
    if s + |frame| <= MaxEnd(raw) then raw[s..s + |frame|] == frame
    else raw[s..MaxEnd(raw)] + raw[..s + |frame| - MaxEnd(raw)] == frame
  }

  /** The corrected putBuffer on a frame that runs past maxEnd: the first
      maxEnd - s bytes at s, the rest at 0. */
  lemma PutIntendedWrappedEffect(raw: seq<byte>, frame: seq<byte>, s: int)
    requires IsRegion(raw) && 0 <= s <= MaxEnd(raw) && 0 < |frame| < MaxEnd(raw)
    requires MaxEnd(raw) < s + |frame| <= I32Max
    ensures var b := MaxEnd(raw) - s;
            PutBufferIntendedEffect(raw, frame, s)
              == Effect(Ok(()), Overwrite(Overwrite(raw, s, frame[..b]), 0, frame[b..]))
  {
    var b := MaxEnd(raw) - s;
    Wrap32Sub(s + |frame|, MaxEnd(raw));
    assert frame[..b][0..b] == frame[..b];
    assert frame[b..][0..|frame| - b] == frame[b..];
  }

  /** Two pieces written at s and at 0 place the frame they split. */
  lemma WrappedPiecesPlace(raw: seq<byte>, frame: seq<byte>, s: int)
    requires IsRegion(raw) && 0 <= s <= MaxEnd(raw) && 0 < |frame| < MaxEnd(raw)
    requires MaxEnd(raw) < s + |frame|
    ensures var b := MaxEnd(raw) - s;
            Placed(Overwrite(Overwrite(raw, s, frame[..b]), 0, frame[b..]), s, frame)
  {
    hide Overwrite;
    var m := MaxEnd(raw);
    var b := m - s;
    var o := s + |frame| - m;
    var region1 := Overwrite(raw, s, frame[..b]);
    var region2 := Overwrite(region1, 0, frame[b..]);
    assert region1[s..m] == frame[..b];
    assert region2[s..m] == region1[s..m];
    assert region2[..o] == frame[b..];
    assert frame[..b] + frame[b..] == frame;
  }

  /** The corrected putBuffer on a frame that ends by maxEnd writes it whole. */
  lemma PutIntendedContiguousEffect(raw: seq<byte>, frame: seq<byte>, s: int)
    requires IsRegion(raw) && 0 <= s && 0 < |frame| && s + |frame| <= MaxEnd(raw)
    ensures PutBufferIntendedEffect(raw, frame, s) == Effect(Ok(()), Overwrite(raw, s, frame))
  {
    Wrap32Sub(s + |frame|, MaxEnd(raw));
    assert frame[0..|frame|] == frame;
  }

  /** The corrected putBuffer accepts every frame shorter than maxEnd from
      every start index in [0, maxEnd] and places it. */
  lemma PutIntendedPlaces(raw: seq<byte>, frame: seq<byte>, s: int)
    requires IsRegion(raw) && 0 <= s <= MaxEnd(raw) && 0 < |frame| < MaxEnd(raw)
    requires s + |frame| <= I32Max
    ensures var e := PutBufferIntendedEffect(raw, frame, s);
            e.outcome.Ok? && Placed(e.region, s, frame)
  {
    if s + |frame| > MaxEnd(raw) {
      PutIntendedWrappedEffect(raw, frame, s);
      WrappedPiecesPlace(raw, frame, s);
    } else {
      PutIntendedContiguousEffect(raw, frame, s);
      assert Overwrite(raw, s, frame)[s..s + |frame|] == frame;
    }
  }

  /** A frame placed across maxEnd is its two pieces. */
  lemma PlacedPieces(raw: seq<byte>, s: int, frame: seq<byte>)
    requires IsRegion(raw) && 0 <= s <= MaxEnd(raw) && |frame| < MaxEnd(raw)
    requires MaxEnd(raw) < s + |frame| && Placed(raw, s, frame)
    ensures raw[s..MaxEnd(raw)] == frame[..MaxEnd(raw) - s]
    ensures raw[..s + |frame| - MaxEnd(raw)] == frame[MaxEnd(raw) - s..]
  {
    var b := MaxEnd(raw) - s;
    var pieces := raw[s..MaxEnd(raw)] + raw[..s + |frame| - MaxEnd(raw)];
    assert pieces[..b] == raw[s..MaxEnd(raw)];
    assert pieces[b..] == raw[..s + |frame| - MaxEnd(raw)];
  }

  /** The corrected read of a frame lying whole before maxEnd. */
  lemma TakeIntendedWhole(raw: seq<byte>, s: int, frame: seq<byte>)
    requires IsRegion(raw) && 0 <= s && HeaderSize <= |frame| && s + |frame| <= MaxEnd(raw)
    requires ToInt32(frame[12..16]) == |frame| - HeaderSize
    requires raw[s..s + |frame|] == frame
    ensures TakeOneFrameIntended(raw, s) == Ok(frame)
  {
    Wrap32Sub(s + |frame|, MaxEnd(raw));
    assert raw[s..s + HeaderSize] == raw[s..s + |frame|][..HeaderSize];
    assert raw[s..s + HeaderSize][12..16] == frame[12..16];
  }

  /** The corrected read of a frame whose header lies before maxEnd and
      whose body runs past it. */
  lemma TakeIntendedBodySplit(raw: seq<byte>, s: int, frame: seq<byte>)
    requires IsRegion(raw) && 0 <= s && s + HeaderSize <= MaxEnd(raw) < s + |frame|
    requires |frame| < MaxEnd(raw) && s + |frame| <= I32Max
    requires ToInt32(frame[12..16]) == |frame| - HeaderSize
    requires raw[s..MaxEnd(raw)] == frame[..MaxEnd(raw) - s]
    requires raw[..s + |frame| - MaxEnd(raw)] == frame[MaxEnd(raw) - s..]
    ensures TakeOneFrameIntended(raw, s) == Ok(frame)
  {
    Wrap32Sub(s + |frame|, MaxEnd(raw));
    assert raw[s..s + HeaderSize] == raw[s..MaxEnd(raw)][..HeaderSize];
    assert raw[s..s + HeaderSize] == frame[..HeaderSize];
    assert raw[s..s + HeaderSize][12..16] == frame[12..16];
    assert frame[..MaxEnd(raw) - s] + frame[MaxEnd(raw) - s..] == frame;
  }

  /** The corrected read of a frame whose header runs past maxEnd. */
  lemma TakeIntendedHeaderSplit(raw: seq<byte>, s: int, frame: seq<byte>)
    requires IsRegion(raw) && 0 <= s <= MaxEnd(raw) < s + HeaderSize && HeaderSize <= |frame|
    requires |frame| < MaxEnd(raw) && s + |frame| <= I32Max
    requires ToInt32(frame[12..16]) == |frame| - HeaderSize
    requires raw[s..MaxEnd(raw)] == frame[..MaxEnd(raw) - s]
    requires raw[..s + |frame| - MaxEnd(raw)] == frame[MaxEnd(raw) - s..]
    ensures TakeOneFrameIntended(raw, s) == Ok(frame)
  {
    var m := MaxEnd(raw);
    var b := m - s;
    Wrap32Sub(s + |frame|, m);
    assert raw[..s + HeaderSize - m] == frame[b..HeaderSize] by {
      assert raw[..s + HeaderSize - m] == raw[..s + |frame| - m][..HeaderSize - b];
    }
    var header := raw[s..m] + raw[..s + HeaderSize - m];
    assert header == frame[..HeaderSize];
    assert header[12..16] == frame[12..16];
    assert frame[..b] + frame[b..] == frame;
  }

  /** The corrected takeOneFrameFromBuffer reads back every placed frame
      whose length field holds its body length. */
  lemma TakeIntendedReadsPlaced(raw: seq<byte>, s: int, frame: seq<byte>)
    requires IsRegion(raw) && 0 <= s <= MaxEnd(raw) && HeaderSize <= |frame| < MaxEnd(raw)
    requires s + |frame| <= I32Max
    requires ToInt32(frame[12..16]) == |frame| - HeaderSize
    requires Placed(raw, s, frame)
    ensures TakeOneFrameIntended(raw, s) == Ok(frame)
  {
    if s + |frame| <= MaxEnd(raw) {
      TakeIntendedWhole(raw, s, frame);
    } else {
      PlacedPieces(raw, s, frame);
      if s + HeaderSize <= MaxEnd(raw) {
        TakeIntendedBodySplit(raw, s, frame);
      } else {
        TakeIntendedHeaderSplit(raw, s, frame);
      }
    }
  }

  /** The round trip the buffer is built for: any frame shorter than maxEnd,
      written by the corrected putBuffer at any start index in [0, maxEnd]
      (wrapping or not, its header split or not), is read back whole by the
      corrected takeOneFrameFromBuffer and decodes to its fields. */
  lemma WrappedFrameRoundTrip(raw: seq<byte>, s: int, tick: int, before: int, data: seq<byte>)
    requires IsRegion(raw) && 0 <= s <= MaxEnd(raw) && IsI64(tick) && IsI32(before)
    requires HeaderSize + |data| < MaxEnd(raw) && s + HeaderSize + |data| <= I32Max
    ensures var frame := SerializeFrame(tick, before, |data|, data);
            var e := PutBufferIntendedEffect(raw, frame, s);
            && e.outcome.Ok?
            && TakeOneFrameIntended(e.region, s) == Ok(frame)
            && DeserializeFrame(frame) == Ok(Frame(tick, before, |data|, data))
  {
    var frame := SerializeFrame(tick, before, |data|, data);
    PutIntendedPlaces(raw, frame, s);
    TakeIntendedReadsPlaced(PutBufferIntendedEffect(raw, frame, s).region, s, frame);
  }

  /** makeHeaderAndPutBuffer with the new frame's before index set to the
      start index of the frame that was latest (0 when the buffer reads as
      empty), instead of to the new frame's own start index. */
  function MakeHeaderAndPutBufferLinkedEffect(raw: seq<byte>, bodyData: seq<byte>, tick: int): (r: Effect<int>)
    requires IsRegion(raw) && IsI64(tick) && IsInsertable(bodyData)
    ensures |r.region| == |raw|
    ensures r.outcome.Ok? ==> IsI32(r.outcome.value)
  {
    match GetLatestFrameDataOrNull(raw)
    case Err(e) => Effect(Err(e), raw)
    case Ok(latestFrame) =>
      var startIndex := NextStartIndex(latestFrame);
      var beforeTickIndex := if latestFrame.Some? then latestFrame.value.tickIndex else 0;
      var put := PutBufferEffect(raw, SerializeFrame(tick, beforeTickIndex, |bodyData|, bodyData), startIndex);
      Effect(if put.outcome.Ok? then Ok(startIndex) else Err(put.outcome.fault), put.region)
  }

  /** InsertNewData over the corrected makeHeaderAndPutBuffer. */
  function InsertNewDataLinkedEffect(raw: seq<byte>, data: seq<byte>, tick: int): (r: Effect<()>)
    requires IsRegion(raw) && IsI64(tick) && IsInsertable(data)
    ensures |r.region| == |raw|
  {
    var made := MakeHeaderAndPutBufferLinkedEffect(raw, data, tick);
    if made.outcome.Err? then Effect(Err(made.outcome.fault), made.region)
    else PutLatestTickIndexEffect(made.region, made.outcome.value)
  }

  /** The corrected makeHeaderAndPutBuffer right after a whole latest frame:
      the new frame, naming the previous latest frame, is written one byte
      past it. */
  lemma MakeHeaderLinkedEffect(raw: seq<byte>, data: seq<byte>, tick: int, latest: LatestFrame)
    requires IsRegion(raw) && IsI64(tick) && IsInsertable(data)
    requires GetLatestFrameDataOrNull(raw) == Ok(Some(latest))
    requires 0 <= latest.tickIndex && 0 <= latest.frameLength
    requires latest.tickIndex + latest.frameLength + 1 + HeaderSize + |data| <= MaxEnd(raw)
    ensures var s := latest.tickIndex + latest.frameLength + 1;
            MakeHeaderAndPutBufferLinkedEffect(raw, data, tick)
              == Effect(Ok(s), Overwrite(raw, s, SerializeFrame(tick, latest.tickIndex, |data|, data)))
  {
    hide GetLatestFrameDataOrNull, SerializeFrame, Overwrite;
    var s := latest.tickIndex + latest.frameLength + 1;
    PutBufferContiguous(raw, SerializeFrame(tick, latest.tickIndex, |data|, data), s);
    hide PutBufferEffect;
  }

  /** The corrected insert right after a whole latest frame: the new frame,
      naming the previous latest frame, is written one byte past it, then the
      footer names the new frame. */
  lemma LinkedInsertEffect(raw: seq<byte>, data: seq<byte>, tick: int)
    requires IsRegion(raw) && IsI64(tick) && IsInsertable(data)
    requires RoomAfterLatest(raw, HeaderSize + |data|)
    ensures var L := GetLatestTickIndex(raw);
            var s := L + HeaderSize + ToInt32(raw[L + 12..L + 16]) + 1;
            InsertNewDataLinkedEffect(raw, data, tick)
              == PutLatestTickIndexEffect(Overwrite(raw, s, SerializeFrame(tick, L, |data|, data)), s)
  {
    hide MakeHeaderAndPutBufferLinkedEffect, GetLatestFrameDataOrNull, FrameAt, TakeOneFrameFromBuffer, PutLatestTickIndexEffect, Overwrite, SerializeFrame, DeserializeFrame;
    LatestWholeFrame(raw, HeaderSize + |data|);
    MakeHeaderLinkedEffect(raw, data, tick, GetLatestFrameDataOrNull(raw).value.value);
  }

  /** A latest frame at a start index other than 0 that names a readable
      frame with another tick: a walk that completes returns the latest
      frame and then that one. */
  lemma TwoLinkedFrames(raw: seq<byte>, latest: Frame, prevIndex: int, prev: Frame)
    requires IsRegion(raw) && IsI32(prevIndex)
    requires GetLatestTickIndex(raw) != 0
    requires FrameAt(raw, GetLatestTickIndex(raw)) == Ok(latest)
    requires latest.bodyLength != 0 && latest.beforeTickIndex == prevIndex
    requires FrameAt(raw, prevIndex) == Ok(prev) && prev.tick != latest.tick
    ensures AllBodyAndTick(raw).Ok? ==>
              var r := AllBodyAndTick(raw).value;
              |r| >= 2 && r[..2] == [Entry(latest.tick, latest.body), Entry(prev.tick, prev.body)]
  {
    hide FrameAt, TakeOneFrameFromBuffer, DeserializeFrame;
    var s := GetLatestTickIndex(raw);
    var newEntry := Entry(latest.tick, latest.body);
    var prevEntry := Entry(prev.tick, prev.body);
    assert [newEntry][0].tick == latest.tick;
    assert !HasTick([newEntry], prev.tick);
    WalkReadyExtends(raw, {s}, [newEntry], prevIndex, prev);
    assert [newEntry] + [prevEntry] == [newEntry, prevEntry];
    if AllBodyAndTick(raw).Ok? {
      WalkFromExtends(raw, prev.beforeTickIndex, [newEntry, prevEntry], {s} + {prevIndex});
    }
  }

  /** A frame lying whole before maxEnd is read from its own bytes only:
      another region holding the same bytes there reads the same frame. */
  lemma SameBytesSameFrame(raw: seq<byte>, region: seq<byte>, L: int, len: int)
    requires IsRegion(raw) && |region| == |raw|
    requires 0 <= L && L + HeaderSize <= MaxEnd(raw) && len == HeaderSize + ToInt32(raw[L + 12..L + 16])
    requires HeaderSize <= len && L + len <= MaxEnd(raw)
    requires region[L..L + len] == raw[L..L + len]
    ensures FrameAt(raw, L).Ok? && FrameAt(raw, L).value.tick == ToInt64(raw[L..L + 8])
    ensures FrameAt(region, L) == FrameAt(raw, L)
  {
    hide FrameAt, TakeOneFrameFromBuffer, DeserializeFrame, ToInt32, ToInt64;
    SliceOfSlice(region, L, L + len, 12, 16);
    SliceOfSlice(raw, L, L + len, 12, 16);
    assert region[L + 12..L + 16] == raw[L + 12..L + 16];
    FrameAtIsSlice(region, L);
    FrameAtWhole(raw, L);
    FrameAtIsSlice(raw, L);
    assert FrameAt(region, L) == DeserializeFrame(raw[L..L + len]);
  }

  /** A frame stored whole at L, then a frame naming it written one byte
      past its end, then the footer naming the new frame: the new frame
      reads back and the frame at L reads as it did. */
  lemma LinkedRegionReads(raw: seq<byte>, L: int, len: int, s: int, tick: int, data: seq<byte>)
    requires IsRegion(raw) && IsI64(tick) && IsInsertable(data)
    requires 0 <= L && L + HeaderSize <= MaxEnd(raw) && len == HeaderSize + ToInt32(raw[L + 12..L + 16])
    requires HeaderSize < len && s == L + len + 1 && s + HeaderSize + |data| <= MaxEnd(raw)
    ensures var region := PutLatestTickIndexEffect(Overwrite(raw, s, SerializeFrame(tick, L, |data|, data)), s).region;
            && GetLatestTickIndex(region) == s
            && FrameAt(region, s) == Ok(Frame(tick, L, |data|, data))
            && FrameAt(raw, L).Ok?
            && FrameAt(region, L) == FrameAt(raw, L)
            && FrameAt(raw, L).value.tick == ToInt64(raw[L..L + 8])
  {
    hide FrameAt, TakeOneFrameFromBuffer, DeserializeFrame, PutLatestTickIndexEffect, Overwrite, SerializeFrame;
    var frame := SerializeFrame(tick, L, |data|, data);
    PieceThenFooter(raw, s, frame, s);
    var region := PutLatestTickIndexEffect(Overwrite(raw, s, frame), s).region;
    StoredFrameReadsBack(region, s, tick, L, data);
    PieceThenFooterKeeps(raw, s, frame, s, L, L + len);
    SameBytesSameFrame(raw, region, L, len);
  }

  /** With the corrected before index the previous frame stays reachable.
      In the region the corrected insert leaves after a whole latest frame
      at L (LinkedInsertEffect), the new frame reads back naming L, the
      frame at L reads as it did, and a walk that completes returns the new
      frame and then the one at L. */
  lemma LinkedInsertKeepsPrevious(raw: seq<byte>, L: int, len: int, s: int, tick: int, data: seq<byte>)
    requires IsRegion(raw) && IsI64(tick) && IsInsertable(data) && |data| > 0
    requires 0 <= L && L + HeaderSize <= MaxEnd(raw) && len == HeaderSize + ToInt32(raw[L + 12..L + 16])
    requires HeaderSize < len && s == L + len + 1 && s + HeaderSize + |data| <= MaxEnd(raw)
    requires tick != ToInt64(raw[L..L + 8])
    ensures var region := PutLatestTickIndexEffect(Overwrite(raw, s, SerializeFrame(tick, L, |data|, data)), s).region;
            var prev := FrameAt(raw, L);
            && GetLatestTickIndex(region) == s
            && FrameAt(region, s) == Ok(Frame(tick, L, |data|, data))
            && prev.Ok?
            && FrameAt(region, L) == prev
            && (AllBodyAndTick(region).Ok? ==>
                  var r := AllBodyAndTick(region).value;
                  |r| >= 2 && r[..2] == [Entry(tick, data), Entry(prev.value.tick, prev.value.body)])
  {
    LinkedRegionReads(raw, L, len, s, tick, data);
    var region := PutLatestTickIndexEffect(Overwrite(raw, s, SerializeFrame(tick, L, |data|, data)), s).region;
    TwoLinkedFrames(region, Frame(tick, L, |data|, data), L, FrameAt(raw, L).value);
  }
}
