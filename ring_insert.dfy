/** What InsertNewData leaves behind: where the new frame goes, what readers
    then see, and how the buffer gets stuck once a frame starts at maxEnd. */
module RingInsert {
  import opened Runtime
  import opened BitConverter
  import opened FrameCodec
  import opened RingRegion
  import opened RingWalk
  import opened RingProperties
  import opened RingHistory

  /** The start index InsertNewData uses for the next frame. */
  function NextIndex(raw: seq<byte>): (r: int)
    requires IsRegion(raw) && GetLatestFrameDataOrNull(raw).Ok?
    ensures IsI32(r)
  {
    NextStartIndex(GetLatestFrameDataOrNull(raw).value)
  }

  /** A frame stored whole inside the ring decodes to the fields it was
      built from. */
  lemma StoredFrameReadsBack(raw: seq<byte>, s: int, tick: int, before: int, data: seq<byte>)
    requires IsRegion(raw) && IsI64(tick) && IsI32(before) && IsInsertable(data)
    requires 0 <= s && s + HeaderSize + |data| <= MaxEnd(raw)
    requires raw[s..s + HeaderSize + |data|] == SerializeFrame(tick, before, |data|, data)
    ensures FrameAt(raw, s) == Ok(Frame(tick, before, |data|, data))
  {
    hide TakeOneFrameFromBuffer;
    var frame := SerializeFrame(tick, before, |data|, data);
    SliceOfSlice(raw, s, s + HeaderSize + |data|, 12, 16);
    assert ToInt32(frame[12..16]) == |data|;
    TakeOneFrameContiguousHeader(raw, s);
  }

  /** makeHeaderAndPutBuffer, when the frame fits before maxEnd: the frame
      is written at the next start index, which is returned. */
  lemma MakeHeaderContiguous(raw: seq<byte>, data: seq<byte>, tick: int)
    requires IsRegion(raw) && IsI64(tick) && IsInsertable(data)
    requires GetLatestFrameDataOrNull(raw).Ok?
    requires 0 <= NextIndex(raw) && NextIndex(raw) + HeaderSize + |data| <= MaxEnd(raw)
    ensures var s := NextIndex(raw);
            MakeHeaderAndPutBufferEffect(raw, data, tick)
              == Effect(Ok(s), Overwrite(raw, s, SerializeFrame(tick, s, |data|, data)))
  {
    PutBufferContiguous(raw, SerializeFrame(tick, NextIndex(raw), |data|, data), NextIndex(raw));
  }

  /** Writing the footer keeps every byte of the ring area. */
  lemma FooterKeepsRing(raw: seq<byte>, index: int, lo: int, hi: int)
    requires IsRegion(raw) && IsI32(index) && 0 <= lo <= hi <= MaxEnd(raw)
    ensures PutLatestTickIndexEffect(raw, index).region[lo..hi] == raw[lo..hi]
  {
    var region := PutLatestTickIndexEffect(raw, index).region;
    assert region[..MaxEnd(raw)] == raw[..MaxEnd(raw)];
    assert region[lo..hi] == region[..MaxEnd(raw)][lo..hi];
  }

  /** The region after an insert whose frame fits before maxEnd: the frame
      written at the next start index, then the footer naming that index. */
  lemma InsertContiguousEffect(raw: seq<byte>, data: seq<byte>, tick: int)
    requires IsRegion(raw) && IsI64(tick) && IsInsertable(data)
    requires GetLatestFrameDataOrNull(raw).Ok?
    requires 0 <= NextIndex(raw) && NextIndex(raw) + HeaderSize + |data| <= MaxEnd(raw)
    ensures var s := NextIndex(raw);
            InsertNewDataEffect(raw, data, tick)
              == PutLatestTickIndexEffect(Overwrite(raw, s, SerializeFrame(tick, s, |data|, data)), s)
  {
    MakeHeaderContiguous(raw, data, tick);
  }

  /** A piece written inside the ring and then the footer: the piece is in
      place, the rest of the ring is as before, the footer reads `index`. */
  lemma PieceThenFooter(raw: seq<byte>, s: int, piece: seq<byte>, index: int)
    requires IsRegion(raw) && IsI32(index) && 0 <= s && s + |piece| <= MaxEnd(raw)
    ensures var e := PutLatestTickIndexEffect(Overwrite(raw, s, piece), index);
            && e.outcome.Ok?
            && e.region[..MaxEnd(raw)] == Overwrite(raw, s, piece)[..MaxEnd(raw)]
            && e.region[s..s + |piece|] == piece
            && GetLatestTickIndex(e.region) == index
  {
    var region1 := Overwrite(raw, s, piece);
    assert region1[s..s + |piece|] == piece;
    FooterKeepsRing(region1, index, s, s + |piece|);
  }

  /** A piece written at s and then the footer leave the bytes before s
      as they were. */
  lemma PieceThenFooterKeeps(raw: seq<byte>, s: int, piece: seq<byte>, index: int, lo: int, hi: int)
    requires IsRegion(raw) && IsI32(index) && 0 <= s && s + |piece| <= MaxEnd(raw)
    requires 0 <= lo <= hi <= s
    ensures PutLatestTickIndexEffect(Overwrite(raw, s, piece), index).region[lo..hi] == raw[lo..hi]
  {
    var region1 := Overwrite(raw, s, piece);
    FooterKeepsRing(region1, index, lo, hi);
    assert region1[lo..hi] == raw[lo..hi];
  }

  /** An insert whose frame fits before maxEnd succeeds: the frame is written
      at the next start index and the footer names it; that frame reads back
      with its own start index as before index; the latest tick is the new
      tick (none for an empty body); and, the frame linking to itself, the
      walk returns it alone. */
  lemma InsertThenRead(raw: seq<byte>, data: seq<byte>, tick: int)
    requires IsRegion(raw) && IsI64(tick) && IsInsertable(data)
    requires GetLatestFrameDataOrNull(raw).Ok?
    requires 0 <= NextIndex(raw) && NextIndex(raw) + HeaderSize + |data| <= MaxEnd(raw)
    ensures var s := NextIndex(raw);
            var e := InsertNewDataEffect(raw, data, tick);
            && e.outcome.Ok?
            && e.region[..MaxEnd(raw)] == Overwrite(raw, s, SerializeFrame(tick, s, |data|, data))[..MaxEnd(raw)]
            && GetLatestTickIndex(e.region) == s
            && FrameAt(e.region, s) == Ok(Frame(tick, s, |data|, data))
            && GetLatestTickOrNull(e.region) == Ok(if |data| == 0 then None else Some(tick))
            && AllBodyAndTick(e.region) == Ok(if |data| == 0 then [] else [Entry(tick, data)])
  {
    hide InsertNewDataEffect, MakeHeaderAndPutBufferEffect, PutLatestTickIndexEffect, Overwrite, FrameAt, TakeOneFrameFromBuffer, GetLatestFrameDataOrNull, SerializeFrame, AllBodyAndTick;
    var s := NextIndex(raw);
    var region := InsertNewDataEffect(raw, data, tick).region;
    InsertContiguousEffect(raw, data, tick);
    PieceThenFooter(raw, s, SerializeFrame(tick, s, |data|, data), s);
    StoredFrameReadsBack(region, s, tick, s, data);
    SelfLinkedWalk(region);
  }

  /** A region whose footer names an unreadable frame refuses every insert
      with the same exception and is left as it was. */
  lemma UnreadableLatestBlocksInsert(raw: seq<byte>, data: seq<byte>, tick: int)
    requires IsRegion(raw) && IsI64(tick) && IsInsertable(data)
    requires FrameAt(raw, GetLatestTickIndex(raw)).Err?
    ensures var fault := FrameAt(raw, GetLatestTickIndex(raw)).fault;
            && InsertNewDataEffect(raw, data, tick) == Effect(Err(fault), raw)
            && GetLatestTickOrNull(raw) == Err(fault)
            && AllBodyAndTick(raw) == Err(fault)
  {
  }

  /** The start index is never brought back into the ring: when the latest
      frame ends one byte before maxEnd, the next frame is written at maxEnd
      (wrapping whole to index 0) and the footer names maxEnd. A header at
      maxEnd cannot be read, so from then on every insert and every read
      throws. */
  lemma InsertAtMaxEndSticks(raw: seq<byte>, data: seq<byte>, tick: int, data2: seq<byte>, tick2: int)
    requires IsRegion(raw) && IsI64(tick) && IsInsertable(data) && IsI64(tick2) && IsInsertable(data2)
    requires GetLatestFrameDataOrNull(raw).Ok? && NextIndex(raw) == MaxEnd(raw)
    requires HeaderSize + |data| < MaxEnd(raw)
    ensures var e := InsertNewDataEffect(raw, data, tick);
            && e.outcome.Ok?
            && GetLatestTickIndex(e.region) == MaxEnd(raw)
            && e.region[..HeaderSize + |data|] == SerializeFrame(tick, MaxEnd(raw), |data|, data)
            && GetLatestTickOrNull(e.region) == Err(RangeError)
            && AllBodyAndTick(e.region) == Err(RangeError)
            && InsertNewDataEffect(e.region, data2, tick2) == Effect(Err(RangeError), e.region)
  {
    hide PutBufferEffect, TakeOneFrameFromBuffer, SerializeFrame, AllBodyAndTick, Overwrite;
    var s := MaxEnd(raw);
    var frame := SerializeFrame(tick, s, |data|, data);
    PutBufferFromMaxEnd(raw, frame);
    var region1 := Overwrite(raw, 0, frame);
    assert MakeHeaderAndPutBufferEffect(raw, data, tick) == Effect(Ok(s), region1);
    var region2 := PutLatestTickIndexEffect(region1, s).region;
    assert region2[..HeaderSize + |data|] == frame by {
      assert region2[..MaxEnd(raw)] == region1[..MaxEnd(raw)];
      assert forall i :: 0 <= i < |frame| ==> region2[i] == region2[..MaxEnd(raw)][i];
    }
    TakeOneFrameHeaderWrapFault(region2, s);
    UnreadableLatestBlocksInsert(region2, data2, tick2);
  }

  /** The latest frame lies whole in the ring with a non-empty body, and `n`
      more bytes fit starting one byte past its end. */
  predicate RoomAfterLatest(raw: seq<byte>, n: int)
    requires IsRegion(raw)
  {
    var L := GetLatestTickIndex(raw);
    && 0 <= L && L + HeaderSize <= MaxEnd(raw)
    && 0 < ToInt32(raw[L + 12..L + 16])
    && L + HeaderSize + ToInt32(raw[L + 12..L + 16]) + 1 + n <= MaxEnd(raw)
  }

  /** Under RoomAfterLatest the latest frame is read as its stored bytes and
      the next frame goes one byte past its end. */
  lemma LatestWholeFrame(raw: seq<byte>, n: int)
    requires IsRegion(raw) && RoomAfterLatest(raw, n) && n >= 0
    ensures var L := GetLatestTickIndex(raw);
            var b := ToInt32(raw[L + 12..L + 16]);
            && FrameAt(raw, L) == DeserializeFrame(raw[L..L + HeaderSize + b])
            && FrameAt(raw, L).Ok? && FrameAt(raw, L).value.bodyLength == b
            && GetLatestFrameDataOrNull(raw)
                 == Ok(Some(LatestFrame(HeaderSize + b, L, FrameAt(raw, L).value.tick, FrameAt(raw, L).value.body)))
            && NextIndex(raw) == L + HeaderSize + b + 1
  {
    hide FrameAt, TakeOneFrameFromBuffer, DeserializeFrame, ToInt64;
    var L := GetLatestTickIndex(raw);
    FrameAtIsSlice(raw, L);
    FrameAtWhole(raw, L);
  }

  /** As written, an insert right after a whole latest frame forgets it: the
      new frame links to itself, so the walk returns the new frame alone. */
  lemma InsertForgetsPrevious(raw: seq<byte>, data: seq<byte>, tick: int)
    requires IsRegion(raw) && IsI64(tick) && IsInsertable(data) && |data| > 0
    requires RoomAfterLatest(raw, HeaderSize + |data|)
    ensures FrameAt(raw, GetLatestTickIndex(raw)).Ok?
    ensures AllBodyAndTick(InsertNewDataEffect(raw, data, tick).region) == Ok([Entry(tick, data)])
  {
    LatestWholeFrame(raw, HeaderSize + |data|);
    InsertThenRead(raw, data, tick);
  }
}

