/** Buffers written only by InsertNewData. Every frame it writes names itself
    as the frame before it, so the frame the footer names is unreadable or
    links to itself, whatever the inserts throw; readers then see at most one
    frame. */
module RingInsertOnly {
  import opened Runtime
  import opened BitConverter
  import opened FrameCodec
  import opened RingRegion
  import opened RingWalk
  import opened RingProperties
  import opened RingHistory
  import opened RingInsert
  import opened RingIntended

  /** The frame the footer names cannot be read, or it lies with its header
      inside the ring, names its own start index as the frame before it,
      carries a body length InsertNewData accepts, and has an empty body only
      at index 0. */
  ghost predicate SelfLinkedFooter(raw: seq<byte>)
    requires IsRegion(raw)
  {
    var L := GetLatestTickIndex(raw);
    FrameAt(raw, L).Err? ||
    (&& 0 <= L && L + HeaderSize <= MaxEnd(raw)
     && FrameAt(raw, L).value.beforeTickIndex == L
     && FrameAt(raw, L).value.bodyLength == ToInt32(raw[L + 12..L + 16])
     && 0 <= FrameAt(raw, L).value.bodyLength <= MaxArrayLength - HeaderSize
     && (FrameAt(raw, L).value.bodyLength == 0 ==> L == 0))
  }

  /** A write inside the ring keeps the footer. */
  lemma OverwriteKeepsFooter(raw: seq<byte>, s: int, piece: seq<byte>)
    requires IsRegion(raw) && 0 <= s && s + |piece| <= MaxEnd(raw)
    ensures GetLatestTickIndex(Overwrite(raw, s, piece)) == GetLatestTickIndex(raw)
  {
    var region := Overwrite(raw, s, piece);
    assert region[|raw| - FooterSize..] == raw[|raw| - FooterSize..];
  }

  /** An all-zero region: the footer names index 0, whose frame is empty and
      names index 0. */
  lemma ZeroedSelfLinked(raw: seq<byte>)
    requires IsRegion(raw) && MaxEnd(raw) >= HeaderSize
    requires forall i :: 0 <= i < |raw| ==> raw[i] == 0
    ensures SelfLinkedFooter(raw)
  {
    hide GetLatestFrameDataOrNull, AllBodyAndTick, BodyAfterTick, TakeOneFrameFromBuffer, DeserializeFrame, ToInt32, ToInt64;
    ZeroedRegionReadsEmpty(raw);
    ToInt32OfZeros(raw[12..16]);
    ToInt32OfZeros(raw[8..12]);
    FrameAtWhole(raw, 0);
  }

  /** A wrapping frame write at index 0 that stops after its first piece
      leaves a frame at 0 that reads: its header is the new one, but its
      body is the first maxEnd - 16 bytes of the data followed by the
      frame's own first bytes, read again from index 0. */
  lemma FailedWrapAtZero(raw: seq<byte>, tick: int, data: seq<byte>)
    requires IsRegion(raw) && HeaderSize <= MaxEnd(raw) && IsI64(tick) && IsInsertable(data)
    requires MaxEnd(raw) < HeaderSize + |data| < 2 * MaxEnd(raw)
    ensures var m := MaxEnd(raw);
            var frame := SerializeFrame(tick, 0, |data|, data);
            FrameAt(Overwrite(raw, 0, frame[..m]), 0)
              == Ok(Frame(tick, 0, |data|, data[..m - HeaderSize] + frame[..|frame| - m]))
    ensures var frame := SerializeFrame(tick, 0, |data|, data);
            ToInt32(Overwrite(raw, 0, frame[..MaxEnd(raw)])[12..16]) == |data|
  {
    hide TakeOneFrameFromBuffer, SerializeFrame, ToInt32, ToInt64;
    var m := MaxEnd(raw);
    var frame := SerializeFrame(tick, 0, |data|, data);
    var region := Overwrite(raw, 0, frame[..m]);
    var ov := |frame| - m;
    assert region[..m] == frame[..m];
    assert region[0 + 12..0 + 16] == frame[12..16] by {
      assert region[0 + 12..0 + 16] == region[..m][12..16];
    }
    assert ToInt32(frame[12..16]) == |data| && frame[HeaderSize..] == data;
    TakeOneFrameContiguousHeader(region, 0);
    var v := region[0..m] + region[..ov];
    assert TakeOneFrameFromBuffer(region, 0) == Ok(v);
    assert region[0..m] == frame[..m];
    assert region[..ov] == frame[..ov];
    assert v[..HeaderSize] == frame[..HeaderSize];
    assert v[HeaderSize..] == data[..m - HeaderSize] + frame[..ov];
    SameHeaderSameFields(v, frame);
  }

  /** Two byte strings with the same first 16 bytes decode to the same
      header fields. */
  lemma SameHeaderSameFields(v: seq<byte>, w: seq<byte>)
    requires HeaderSize <= |v| && HeaderSize <= |w| && v[..HeaderSize] == w[..HeaderSize]
    ensures var f := DeserializeFrame(w).value;
            DeserializeFrame(v) == Ok(Frame(f.tick, f.beforeTickIndex, f.bodyLength, v[HeaderSize..]))
  {
    assert v[..8] == w[..HeaderSize][..8] == w[..8];
    assert v[8..12] == w[..HeaderSize][8..12] == w[8..12];
    assert v[12..16] == w[..HeaderSize][12..16] == w[12..16];
  }

  /** After an insert whose frame fits before maxEnd, the footer names the
      new frame, which names itself. */
  lemma ContiguousInsertSelfLinked(raw: seq<byte>, s: int, tick: int, data: seq<byte>)
    requires IsRegion(raw) && IsI64(tick) && IsInsertable(data) && |data| > 0
    requires 0 <= s && s + HeaderSize + |data| <= MaxEnd(raw)
    ensures SelfLinkedFooter(PutLatestTickIndexEffect(Overwrite(raw, s, SerializeFrame(tick, s, |data|, data)), s).region)
  {
    hide FrameAt, TakeOneFrameFromBuffer, ToInt64, Overwrite, PutLatestTickIndexEffect;
    var frame := SerializeFrame(tick, s, |data|, data);
    var region := PutLatestTickIndexEffect(Overwrite(raw, s, frame), s).region;
    PieceThenFooter(raw, s, frame, s);
    StoredFrameReadsBack(region, s, tick, s, data);
    SliceOfSlice(region, s, s + |frame|, 12, 16);
    assert frame[12..16] == region[s + 12..s + 16];
  }

  /** After an insert at maxEnd the footer names maxEnd, where nothing can be
      read. */
  lemma MaxEndInsertSelfLinked(raw: seq<byte>, piece: seq<byte>)
    requires IsRegion(raw) && 0 < |piece| < MaxEnd(raw)
    ensures SelfLinkedFooter(PutLatestTickIndexEffect(Overwrite(raw, 0, piece), MaxEnd(raw)).region)
  {
    var region := PutLatestTickIndexEffect(Overwrite(raw, 0, piece), MaxEnd(raw)).region;
    TakeOneFrameHeaderWrapFault(region, MaxEnd(raw));
  }

  /** A write that stops after its first piece, starting past the end of a
      whole latest frame, leaves that frame and the footer as they were. */
  lemma PartialAfterLatestSelfLinked(raw: seq<byte>, s: int, piece: seq<byte>)
    requires IsRegion(raw) && SelfLinkedFooter(raw)
    requires var L := GetLatestTickIndex(raw);
             && FrameAt(raw, L).Ok?
             && L + HeaderSize + FrameAt(raw, L).value.bodyLength < s
    requires s + |piece| <= MaxEnd(raw)
    ensures SelfLinkedFooter(Overwrite(raw, s, piece))
  {
    hide FrameAt, TakeOneFrameFromBuffer, DeserializeFrame, ToInt32, ToInt64;
    var L := GetLatestTickIndex(raw);
    var region := Overwrite(raw, s, piece);
    var len := HeaderSize + FrameAt(raw, L).value.bodyLength;
    OverwriteKeepsFooter(raw, s, piece);
    assert region[L..L + len] == raw[L..L + len];
    SameBytesSameFrame(raw, region, L, len);
    SliceOfSlice(region, L, L + len, 12, 16);
    SliceOfSlice(raw, L, L + len, 12, 16);
  }

  /** The next start index after a latest frame that satisfies the
      footer predicate: one byte past its end, or a negative index once the
      sum passes the int32 range. */
  lemma NextIndexAfterLatest(raw: seq<byte>)
    requires IsRegion(raw) && SelfLinkedFooter(raw)
    requires GetLatestFrameDataOrNull(raw).Ok? && GetLatestFrameDataOrNull(raw).value.Some?
    ensures var L := GetLatestTickIndex(raw);
            var next := L + HeaderSize + FrameAt(raw, L).value.bodyLength + 1;
            && FrameAt(raw, L).Ok? && FrameAt(raw, L).value.bodyLength != 0
            && (NextIndex(raw) == next || NextIndex(raw) < 0)
  {
    var L := GetLatestTickIndex(raw);
    var b := FrameAt(raw, L).value.bodyLength;
    Wrap32Once(L + b + HeaderSize);
  }

  /** A latest frame read as empty sits at index 0, and the next frame goes
      there too. */
  lemma EmptyLatestAtZero(raw: seq<byte>)
    requires IsRegion(raw) && SelfLinkedFooter(raw)
    requires GetLatestFrameDataOrNull(raw) == Ok(None)
    ensures GetLatestTickIndex(raw) == 0 && NextIndex(raw) == 0
  {
  }

  /** The region InsertNewData leaves: the region as it was when the latest
      frame cannot be read, otherwise the region putBuffer leaves, with the
      footer written when putBuffer returned. */
  lemma InsertRegion(raw: seq<byte>, data: seq<byte>, tick: int)
    requires IsRegion(raw) && IsI64(tick) && IsInsertable(data)
    ensures GetLatestFrameDataOrNull(raw).Err? ==> InsertNewDataEffect(raw, data, tick).region == raw
    ensures GetLatestFrameDataOrNull(raw).Ok? ==>
            var s := NextIndex(raw);
            var put := PutBufferEffect(raw, SerializeFrame(tick, s, |data|, data), s);
            InsertNewDataEffect(raw, data, tick).region
              == if put.outcome.Ok? then PutLatestTickIndexEffect(put.region, s).region else put.region
  {
  }

  /** A frame write at index 0 into a buffer read as empty that stops after
      its first piece: the footer still names 0, where a frame naming 0 now
      reads. */
  lemma PartialAtZeroSelfLinked(raw: seq<byte>, tick: int, data: seq<byte>)
    requires IsRegion(raw) && HeaderSize <= MaxEnd(raw) && IsI64(tick) && IsInsertable(data) && |data| > 0
    requires GetLatestTickIndex(raw) == 0
    requires MaxEnd(raw) < HeaderSize + |data| < 2 * MaxEnd(raw)
    ensures SelfLinkedFooter(Overwrite(raw, 0, SerializeFrame(tick, 0, |data|, data)[..MaxEnd(raw)]))
  {
    hide FrameAt, TakeOneFrameFromBuffer, DeserializeFrame, ToInt32, ToInt64, SerializeFrame, Overwrite;
    var piece := SerializeFrame(tick, 0, |data|, data)[..MaxEnd(raw)];
    OverwriteKeepsFooter(raw, 0, piece);
    FailedWrapAtZero(raw, tick, data);
  }

  /** A frame write that returned leaves the footer predicate holding once
      the footer names the new frame. */
  lemma PutSucceededSelfLinked(raw: seq<byte>, data: seq<byte>, tick: int)
    requires IsRegion(raw) && IsI64(tick) && IsInsertable(data) && |data| > 0
    requires GetLatestFrameDataOrNull(raw).Ok?
    requires var s := NextIndex(raw);
             PutBufferEffect(raw, SerializeFrame(tick, s, |data|, data), s).outcome.Ok?
    ensures var s := NextIndex(raw);
            SelfLinkedFooter(PutLatestTickIndexEffect(PutBufferEffect(raw, SerializeFrame(tick, s, |data|, data), s).region, s).region)
  {
    hide PutBufferEffect, PutLatestTickIndexEffect, GetLatestFrameDataOrNull, FrameAt, TakeOneFrameFromBuffer,
         Overwrite, SerializeFrame, NextIndex, SelfLinkedFooter;
    var s := NextIndex(raw);
    var frame := SerializeFrame(tick, s, |data|, data);
    PutBufferOutcomes(raw, frame, s);
    if 0 <= s && s + |frame| <= MaxEnd(raw) {
      ContiguousInsertSelfLinked(raw, s, tick, data);
    } else {
      MaxEndInsertSelfLinked(raw, frame);
    }
  }

  /** A frame write into a buffer read as empty that threw after writing its
      first piece: the footer names 0, where the new header now lies. */
  lemma PutFailedOnEmptySelfLinked(raw: seq<byte>, data: seq<byte>, tick: int)
    requires IsRegion(raw) && MaxEnd(raw) >= HeaderSize && IsI64(tick) && IsInsertable(data) && |data| > 0
    requires SelfLinkedFooter(raw) && GetLatestFrameDataOrNull(raw) == Ok(None)
    requires PutBufferEffect(raw, SerializeFrame(tick, 0, |data|, data), 0).outcome.Err?
    ensures SelfLinkedFooter(PutBufferEffect(raw, SerializeFrame(tick, 0, |data|, data), 0).region)
  {
    hide PutBufferEffect, GetLatestFrameDataOrNull, FrameAt, TakeOneFrameFromBuffer, Overwrite, SerializeFrame, SelfLinkedFooter;
    EmptyLatestAtZero(raw);
    var frame := SerializeFrame(tick, 0, |data|, data);
    PutBufferOutcomes(raw, frame, 0);
    if PutBufferEffect(raw, frame, 0).region != raw {
      PartialAtZeroSelfLinked(raw, tick, data);
    }
  }

  /** A frame write after a latest frame that threw: it wrote nothing, or
      only a piece past the end of the latest frame, which the footer still
      names. */
  lemma PutFailedAfterLatestSelfLinked(raw: seq<byte>, data: seq<byte>, tick: int)
    requires IsRegion(raw) && IsI64(tick) && IsInsertable(data) && |data| > 0
    requires SelfLinkedFooter(raw) && GetLatestFrameDataOrNull(raw).Ok? && GetLatestFrameDataOrNull(raw).value.Some?
    requires var s := NextIndex(raw);
             PutBufferEffect(raw, SerializeFrame(tick, s, |data|, data), s).outcome.Err?
    ensures var s := NextIndex(raw);
            SelfLinkedFooter(PutBufferEffect(raw, SerializeFrame(tick, s, |data|, data), s).region)
  {
    NextIndexAfterLatest(raw);
    hide PutBufferEffect, GetLatestFrameDataOrNull, FrameAt, TakeOneFrameFromBuffer, Overwrite, SerializeFrame, NextIndex, SelfLinkedFooter;
    var s := NextIndex(raw);
    var frame := SerializeFrame(tick, s, |data|, data);
    PutBufferOutcomes(raw, frame, s);
    if PutBufferEffect(raw, frame, s).region != raw {
      PartialAfterLatestSelfLinked(raw, s, frame[..MaxEnd(raw) - s]);
    }
  }

  /** The footer predicate survives every outcome of an insert of a
      non-empty body: a throw that wrote nothing, a frame written whole, a
      frame written at maxEnd, and a frame write that stopped after its first
      piece. */
  lemma InsertKeepsSelfLinked(raw: seq<byte>, data: seq<byte>, tick: int)
    requires IsRegion(raw) && MaxEnd(raw) >= HeaderSize && IsI64(tick) && IsInsertable(data) && |data| > 0
    requires SelfLinkedFooter(raw)
    ensures SelfLinkedFooter(InsertNewDataEffect(raw, data, tick).region)
  {
    hide InsertNewDataEffect, MakeHeaderAndPutBufferEffect, PutBufferEffect, PutLatestTickIndexEffect,
         GetLatestFrameDataOrNull, SerializeFrame, NextIndex, SelfLinkedFooter;
    InsertRegion(raw, data, tick);
    if GetLatestFrameDataOrNull(raw).Ok? {
      var s := NextIndex(raw);
      if PutBufferEffect(raw, SerializeFrame(tick, s, |data|, data), s).outcome.Ok? {
        PutSucceededSelfLinked(raw, data, tick);
      } else if GetLatestFrameDataOrNull(raw).value.None? {
        EmptyLatestAtZero(raw);
        PutFailedOnEmptySelfLinked(raw, data, tick);
      } else {
        PutFailedAfterLatestSelfLinked(raw, data, tick);
      }
    }
  }

  /** A footer frame that names itself is all the walk reads, so
      GetBodyAfterTick returns at most one frame. */
  lemma SelfLinkedReadsAtMostOne(raw: seq<byte>, tick: int)
    requires IsRegion(raw) && SelfLinkedFooter(raw)
    requires BodyAfterTick(raw, tick).Ok?
    ensures |BodyAfterTick(raw, tick).value| <= 1
  {
    SelfLinkedWalk(raw);
    var all := AllBodyAndTick(raw).value;
    assert |multiset(SortByTick(all))| == |multiset(all)|;
    assert |SortByTick(all)| == |all|;
  }

  /** One call of InsertNewData. */
  datatype Insert = Insert(data: seq<byte>, tick: int)

  predicate IsInsertOf(i: Insert) { IsI64(i.tick) && IsInsertable(i.data) }

  /** The region after the inserts in order; an insert that throws leaves
      what it wrote, and the next insert goes on from there. */
  ghost function InsertAll(raw: seq<byte>, inserts: seq<Insert>): (r: seq<byte>)
    requires IsRegion(raw) && forall k :: 0 <= k < |inserts| ==> IsInsertOf(inserts[k])
    ensures |r| == |raw|
    decreases |inserts|
  {
    if inserts == [] then raw
    else
      assert IsInsertOf(inserts[0]);
      InsertAll(InsertNewDataEffect(raw, inserts[0].data, inserts[0].tick).region, inserts[1..])
  }

  /** Inserts of non-empty bodies keep the footer predicate. */
  lemma {:induction false} InsertAllKeepsSelfLinked(raw: seq<byte>, inserts: seq<Insert>)
    requires IsRegion(raw) && MaxEnd(raw) >= HeaderSize && SelfLinkedFooter(raw)
    requires forall k :: 0 <= k < |inserts| ==> IsInsertOf(inserts[k]) && |inserts[k].data| > 0
    ensures SelfLinkedFooter(InsertAll(raw, inserts))
    decreases |inserts|
  {
    if inserts != [] {
      InsertKeepsSelfLinked(raw, inserts[0].data, inserts[0].tick);
      InsertAllKeepsSelfLinked(InsertNewDataEffect(raw, inserts[0].data, inserts[0].tick).region, inserts[1..]);
    }
  }

  /** A freshly mapped region written only by InsertNewData with non-empty
      bodies, whatever those inserts throw: GetBodyAfterTick returns at most
      one frame. */
  lemma InsertOnlyReadsAtMostOne(raw: seq<byte>, inserts: seq<Insert>, tick: int)
    requires IsRegion(raw) && MaxEnd(raw) >= HeaderSize
    requires forall i :: 0 <= i < |raw| ==> raw[i] == 0
    requires forall k :: 0 <= k < |inserts| ==> IsInsertOf(inserts[k]) && |inserts[k].data| > 0
    requires BodyAfterTick(InsertAll(raw, inserts), tick).Ok?
    ensures |BodyAfterTick(InsertAll(raw, inserts), tick).value| <= 1
  {
    ZeroedSelfLinked(raw);
    InsertAllKeepsSelfLinked(raw, inserts);
    SelfLinkedReadsAtMostOne(InsertAll(raw, inserts), tick);
  }

  /** An insert into a fresh region whose frame runs past maxEnd throws
      after writing the frame's first piece at index 0. */
  lemma FailedInsertEffect(raw: seq<byte>, data: seq<byte>, tick: int)
    requires IsRegion(raw) && HeaderSize <= MaxEnd(raw) && IsI64(tick) && IsInsertable(data)
    requires forall i :: 0 <= i < |raw| ==> raw[i] == 0
    requires MaxEnd(raw) < HeaderSize + |data| < 2 * MaxEnd(raw)
    ensures InsertNewDataEffect(raw, data, tick)
              == Effect(Err(RangeError), Overwrite(raw, 0, SerializeFrame(tick, 0, |data|, data)[..MaxEnd(raw)]))
  {
    hide TakeOneFrameFromBuffer, DeserializeFrame, ToInt32, ToInt64, SerializeFrame, Overwrite, PutBufferEffect,
         AllBodyAndTick, BodyAfterTick, FrameAt, GetLatestTickOrNull;
    ZeroedRegionReadsEmpty(raw);
    PutBufferWrapFault(raw, SerializeFrame(tick, 0, |data|, data), 0);
  }

  /** As written, an insert into a fresh region whose frame runs past maxEnd
      throws, yet its tick is published: the footer still names index 0,
      where the first piece of the new frame now lies, and the frame read
      there ends with the frame's own first bytes instead of the data's
      last ones. */
  lemma FailedInsertPublishesTick(raw: seq<byte>, data: seq<byte>, tick: int)
    requires IsRegion(raw) && HeaderSize <= MaxEnd(raw) && IsI64(tick) && IsInsertable(data)
    requires forall i :: 0 <= i < |raw| ==> raw[i] == 0
    requires MaxEnd(raw) < HeaderSize + |data| < 2 * MaxEnd(raw)
    ensures var e := InsertNewDataEffect(raw, data, tick);
            var m := MaxEnd(raw);
            var frame := SerializeFrame(tick, 0, |data|, data);
            && e.outcome == Err(RangeError)
            && GetLatestTickOrNull(e.region) == Ok(Some(tick))
            && GetLatestFrameDataOrNull(e.region)
                 == Ok(Some(LatestFrame(HeaderSize + |data|, 0, tick, data[..m - HeaderSize] + frame[..|frame| - m])))
  {
    hide TakeOneFrameFromBuffer, DeserializeFrame, ToInt32, ToInt64, SerializeFrame, Overwrite, PutBufferEffect,
         AllBodyAndTick, BodyAfterTick, FrameAt, InsertNewDataEffect, MakeHeaderAndPutBufferEffect;
    var m := MaxEnd(raw);
    var frame := SerializeFrame(tick, 0, |data|, data);
    ZeroedRegionReadsEmpty(raw);
    FailedInsertEffect(raw, data, tick);
    OverwriteKeepsFooter(raw, 0, frame[..m]);
    FailedWrapAtZero(raw, tick, data);
  }
}
