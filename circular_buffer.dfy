/** CircularBuffer: the ring buffer over a memory-mapped region, as a class
    owning the region's bytes. Every method is proved to have exactly the
    effect that the snapshot functions of RingRegion and RingWalk describe. */
module Ring {
  import opened Runtime
  import opened BitConverter
  import opened FrameCodec
  import opened RingRegion
  import opened RingWalk

  class CircularBuffer {
    /** The memory-mapped file, addressed directly through its view. */
    const region: array<byte>
    const bufferSize: int

    predicate Valid()
    {
      region.Length == bufferSize && FooterSize <= bufferSize <= I32Max
    }

    constructor (mappedFile: array<byte>, bufferSize: int)
      requires mappedFile.Length == bufferSize && FooterSize <= bufferSize <= I32Max
      ensures Valid() && region == mappedFile && this.bufferSize == bufferSize
    {
      region := mappedFile;
      this.bufferSize := bufferSize;
    }

    /** accessor.WriteArray(position, src, offset, count). */
    method WriteArray(position: int, src: seq<byte>, offset: int, count: int) returns (r: Result<()>)
      requires Valid()
      modifies region
      ensures Effect(r, region[..]) == WriteArrayEffect(old(region[..]), position, src, offset, count)
    {
      if position < 0 || offset < 0 || count < 0 || offset + count > |src| || position + count > region.Length {
        return Err(RangeError);
      }
      ghost var before := region[..];
      forall i | 0 <= i < count {
        region[position + i] := src[offset + i];
      }
      assert region[..] == Overwrite(before, position, src[offset..offset + count]);
      r := Ok(());
    }

    /** putBuffer. */
    method PutBuffer(putData: seq<byte>, startIndex: int) returns (r: Result<()>)
      requires Valid() && IsI32(startIndex) && |putData| <= I32Max
      modifies region
      ensures Effect(r, region[..]) == PutBufferEffect(old(region[..]), putData, startIndex)
    {
      hide WriteArrayEffect, Overwrite;
      var maxEndIndex := bufferSize - FooterSize;
      var length := |putData|;
      var overflowLength := Wrap32(Wrap32(startIndex + length) - maxEndIndex);
      if overflowLength >= maxEndIndex {
        return Err(OverflowError);
      }
      if overflowLength > 0 {
        var beforeLength := Wrap32(length - overflowLength);
        if !(0 <= beforeLength <= length) {
          return Err(RangeError);
        }
        r := WriteArray(startIndex, putData[..beforeLength], 0, beforeLength);
        if r.Err? {
          return;
        }
        r := WriteArray(0, putData[beforeLength..], beforeLength, overflowLength);
      } else {
        r := WriteArray(startIndex, putData, 0, length);
      }
    }

    /** putLatestTickIndex. */
    method PutLatestTickIndex(latestTickIndex: int)
      requires Valid() && IsI32(latestTickIndex)
      modifies region
      ensures region[..] == PutLatestTickIndexEffect(old(region[..]), latestTickIndex).region
    {
      var _ := WriteArray(bufferSize - FooterSize, GetBytes32(latestTickIndex), 0, FooterSize);
    }

    /** makeHeaderAndPutBuffer, with the clock reading `tick` as a parameter. */
    method MakeHeaderAndPutBuffer(bodyData: seq<byte>, tick: int) returns (r: Result<int>)
      requires Valid() && IsI64(tick) && IsInsertable(bodyData)
      modifies region
      ensures Effect(r, region[..]) == MakeHeaderAndPutBufferEffect(old(region[..]), bodyData, tick)
    {
      hide GetLatestFrameDataOrNull, SerializeFrame, PutBufferEffect;
      var latestFrame := GetLatestFrameDataOrNull(region[..]);
      if latestFrame.Err? {
        return Err(latestFrame.fault);
      }
      var startIndex := 0;
      if latestFrame.value.Some? {
        startIndex := Wrap32(Wrap32(latestFrame.value.value.tickIndex + latestFrame.value.value.frameLength) + 1);
      }
      var put := PutBuffer(SerializeFrame(tick, startIndex, |bodyData|, bodyData), startIndex);
      r := if put.Ok? then Ok(startIndex) else Err(put.fault);
    }

    /** InsertNewData, with the clock reading `tick` as a parameter. */
    method InsertNewData(data: seq<byte>, tick: int) returns (r: Result<()>)
      requires Valid() && IsI64(tick) && IsInsertable(data)
      modifies region
      ensures Effect(r, region[..]) == InsertNewDataEffect(old(region[..]), data, tick)
    {
      var startIndex := MakeHeaderAndPutBuffer(data, tick);
      if startIndex.Err? {
        return Err(startIndex.fault);
      }
      PutLatestTickIndex(startIndex.value);
      r := Ok(());
    }

    /** getAllBodyAndTick: the latest frame, then the frames reached through
        before indices until a tick repeats. */
    method GetAllBodyAndTick() returns (r: Result<seq<Entry>>)
      requires Valid()
      ensures r == AllBodyAndTick(region[..])
    {
      var raw := region[..];
      hide TakeOneFrameFromBuffer, DeserializeFrame, GetLatestTickIndex, WalkReady, WalkFrom;
      var latestTickIndex := GetLatestTickIndex(raw);
      var latestFrameRaw := TakeOneFrameFromBuffer(raw, latestTickIndex);
      if latestFrameRaw.Err? {
        return Err(latestFrameRaw.fault);
      }
      var latestFrame := DeserializeFrame(latestFrameRaw.value);
      if latestFrame.Err? {
        return Err(latestFrame.fault);
      }
      if latestFrame.value.bodyLength == 0 {
        return Ok([]);
      }
      var retData := [Entry(latestFrame.value.tick, latestFrame.value.body)];
      if latestTickIndex == 0 && latestFrame.value.beforeTickIndex == 0 {
        return Ok(retData);
      }
      WalkReadyStart(raw, latestTickIndex, latestFrame.value);
      r := CollectBefore(raw, latestFrame.value.beforeTickIndex, retData, {latestTickIndex});
    }

    /** The loop of getAllBodyAndTick: from `beforeTickIndex`, reads frame
        after frame through before indices, appending each, until a frame's
        tick has been collected already; a read that throws ends it. */
    method CollectBefore(raw: seq<byte>, index: int, collected: seq<Entry>, ghost seen: set<int>)
      returns (r: Result<seq<Entry>>)
      requires IsRegion(raw) && IsI32(index) && WalkReady(raw, seen, collected)
      ensures r == WalkFrom(raw, index, collected, seen)
    {
      hide TakeOneFrameFromBuffer, DeserializeFrame;
      var beforeTickIndex := index;
      var retData := collected;
      ghost var visited := seen;
      while true
        invariant IsI32(beforeTickIndex) && WalkReady(raw, visited, retData)
        invariant WalkFrom(raw, beforeTickIndex, retData, visited) == WalkFrom(raw, index, collected, seen)
        decreases |raw| - |visited|
      {
        BoundedSetSize(visited, MaxEnd(raw) + 1);
        var frameRaw := TakeOneFrameFromBuffer(raw, beforeTickIndex);
        if frameRaw.Err? {
          return Err(frameRaw.fault);
        }
        var frame := DeserializeFrame(frameRaw.value);
        if frame.Err? {
          return Err(frame.fault);
        }
        if HasTick(retData, frame.value.tick) {
          break;
        }
        WalkReadyExtends(raw, visited, retData, beforeTickIndex, frame.value);
        visited := visited + {beforeTickIndex};
        BoundedSetSize(visited, MaxEnd(raw) + 1);
        beforeTickIndex := frame.value.beforeTickIndex;
        retData := retData + [Entry(frame.value.tick, frame.value.body)];
      }
      r := Ok(retData);
    }

    /** GetBodyAfterTick: the collected frames ordered by tick, keeping those
        newer than `tick`. */
    method GetBodyAfterTick(tick: int) returns (r: Result<seq<Entry>>)
      requires Valid()
      ensures r == BodyAfterTick(region[..], tick)
    {
      var all := GetAllBodyAndTick();
      if all.Err? {
        return Err(all.fault);
      }
      r := Ok(AfterTick(SortByTick(all.value), tick));
    }
  }
}
