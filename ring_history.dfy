/** What readers of the circular buffer get back: the frames the backward walk
    collects, the ordering of GetBodyAfterTick, and what an empty region
    reads as. */
module RingHistory {
  import opened Runtime
  import opened BitConverter
  import opened FrameCodec
  import opened RingRegion
  import opened RingWalk

  /** `e` is the (tick, body) of some frame readable in the region. */
  ghost predicate FromRegion(raw: seq<byte>, e: Entry)
    requires IsRegion(raw)
  {
    exists i :: IsI32(i) && FrameAt(raw, i).Ok? && e == Entry(FrameAt(raw, i).value.tick, FrameAt(raw, i).value.body)
  }

  /** Appending an entry with a new tick keeps the ticks distinct. */
  lemma Snoc(entries: seq<Entry>, x: Entry)
    requires DistinctTicks(entries) && !HasTick(entries, x.tick)
    ensures DistinctTicks(entries + [x])
  {
    var r := entries + [x];
    assert forall i :: 0 <= i < |entries| ==> r[i] == entries[i];
  }

  /** A walk that succeeds only appends to what it has collected, each entry
      it appends comes from a frame of the region, and it never collects a
      tick twice. */
  lemma {:induction false} WalkFromExtends(raw: seq<byte>, index: int, collected: seq<Entry>, visited: set<int>)
    requires IsRegion(raw) && IsI32(index) && WalkReady(raw, visited, collected)
    requires WalkFrom(raw, index, collected, visited).Ok?
    ensures var r := WalkFrom(raw, index, collected, visited).value;
            && |collected| <= |r| && r[..|collected|] == collected
            && (DistinctTicks(collected) ==> DistinctTicks(r))
            && ((forall e :: e in collected ==> FromRegion(raw, e)) ==> forall e :: e in r ==> FromRegion(raw, e))
    decreases |raw| - |visited|
  {
    hide FrameAt, TakeOneFrameFromBuffer, DeserializeFrame;
    BoundedSetSize(visited, MaxEnd(raw) + 1);
    var f := FrameAt(raw, index).value;
    if !HasTick(collected, f.tick) {
      var x := Entry(f.tick, f.body);
      WalkReadyExtends(raw, visited, collected, index, f);
      BoundedSetSize(visited + {index}, MaxEnd(raw) + 1);
      WalkFromExtends(raw, f.beforeTickIndex, collected + [x], visited + {index});
      var r := WalkFrom(raw, index, collected, visited).value;
      assert r == WalkFrom(raw, f.beforeTickIndex, collected + [x], visited + {index}).value;
      assert (collected + [x])[..|collected|] == collected;
      if DistinctTicks(collected) {
        Snoc(collected, x);
      }
      assert FromRegion(raw, x);
    }
  }

  /** getAllBodyAndTick, when it returns: nothing exactly when the latest
      frame has body length 0, otherwise the latest frame first; every entry
      read from a frame of the region, no tick twice. */
  lemma AllBodyAndTickShape(raw: seq<byte>)
    requires IsRegion(raw) && AllBodyAndTick(raw).Ok?
    ensures var latest := FrameAt(raw, GetLatestTickIndex(raw));
            var r := AllBodyAndTick(raw).value;
            && latest.Ok?
            && (r == [] <==> latest.value.bodyLength == 0)
            && (r != [] ==> r[0] == Entry(latest.value.tick, latest.value.body))
            && DistinctTicks(r)
            && (forall e :: e in r ==> FromRegion(raw, e))
  {
    hide FrameAt, TakeOneFrameFromBuffer, DeserializeFrame, WalkReady, WalkFrom;
    var L := GetLatestTickIndex(raw);
    var f := FrameAt(raw, L).value;
    var first := Entry(f.tick, f.body);
    assert FromRegion(raw, first);
    if f.bodyLength != 0 && !(L == 0 && f.beforeTickIndex == 0) {
      WalkReadyStart(raw, L, f);
      WalkFromExtends(raw, f.beforeTickIndex, [first], {L});
    }
  }

  /** A latest frame whose before index is its own start index (as every
      frame makeHeaderAndPutBuffer writes is) hides every other frame: the
      walk reads it again, finds its tick collected and stops. */
  lemma SelfLinkedWalk(raw: seq<byte>)
    requires IsRegion(raw)
    requires FrameAt(raw, GetLatestTickIndex(raw)).Ok?
    requires FrameAt(raw, GetLatestTickIndex(raw)).value.beforeTickIndex == GetLatestTickIndex(raw)
    ensures var f := FrameAt(raw, GetLatestTickIndex(raw)).value;
            AllBodyAndTick(raw) == Ok(if f.bodyLength == 0 then [] else [Entry(f.tick, f.body)])
  {
    var L := GetLatestTickIndex(raw);
    var f := FrameAt(raw, L).value;
    if f.bodyLength != 0 && L != 0 {
      var collected := [Entry(f.tick, f.body)];
      assert collected[0].tick == f.tick;
      assert HasTick(collected, f.tick);
    }
  }

  /** GetBodyAfterTick: exactly the collected entries newer than `tick`, in
      strictly increasing tick order; it throws exactly when the walk does. */
  lemma {:induction false} BodyAfterTickSpec(raw: seq<byte>, tick: int)
    requires IsRegion(raw)
    ensures BodyAfterTick(raw, tick).Ok? <==> AllBodyAndTick(raw).Ok?
    ensures BodyAfterTick(raw, tick).Ok? ==>
              var r := BodyAfterTick(raw, tick).value;
              && SortedByTick(r) && DistinctTicks(r)
              && forall e :: e in r <==> e in AllBodyAndTick(raw).value && e.tick > tick
  {
    if AllBodyAndTick(raw).Ok? {
      var all := AllBodyAndTick(raw).value;
      AllBodyAndTickShape(raw);
      SortByTickDistinct(all);
      var sorted := SortByTick(all);
      assert forall e :: e in sorted <==> e in all by {
        assert forall e :: e in sorted <==> e in multiset(sorted);
        assert forall e :: e in all <==> e in multiset(all);
      }
      AfterTickKeeps(sorted, tick);
    }
  }

  /** A latest frame of body length 0 makes the buffer read as empty: no
      latest tick, no latest frame, no entries after any tick. */
  lemma EmptyLatestReadsEmpty(raw: seq<byte>)
    requires IsRegion(raw)
    requires FrameAt(raw, GetLatestTickIndex(raw)).Ok? && FrameAt(raw, GetLatestTickIndex(raw)).value.bodyLength == 0
    ensures GetLatestTickOrNull(raw) == Ok(None)
    ensures GetLatestFrameDataOrNull(raw) == Ok(None)
    ensures AllBodyAndTick(raw) == Ok([])
    ensures forall tick :: BodyAfterTick(raw, tick) == Ok([])
  {
  }

  /** A freshly mapped region is all zero bytes: the footer names index 0,
      the frame there has body length 0, and every reader sees an empty
      buffer. */
  lemma ZeroedRegionReadsEmpty(raw: seq<byte>)
    requires IsRegion(raw) && MaxEnd(raw) >= HeaderSize
    requires forall i :: 0 <= i < |raw| ==> raw[i] == 0
    ensures GetLatestTickIndex(raw) == 0
    ensures GetLatestTickOrNull(raw) == Ok(None)
    ensures GetLatestFrameDataOrNull(raw) == Ok(None)
    ensures AllBodyAndTick(raw) == Ok([])
    ensures forall tick :: BodyAfterTick(raw, tick) == Ok([])
  {
    LeValueOfZeros(raw[|raw| - FooterSize..][..4]);
    assert GetLatestTickIndex(raw) == 0;
    var lengthField := raw[..HeaderSize][12..16];
    assert forall i :: 0 <= i < 4 ==> lengthField[i] == raw[12 + i];
    assert lengthField[..4] == lengthField;
    LeValueOfZeros(lengthField);
    assert TakeOneFrameFromBuffer(raw, 0) == Ok(raw[..HeaderSize]);
    assert FrameAt(raw, 0).value.bodyLength == 0;
  }
}
