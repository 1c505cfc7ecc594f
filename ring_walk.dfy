/** Reading every frame of the buffer: the backward walk of getAllBodyAndTick
    and the ordering and filtering of GetBodyAfterTick, as functions of a
    snapshot of the region. */
module RingWalk {
  import opened Runtime
  import opened FrameCodec
  import opened RingRegion

  /** One (tick, body) pair returned to readers. */
  datatype Entry = Entry(tick: int, body: seq<byte>)

  /** `retData.Any(x => x.tick == tick)`. */
  predicate HasTick(entries: seq<Entry>, tick: int)
  {
    exists k :: 0 <= k < |entries| && entries[k].tick == tick
  }

  predicate DistinctTicks(entries: seq<Entry>)
  {
    forall i, j :: 0 <= i < j < |entries| ==> entries[i].tick != entries[j].tick
  }

  /** Every start index the walk has read holds a readable frame whose tick
      has been collected. */
  ghost predicate WalkReady(raw: seq<byte>, visited: set<int>, collected: seq<Entry>)
    requires IsRegion(raw)
  {
    forall j :: j in visited ==> IsI32(j) && FrameAt(raw, j).Ok? && HasTick(collected, FrameAt(raw, j).value.tick)
  }

  /** A set of indices within [0, n) has at most n elements. */
  lemma {:induction false} BoundedSetSize(s: set<int>, n: nat)
    requires forall j :: j in s ==> 0 <= j < n
    ensures |s| <= n
    decreases n
  {
    if n > 0 {
      var s' := s - {n - 1};
      BoundedSetSize(s', n - 1);
    } else {
      assert forall j :: j !in s;
      assert s == {};
    }
  }

  lemma WalkReadyExtends(raw: seq<byte>, visited: set<int>, collected: seq<Entry>, index: int, f: Frame)
    requires IsRegion(raw) && IsI32(index)
    requires WalkReady(raw, visited, collected)
    requires FrameAt(raw, index) == Ok(f)
    ensures WalkReady(raw, visited + {index}, collected + [Entry(f.tick, f.body)])
  {
    var collected' := collected + [Entry(f.tick, f.body)];
    forall j | j in visited + {index}
      ensures IsI32(j) && FrameAt(raw, j).Ok? && HasTick(collected', FrameAt(raw, j).value.tick)
    {
      if j == index {
        assert collected'[|collected|].tick == f.tick;
      } else {
        var k :| 0 <= k < |collected| && collected[k].tick == FrameAt(raw, j).value.tick;
        assert collected'[k] == collected[k];
      }
    }
  }

  /** The walk starts ready: the latest frame read and collected. */
  lemma WalkReadyStart(raw: seq<byte>, index: int, f: Frame)
    requires IsRegion(raw) && IsI32(index) && FrameAt(raw, index) == Ok(f)
    ensures WalkReady(raw, {index}, [Entry(f.tick, f.body)])
  {
    assert [Entry(f.tick, f.body)][0].tick == f.tick;
  }

  /** The loop of getAllBodyAndTick from start index `index`, having collected
      `collected`: read the frame there; stop when its tick was already
      collected, otherwise collect it and continue at its before index. A
      failed read throws. The walk ends because each index it reads lies in
      [0, maxEnd] and a repeated index gives a repeated tick. */
  ghost function WalkFrom(raw: seq<byte>, index: int, collected: seq<Entry>, visited: set<int>): (r: Result<seq<Entry>>)
    requires IsRegion(raw) && IsI32(index)
    requires WalkReady(raw, visited, collected)
    ensures r.Ok? ==> |collected| <= |r.value| && r.value[..|collected|] == collected
    decreases |raw| - |visited|
  {
    BoundedSetSize(visited, MaxEnd(raw) + 1);
    match FrameAt(raw, index)
    case Err(e) => Err(e)
    case Ok(f) =>
      if HasTick(collected, f.tick) then Ok(collected)
      else
        assert index !in visited;
        WalkReadyExtends(raw, visited, collected, index, f);
        BoundedSetSize(visited + {index}, MaxEnd(raw) + 1);
        var rest := WalkFrom(raw, f.beforeTickIndex, collected + [Entry(f.tick, f.body)], visited + {index});
        assert rest.Ok? ==> rest.value[..|collected|] == (collected + [Entry(f.tick, f.body)])[..|collected|];
        rest
  }

  /** getAllBodyAndTick: empty when the latest frame has body length 0; just
      the latest frame when it sits at index 0 with before index 0; otherwise
      the latest frame followed by the walk from its before index. */
  ghost function AllBodyAndTick(raw: seq<byte>): (r: Result<seq<Entry>>)
    requires IsRegion(raw)
    ensures FrameAt(raw, GetLatestTickIndex(raw)).Err? ==> r == Err(FrameAt(raw, GetLatestTickIndex(raw)).fault)
    ensures r.Ok? ==> var latest := FrameAt(raw, GetLatestTickIndex(raw)).value;
                      && (r.value == [] <==> latest.bodyLength == 0)
                      && (r.value != [] ==> r.value[0] == Entry(latest.tick, latest.body))
  {
    var latestTickIndex := GetLatestTickIndex(raw);
    match FrameAt(raw, latestTickIndex)
    case Err(e) => Err(e)
    case Ok(latestFrame) =>
      if latestFrame.bodyLength == 0 then Ok([])
      else if latestTickIndex == 0 && latestFrame.beforeTickIndex == 0 then Ok([Entry(latestFrame.tick, latestFrame.body)])
      else
        var collected := [Entry(latestFrame.tick, latestFrame.body)];
        assert collected[0].tick == latestFrame.tick;
        WalkFrom(raw, latestFrame.beforeTickIndex, collected, {latestTickIndex})
  }

  predicate SortedByTick(entries: seq<Entry>)
  {
    forall i, j :: 0 <= i < j < |entries| ==> entries[i].tick <= entries[j].tick
  }

  /** A tick found in the tail of a sequence is found in the sequence. */
  lemma HasTickTail(entries: seq<Entry>, tick: int)
    requires entries != []
    ensures HasTick(entries[1..], tick) ==> HasTick(entries, tick)
  {
    if HasTick(entries[1..], tick) {
      var k :| 0 <= k < |entries[1..]| && entries[1..][k].tick == tick;
      assert entries[k + 1].tick == tick;
    }
  }

  /** The head of a sorted (or tick-distinct) sequence against a sequence
      whose entries come from its tail or are newer than the head. */
  lemma HeadAgainstTail(entries: seq<Entry>, rest: seq<Entry>)
    requires entries != []
    requires forall x :: x in rest ==> x in entries[1..] || x.tick > entries[0].tick
    ensures SortedByTick(entries) ==> forall i :: 0 <= i < |rest| ==> entries[0].tick <= rest[i].tick
    ensures DistinctTicks(entries) ==> forall i :: 0 <= i < |rest| ==> entries[0].tick != rest[i].tick
  {
    forall i | 0 <= i < |rest|
      ensures rest[i].tick > entries[0].tick || exists j :: 1 <= j < |entries| && entries[j] == rest[i]
    {
      if rest[i].tick <= entries[0].tick {
        assert rest[i] in entries[1..];
        var j :| 0 <= j < |entries[1..]| && entries[1..][j] == rest[i];
        assert entries[j + 1] == rest[i];
      }
    }
  }

  /** Putting an entry in front of a sequence keeps it sorted or tick-distinct
      when the entry's tick is below, or different from, every tick there. */
  lemma Cons(x: Entry, rest: seq<Entry>)
    ensures SortedByTick(rest) && (forall i :: 0 <= i < |rest| ==> x.tick <= rest[i].tick) ==> SortedByTick([x] + rest)
    ensures DistinctTicks(rest) && (forall i :: 0 <= i < |rest| ==> x.tick != rest[i].tick) ==> DistinctTicks([x] + rest)
  {
    var r := [x] + rest;
    assert forall i :: 1 <= i < |r| ==> r[i] == rest[i - 1];
  }

  /** Inserts `e` into sorted `entries` ahead of every entry whose tick is not
      smaller, so entries with equal ticks keep their input order. */
  function InsertByTick(e: Entry, entries: seq<Entry>): (r: seq<Entry>)
    requires SortedByTick(entries)
    ensures SortedByTick(r)
    ensures multiset(r) == multiset(entries) + multiset{e}
  {
    if entries == [] || e.tick <= entries[0].tick then
      Cons(e, entries);
      [e] + entries
    else
      var rest := InsertByTick(e, entries[1..]);
      assert entries == [entries[0]] + entries[1..];
      assert forall x :: x in rest ==> x in multiset(rest);
      HeadAgainstTail(entries, rest);
      Cons(entries[0], rest);
      [entries[0]] + rest
  }

  /** `OrderBy(x => x.tick)`: a stable sort by tick. */
  function SortByTick(entries: seq<Entry>): (r: seq<Entry>)
    ensures SortedByTick(r)
    ensures multiset(r) == multiset(entries)
  {
    if entries == [] then []
    else
      assert entries == [entries[0]] + entries[1..];
      InsertByTick(entries[0], SortByTick(entries[1..]))
  }

  /** `Where(x => x.tick > tick)`: keeps, in order, the entries newer than `tick`. */
  function AfterTick(entries: seq<Entry>, tick: int): (r: seq<Entry>)
    ensures forall e :: e in r <==> e in entries && e.tick > tick
    ensures |r| <= |entries|
  {
    if entries == [] then []
    else
      var rest := AfterTick(entries[1..], tick);
      assert forall e :: e in entries <==> e == entries[0] || e in entries[1..];
      if entries[0].tick > tick then [entries[0]] + rest else rest
  }

  /** Inserting an entry whose tick is new keeps the ticks distinct. */
  lemma {:induction false} InsertByTickDistinct(e: Entry, entries: seq<Entry>)
    requires SortedByTick(entries) && DistinctTicks(entries) && !HasTick(entries, e.tick)
    ensures DistinctTicks(InsertByTick(e, entries))
  {
    if entries == [] || e.tick <= entries[0].tick {
      assert forall i :: 0 <= i < |entries| ==> e.tick != entries[i].tick;
      Cons(e, entries);
    } else {
      var rest := InsertByTick(e, entries[1..]);
      HasTickTail(entries, e.tick);
      assert DistinctTicks(entries[1..]) by {
        assert forall i :: 0 <= i < |entries| - 1 ==> entries[1..][i] == entries[i + 1];
      }
      InsertByTickDistinct(e, entries[1..]);
      assert forall x :: x in rest ==> x in multiset(rest);
      HeadAgainstTail(entries, rest);
      Cons(entries[0], rest);
    }
  }

  /** Sorting keeps distinct ticks distinct. */
  lemma {:induction false} SortByTickDistinct(entries: seq<Entry>)
    requires DistinctTicks(entries)
    ensures DistinctTicks(SortByTick(entries))
  {
    if entries != [] {
      assert entries == [entries[0]] + entries[1..];
      var rest := SortByTick(entries[1..]);
      assert DistinctTicks(entries[1..]) by {
        assert forall i :: 0 <= i < |entries| - 1 ==> entries[1..][i] == entries[i + 1];
      }
      SortByTickDistinct(entries[1..]);
      assert forall x :: x in rest ==> x in multiset(rest);
      HeadAgainstTail(entries, rest);
      forall k | 0 <= k < |rest| ensures rest[k].tick != entries[0].tick {
      }
      assert !HasTick(rest, entries[0].tick);
      InsertByTickDistinct(entries[0], rest);
    }
  }

  /** Filtering keeps a sorted sequence sorted and distinct ticks distinct. */
  lemma {:induction false} AfterTickKeeps(entries: seq<Entry>, tick: int)
    ensures SortedByTick(entries) ==> SortedByTick(AfterTick(entries, tick))
    ensures DistinctTicks(entries) ==> DistinctTicks(AfterTick(entries, tick))
  {
    if entries != [] {
      var rest := AfterTick(entries[1..], tick);
      assert forall i :: 0 <= i < |entries| - 1 ==> entries[1..][i] == entries[i + 1];
      AfterTickKeeps(entries[1..], tick);
      HeadAgainstTail(entries, rest);
      Cons(entries[0], rest);
    }
  }


  /** GetBodyAfterTick: every collected entry newer than `tick`, in ascending
      tick order. */
  ghost function BodyAfterTick(raw: seq<byte>, tick: int): (r: Result<seq<Entry>>)
    requires IsRegion(raw)
    ensures r.Ok? <==> AllBodyAndTick(raw).Ok?
    ensures r.Ok? ==> SortedByTick(r.value)
    ensures r.Ok? ==> forall e :: e in r.value <==> e in AllBodyAndTick(raw).value && e.tick > tick
  {
    var all :- AllBodyAndTick(raw);
    var sorted := SortByTick(all);
    AfterTickKeeps(sorted, tick);
    assert forall e :: e in sorted <==> e in all by {
      assert forall e :: e in sorted <==> e in multiset(sorted);
      assert forall e :: e in all <==> e in multiset(all);
    }
    Ok(AfterTick(sorted, tick))
  }
}
