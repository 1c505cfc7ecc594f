# MessagePipe shared-memory transport: the ring buffer and the message envelope

This project models the core of MessagePipe's shared-memory transport in
Dafny and proves properties of it.

- **The circular buffer** (`CircularBuffer`). It keeps frames in a
  memory-mapped region of `bufferSize` bytes.
  - The ring area is `[0, bufferSize - 4)`. Its end is called maxEnd.
  - The last 4 bytes are a footer. They hold the start index of the most
    recently inserted frame.
  - A frame is `tick (8) | before index (4) | body length (4) | body`. All
    integers are little-endian.
  - `InsertNewData` writes a frame one byte past the latest frame (at 0
    when the buffer reads as empty), and then rewrites the footer.
  - The start index is never brought back into the ring. A frame that runs
    past maxEnd lands whole at 0 only when it starts exactly at maxEnd. From
    any other start inside the ring, the write throws after its first piece
    (see Findings).
  - Readers decode the frame the footer names. `getAllBodyAndTick` follows
    before indices backwards until a tick repeats. `GetBodyAfterTick` sorts
    what it collects by tick and keeps the entries newer than a given tick.
- **The envelope**. `PublishAsync` sends `CRC32(len ‖ msg) ‖ len ‖ msg`,
  where `len` is a 4-byte int32. The subscriber checks the hash, reads the
  length, slices the message out and hands it to its handler, once per pass
  of its polling loop.

## Layout

- **Runtime** (`runtime.dfy`):
  - C# exceptions become `Result` values: `OverflowError`, and `RangeError`
    for slicing and argument errors.
  - `Slice` models C# range slicing.
  - `Wrap32` models unchecked int32 arithmetic.
- **BitConverter** (`bit_converter.dfy`): little-endian `ToInt32`, `ToInt64`
  and `GetBytes`, with round trips in both directions.
- **FrameCodec** (`frame_codec.dfy`): `serializeFrame` and `deserializeFrame`.
- **RingRegion** (`ring_region.dfy`): the public methods of `CircularBuffer`
  and its private helpers that read or write the region (the footer,
  `takeOneFrameFromBuffer`, `putBuffer`, `makeHeaderAndPutBuffer`,
  `getLatestFrameDataOrNull`), each as a function of a snapshot of the
  region. The frame codec is in FrameCodec, `getAllBodyAndTick` and
  `GetBodyAfterTick` in RingWalk.
  - A helper that writes returns an `Effect`: its outcome, plus the bytes of
    the region afterwards.
  - An exception thrown part-way leaves the bytes already written in place.
- **RingWalk** (`ring_walk.dfy`): the backward walk of `getAllBodyAndTick`,
  and the stable sort and filter of `GetBodyAfterTick`.
  - Termination is proved from the set of start indices visited. A revisited
    index rereads a tick already collected.
- **Ring** (`circular_buffer.dfy`): the class `CircularBuffer`. It owns the
  region as an `array<byte>`.
  - Each method is proved to have exactly the effect of its snapshot
    function.
  - `getAllBodyAndTick` keeps its `while (true)` loop, in `CollectBefore`.
- **RingProperties**, **RingHistory**, **RingInsert**: what the buffer
  promises, and where it falls short.
- **RingInsertOnly** (`ring_insert_only.dfy`): a buffer written only by
  `InsertNewData`. The frame the footer names stays unreadable or
  self-linked, whatever the inserts throw, so readers see at most one frame.
- **RingIntended** (`ring_intended.dfy`): corrected versions of the three
  faulty lines, proved to have the behaviour that the frame layout and the
  backward walk imply.
- **Publisher** and **Subscriber**: the envelope, and one pass of the
  subscriber's polling loop, as the class `Subscription`.

The key given to `PublishAsync` only names the shared-memory channel,
through the UTF-8 decoding of its serialized bytes
(`SharedMemoryPublisher.cs:25, 31`). The envelope holds the hash, the length
and the message, and no key (`SharedMemoryPublisher.cs:27-29`).

## Model

| member | source | states |
|---|---|---|
| BitConverter.ToInt32 | MessagePipe.SharedMemory/InternalClasses/CircularBuffer.cs:294-301 | the first four bytes decode to a value in the int32 range |
| BitConverter.GetBytes32 | MessagePipe.SharedMemory/InternalClasses/CircularBuffer.cs:309-315 | the 4-byte encoding of an int32 decodes back to it |
| BitConverter.ToInt64 | MessagePipe.SharedMemory/InternalClasses/CircularBuffer.cs:246-247 | the first eight bytes decode to a value in the int64 range; with GetBytes64OfToInt64, every eight bytes are the encoding of that value |
| BitConverter.GetBytes64 | MessagePipe.SharedMemory/InternalClasses/CircularBuffer.cs:257-258 | the 8-byte encoding of an int64 decodes back to it |
| BitConverter.LeBytesOfValue | MessagePipe.SharedMemory/InternalClasses/CircularBuffer.cs:246-247 | re-encoding the unsigned value of a byte string gives the string back |
| BitConverter.GetBytes32OfToInt32 | MessagePipe.SharedMemory/InternalClasses/CircularBuffer.cs:294-301 | every four bytes are the encoding of the int32 they decode to |
| BitConverter.GetBytes64OfToInt64 | MessagePipe.SharedMemory/InternalClasses/CircularBuffer.cs:246-247 | every eight bytes are the encoding of the int64 they decode to |
| FrameCodec.DeserializeFrame | MessagePipe.SharedMemory/InternalClasses/CircularBuffer.cs:246-247 | decoding succeeds exactly on 16 bytes or more; the fields are in the int64/int32 range; the body is everything after the header |
| FrameCodec.SerializeFrame | MessagePipe.SharedMemory/InternalClasses/CircularBuffer.cs:257-258 | the encoding is 16 + \|body\| bytes and decodes to exactly the tick, before index, body length and body it was built from |
| FrameCodec.DeserializeThenSerialize | MessagePipe.SharedMemory/InternalClasses/CircularBuffer.cs:246-258 | any string of at least 16 bytes is the encoding of the frame it decodes to |
| RingRegion.Overwrite | MessagePipe.SharedMemory/InternalClasses/CircularBuffer.cs:185 | a write changes exactly the bytes of its range, to the data, and keeps every other byte |
| RingRegion.WriteArrayEffect | MessagePipe.SharedMemory/InternalClasses/CircularBuffer.cs:179-185 | the accessor's WriteArray succeeds exactly when its arguments are non-negative and both ranges fit; otherwise it throws and writes nothing |
| RingRegion.PutBufferEffect | MessagePipe.SharedMemory/InternalClasses/CircularBuffer.cs:159-189 | the region keeps its size (what the write does is RingProperties.PutBufferOutcomes) |
| RingRegion.TakeOneFrameFromBuffer | MessagePipe.SharedMemory/InternalClasses/CircularBuffer.cs:198-239 | a frame is read only at a start index in [0, maxEnd] |
| RingRegion.GetLatestTickIndex | MessagePipe.SharedMemory/InternalClasses/CircularBuffer.cs:294-301 | the footer read as an int32, whose encoding is the footer's bytes |
| RingRegion.PutLatestTickIndexEffect | MessagePipe.SharedMemory/InternalClasses/CircularBuffer.cs:309-315 | writing the footer succeeds, keeps the whole ring area, and the footer then reads back as the index written |
| RingRegion.FrameAt | MessagePipe.SharedMemory/InternalClasses/CircularBuffer.cs:53-55 | a frame that reads lies in [0, maxEnd] and has int64/int32 header fields |
| RingRegion.GetLatestTickOrNull | MessagePipe.SharedMemory/InternalClasses/CircularBuffer.cs:50-61 | throws exactly when getLatestFrameDataOrNull does, is null exactly when it is, and otherwise gives the tick of that latest frame |
| RingRegion.GetLatestFrameDataOrNull | MessagePipe.SharedMemory/InternalClasses/CircularBuffer.cs:77-88 | the latest frame's length and start index are int32 values |
| RingRegion.NextStartIndex | MessagePipe.SharedMemory/InternalClasses/CircularBuffer.cs:141-144 | the next start index is an int32 value |
| RingRegion.MakeHeaderAndPutBufferEffect | MessagePipe.SharedMemory/InternalClasses/CircularBuffer.cs:136-149 | the region keeps its size, and the start index returned is an int32 value |
| RingRegion.InsertNewDataEffect | MessagePipe.SharedMemory/InternalClasses/CircularBuffer.cs:67-71 | the region keeps its size |
| RingWalk.WalkReadyExtends | MessagePipe.SharedMemory/InternalClasses/CircularBuffer.cs:118-122 | collecting a frame read at a new index keeps "every visited index holds a frame whose tick is collected" |
| RingWalk.WalkReadyStart | MessagePipe.SharedMemory/InternalClasses/CircularBuffer.cs:105 | the walk starts with the latest frame's index visited and its tick collected |
| RingWalk.WalkFrom | MessagePipe.SharedMemory/InternalClasses/CircularBuffer.cs:112-123 | a walk that completes returns what it had collected, followed by what it collects |
| RingWalk.AllBodyAndTick | MessagePipe.SharedMemory/InternalClasses/CircularBuffer.cs:93-126 | throws the read's exception when the latest frame cannot be read; when it returns, it returns nothing exactly when the latest frame has body length 0, and otherwise starts with the latest frame |
| RingWalk.BodyAfterTick | MessagePipe.SharedMemory/InternalClasses/CircularBuffer.cs:42-43 | returns exactly when getAllBodyAndTick does; the result is sorted by tick and holds exactly the collected entries newer than the tick |
| RingWalk.InsertByTick | MessagePipe.SharedMemory/InternalClasses/CircularBuffer.cs:43 | inserting into a tick-sorted sequence keeps it sorted and adds exactly that entry |
| RingWalk.SortByTick | MessagePipe.SharedMemory/InternalClasses/CircularBuffer.cs:43 | OrderBy(tick) returns a sorted permutation of its input |
| RingWalk.AfterTick | MessagePipe.SharedMemory/InternalClasses/CircularBuffer.cs:43 | Where(tick > t) keeps exactly the entries whose tick is greater than t |
| RingWalk.InsertByTickDistinct | MessagePipe.SharedMemory/InternalClasses/CircularBuffer.cs:43 | inserting an entry with a new tick keeps the ticks distinct |
| RingWalk.SortByTickDistinct | MessagePipe.SharedMemory/InternalClasses/CircularBuffer.cs:43 | sorting keeps distinct ticks distinct |
| RingWalk.AfterTickKeeps | MessagePipe.SharedMemory/InternalClasses/CircularBuffer.cs:43 | filtering keeps a sorted sequence sorted and distinct ticks distinct |
| RingProperties.PutBufferOverflowIff | MessagePipe.SharedMemory/InternalClasses/CircularBuffer.cs:162-171 | putBuffer throws OverflowException exactly when start + length - maxEnd >= maxEnd, and then writes nothing |
| RingProperties.PutBufferOutcomes | MessagePipe.SharedMemory/InternalClasses/CircularBuffer.cs:159-189 | every call of putBuffer ends in one of four ways: it throws having written nothing; it writes the data whole before maxEnd; it starts at maxEnd and writes the data whole at 0; or it starts inside the ring, runs past maxEnd, writes only [start, maxEnd) and throws RangeError |
| RingProperties.PutBufferContiguous | MessagePipe.SharedMemory/InternalClasses/CircularBuffer.cs:183-186 | a write ending by maxEnd succeeds, puts the data at [start, start + length) and keeps every other byte, the footer included |
| RingProperties.PutBufferWrapFault | MessagePipe.SharedMemory/InternalClasses/CircularBuffer.cs:174-181 | a write that runs past maxEnd from inside the ring writes its first piece and then throws |
| RingProperties.PutBufferFromMaxEnd | MessagePipe.SharedMemory/InternalClasses/CircularBuffer.cs:174-181 | from start index maxEnd the first piece is empty and the whole data lands at [0, length) |
| RingProperties.TakeOneFrameContiguousHeader | MessagePipe.SharedMemory/InternalClasses/CircularBuffer.cs:222-236 | a frame whose header lies in the ring is 16 + its stored body length bytes: raw[start..maxEnd] + raw[..overflow] when it overflows, raw[start..start + len] otherwise; it throws OverflowException exactly when overflow >= maxEnd |
| RingProperties.FrameAtIsSlice | MessagePipe.SharedMemory/InternalClasses/CircularBuffer.cs:236 | a frame lying whole before maxEnd is decoded from exactly its own bytes |
| RingProperties.DecodeInPlace | MessagePipe.SharedMemory/InternalClasses/CircularBuffer.cs:246-247 | decoding a slice of the region reads the header fields in place and the body after them |
| RingProperties.FrameAtWhole | MessagePipe.SharedMemory/InternalClasses/CircularBuffer.cs:198-247 | a frame lying whole before maxEnd reads as the tick, before index and body length stored in its header, and the bytes after it |
| RingProperties.TakeOneFrameHeaderWrapFault | MessagePipe.SharedMemory/InternalClasses/CircularBuffer.cs:212-216 | a header that runs past maxEnd from a start index above 0 is never read: the read throws |
| RingHistory.WalkFromExtends | MessagePipe.SharedMemory/InternalClasses/CircularBuffer.cs:112-123 | a walk that completes only appends to what it has collected, appends only frames of the region, and never collects a tick twice |
| RingHistory.AllBodyAndTickShape | MessagePipe.SharedMemory/InternalClasses/CircularBuffer.cs:93-126 | getAllBodyAndTick returns nothing exactly when the latest frame has body length 0, otherwise the latest frame first; every entry comes from the region and no tick appears twice |
| RingHistory.SelfLinkedWalk | MessagePipe.SharedMemory/InternalClasses/CircularBuffer.cs:108-123 | a latest frame whose before index is its own start index is the only frame the walk returns |
| RingHistory.BodyAfterTickSpec | MessagePipe.SharedMemory/InternalClasses/CircularBuffer.cs:42-43 | GetBodyAfterTick returns exactly the collected entries newer than the tick, in strictly increasing tick order, and throws exactly when the walk throws |
| RingHistory.EmptyLatestReadsEmpty | MessagePipe.SharedMemory/InternalClasses/CircularBuffer.cs:101-103 | a latest frame of body length 0 makes every reader see an empty buffer |
| RingHistory.ZeroedRegionReadsEmpty | MessagePipe.SharedMemory/InternalClasses/CircularBuffer.cs:56-58 | an all-zero region reads as empty: footer 0, no latest tick, no latest frame, no entries after any tick |
| RingInsert.NextIndex | MessagePipe.SharedMemory/InternalClasses/CircularBuffer.cs:140-144 | the start index of the next frame is an int32 value |
| RingInsert.StoredFrameReadsBack | MessagePipe.SharedMemory/InternalClasses/CircularBuffer.cs:198-258 | a frame stored whole inside the ring reads back as the fields it was built from |
| RingInsert.MakeHeaderContiguous | MessagePipe.SharedMemory/InternalClasses/CircularBuffer.cs:136-149 | when the frame fits before maxEnd, it is written at the next start index (0 for an empty buffer, otherwise one byte past the latest frame), and that index is returned |
| RingInsert.FooterKeepsRing | MessagePipe.SharedMemory/InternalClasses/CircularBuffer.cs:309-315 | writing the footer keeps every byte of the ring area |
| RingInsert.InsertContiguousEffect | MessagePipe.SharedMemory/InternalClasses/CircularBuffer.cs:67-71 | an insert that fits is the frame write at the next start index followed by the footer naming that index |
| RingInsert.PieceThenFooter | MessagePipe.SharedMemory/InternalClasses/CircularBuffer.cs:67-71 | after a write inside the ring and then the footer, the piece is in place, the rest of the ring is unchanged and the footer reads the index |
| RingInsert.PieceThenFooterKeeps | MessagePipe.SharedMemory/InternalClasses/CircularBuffer.cs:67-71 | a write at s followed by the footer keeps every byte before s |
| RingInsert.InsertThenRead | MessagePipe.SharedMemory/InternalClasses/CircularBuffer.cs:50-71 | after an insert that fits, the footer names the new frame, which reads back with its own index as before index; the latest tick is the new tick (null for an empty body); the walk returns the new frame alone |
| RingInsert.UnreadableLatestBlocksInsert | MessagePipe.SharedMemory/InternalClasses/CircularBuffer.cs:136-146 | when the latest frame cannot be read, every insert throws the same exception and leaves the region as it was, and every reader throws too |
| RingInsert.InsertAtMaxEndSticks | MessagePipe.SharedMemory/InternalClasses/CircularBuffer.cs:144 | a frame that would start at maxEnd is written whole at 0 while the footer names maxEnd; from then on every read and every insert throws |
| RingInsert.LatestWholeFrame | MessagePipe.SharedMemory/InternalClasses/CircularBuffer.cs:77-88 | a latest frame lying whole in the ring reads as its stored bytes, and the next frame goes one byte past its end |
| RingInsert.InsertForgetsPrevious | MessagePipe.SharedMemory/InternalClasses/CircularBuffer.cs:146 | as written, an insert right after a whole latest frame leaves a buffer whose walk returns the new frame alone |
| RingIntended.PutBufferIntendedEffect | MessagePipe.SharedMemory/InternalClasses/CircularBuffer.cs:178-180 | the corrected putBuffer keeps the region's size |
| RingIntended.TakeOneFrameIntended | MessagePipe.SharedMemory/InternalClasses/CircularBuffer.cs:212-236 | the corrected read returns a frame only from a start index in [0, maxEnd] |
| RingIntended.PutIntendedWrappedEffect | MessagePipe.SharedMemory/InternalClasses/CircularBuffer.cs:174-181 | the corrected wrapping write puts the first maxEnd - start bytes at start and the rest at 0 |
| RingIntended.WrappedPiecesPlace | MessagePipe.SharedMemory/InternalClasses/CircularBuffer.cs:179-180 | the two pieces written at start and at 0 place the frame they split |
| RingIntended.PutIntendedContiguousEffect | MessagePipe.SharedMemory/InternalClasses/CircularBuffer.cs:183-186 | the corrected putBuffer writes a frame ending by maxEnd whole |
| RingIntended.PutIntendedPlaces | MessagePipe.SharedMemory/InternalClasses/CircularBuffer.cs:159-189 | the corrected putBuffer accepts every frame shorter than maxEnd from every start in [0, maxEnd] and places it, wrapping or not |
| RingIntended.PlacedPieces | MessagePipe.SharedMemory/InternalClasses/CircularBuffer.cs:232-234 | a frame placed across maxEnd is its two pieces |
| RingIntended.TakeIntendedWhole | MessagePipe.SharedMemory/InternalClasses/CircularBuffer.cs:219-236 | the corrected read returns a frame lying whole before maxEnd |
| RingIntended.TakeIntendedBodySplit | MessagePipe.SharedMemory/InternalClasses/CircularBuffer.cs:232-234 | the corrected read returns a frame whose body runs past maxEnd |
| RingIntended.TakeIntendedHeaderSplit | MessagePipe.SharedMemory/InternalClasses/CircularBuffer.cs:212-216 | the corrected read returns a frame whose header runs past maxEnd |
| RingIntended.TakeIntendedReadsPlaced | MessagePipe.SharedMemory/InternalClasses/CircularBuffer.cs:198-239 | the corrected takeOneFrameFromBuffer reads back every placed frame whose length field holds its body length |
| RingIntended.WrappedFrameRoundTrip | MessagePipe.SharedMemory/InternalClasses/CircularBuffer.cs:159-258 | every frame shorter than maxEnd, written from any start in [0, maxEnd] by the corrected putBuffer, reads back bit-exact through the corrected read and decodes to its fields |
| RingIntended.MakeHeaderAndPutBufferLinkedEffect | MessagePipe.SharedMemory/InternalClasses/CircularBuffer.cs:136-149 | the corrected makeHeaderAndPutBuffer keeps the region's size and returns an int32 start index |
| RingIntended.InsertNewDataLinkedEffect | MessagePipe.SharedMemory/InternalClasses/CircularBuffer.cs:67-71 | the corrected insert keeps the region's size |
| RingIntended.MakeHeaderLinkedEffect | MessagePipe.SharedMemory/InternalClasses/CircularBuffer.cs:140-148 | the corrected makeHeaderAndPutBuffer writes the new frame, naming the previous latest frame, one byte past it |
| RingIntended.LinkedInsertEffect | MessagePipe.SharedMemory/InternalClasses/CircularBuffer.cs:67-71 | the corrected insert after a whole latest frame is that frame write followed by the footer naming the new frame |
| RingIntended.TwoLinkedFrames | MessagePipe.SharedMemory/InternalClasses/CircularBuffer.cs:105-123 | a latest frame that names a readable frame with another tick: a walk that completes returns the latest frame and then that one |
| RingIntended.SameBytesSameFrame | MessagePipe.SharedMemory/InternalClasses/CircularBuffer.cs:198-247 | a frame lying whole before maxEnd reads the same in any region holding the same bytes there |
| RingIntended.LinkedRegionReads | MessagePipe.SharedMemory/InternalClasses/CircularBuffer.cs:146 | after the corrected insert, the new frame reads back naming the previous one, and the previous one reads as it did |
| RingIntended.LinkedInsertKeepsPrevious | MessagePipe.SharedMemory/InternalClasses/CircularBuffer.cs:146 | with the corrected before index, the previous frame stays reachable: a walk that completes returns the new frame and then the previous one |
| RingInsertOnly.ZeroedSelfLinked | MessagePipe.SharedMemory/InternalClasses/CircularBuffer.cs:56-58 | a freshly mapped, all-zero region satisfies the footer predicate: the footer names 0, whose frame is empty and names 0 |
| RingInsertOnly.OverwriteKeepsFooter | MessagePipe.SharedMemory/InternalClasses/CircularBuffer.cs:179-185 | a write inside the ring keeps the footer |
| RingInsertOnly.FailedWrapAtZero | MessagePipe.SharedMemory/InternalClasses/CircularBuffer.cs:179-180 | a frame write at 0 that stops after its first piece leaves a frame at 0 with the new header, whose body is the data's first maxEnd - 16 bytes followed by the frame's own first bytes |
| RingInsertOnly.ContiguousInsertSelfLinked | MessagePipe.SharedMemory/InternalClasses/CircularBuffer.cs:67-71 | after an insert whose frame fits before maxEnd, the footer names the new frame, which names itself |
| RingInsertOnly.MaxEndInsertSelfLinked | MessagePipe.SharedMemory/InternalClasses/CircularBuffer.cs:144-146 | after an insert at maxEnd, the footer names a frame that cannot be read |
| RingInsertOnly.PartialAfterLatestSelfLinked | MessagePipe.SharedMemory/InternalClasses/CircularBuffer.cs:179-180 | a write that stops after its first piece, past the end of the latest frame, keeps the footer and the frame it names |
| RingInsertOnly.NextIndexAfterLatest | MessagePipe.SharedMemory/InternalClasses/CircularBuffer.cs:140-144 | after a latest frame satisfying the footer predicate, the next start index is one byte past its end, or negative once the sum leaves the int32 range |
| RingInsertOnly.EmptyLatestAtZero | MessagePipe.SharedMemory/InternalClasses/CircularBuffer.cs:84-85 | under the footer predicate, a buffer read as empty has its footer at 0, and the next frame also goes to 0 |
| RingInsertOnly.InsertRegion | MessagePipe.SharedMemory/InternalClasses/CircularBuffer.cs:67-71 | the region an insert leaves: unchanged when the latest frame cannot be read, otherwise putBuffer's region, with the footer written only when putBuffer returned |
| RingInsertOnly.PartialAtZeroSelfLinked | MessagePipe.SharedMemory/InternalClasses/CircularBuffer.cs:179-180 | a write at 0 into a buffer read as empty that stops after its first piece leaves the footer predicate holding |
| RingInsertOnly.PutSucceededSelfLinked | MessagePipe.SharedMemory/InternalClasses/CircularBuffer.cs:67-71 | an insert whose frame write returns leaves the footer predicate holding |
| RingInsertOnly.PutFailedOnEmptySelfLinked | MessagePipe.SharedMemory/InternalClasses/CircularBuffer.cs:136-146 | an insert into a buffer read as empty whose frame write throws leaves the footer predicate holding |
| RingInsertOnly.PutFailedAfterLatestSelfLinked | MessagePipe.SharedMemory/InternalClasses/CircularBuffer.cs:136-146 | an insert after a latest frame whose frame write throws leaves the footer predicate holding |
| RingInsertOnly.InsertKeepsSelfLinked | MessagePipe.SharedMemory/InternalClasses/CircularBuffer.cs:67-71 | every outcome of an insert of a non-empty body keeps the footer predicate |
| RingInsertOnly.SelfLinkedReadsAtMostOne | MessagePipe.SharedMemory/InternalClasses/CircularBuffer.cs:42-43 | under the footer predicate, GetBodyAfterTick returns at most one frame |
| RingInsertOnly.InsertAll | MessagePipe.SharedMemory/InternalClasses/CircularBuffer.cs:67-71 | a sequence of inserts, each going on from the region the previous one left, keeps the region's size |
| RingInsertOnly.InsertAllKeepsSelfLinked | MessagePipe.SharedMemory/InternalClasses/CircularBuffer.cs:67-71 | any sequence of inserts of non-empty bodies keeps the footer predicate |
| RingInsertOnly.InsertOnlyReadsAtMostOne | MessagePipe.SharedMemory/InternalClasses/CircularBuffer.cs:42-71 | a freshly mapped region written only by inserts of non-empty bodies, whatever they throw: GetBodyAfterTick returns at most one frame |
| RingInsertOnly.FailedInsertEffect | MessagePipe.SharedMemory/InternalClasses/CircularBuffer.cs:136-146 | an insert into a fresh region whose frame runs past maxEnd throws RangeError after writing the frame's first piece at 0 |
| RingInsertOnly.SameHeaderSameFields | MessagePipe.SharedMemory/InternalClasses/CircularBuffer.cs:246-247 | byte strings with the same first 16 bytes decode to the same header fields |
| RingInsertOnly.FailedInsertPublishesTick | MessagePipe.SharedMemory/InternalClasses/CircularBuffer.cs:50-71 | as written, an insert into a fresh region whose frame runs past maxEnd throws, yet its tick is published, with a body ending in the frame's own first bytes |
| Ring.CircularBuffer.constructor | MessagePipe.SharedMemory/InternalClasses/CircularBuffer.cs:25-29 | the buffer owns the mapped region and its size |
| Ring.CircularBuffer.WriteArray | MessagePipe.SharedMemory/InternalClasses/CircularBuffer.cs:179-185 | the accessor write has exactly the effect of WriteArrayEffect on the region |
| Ring.CircularBuffer.PutBuffer | MessagePipe.SharedMemory/InternalClasses/CircularBuffer.cs:159-189 | putBuffer's outcome and new region are those of PutBufferEffect |
| Ring.CircularBuffer.PutLatestTickIndex | MessagePipe.SharedMemory/InternalClasses/CircularBuffer.cs:309-315 | the new region is that of PutLatestTickIndexEffect |
| Ring.CircularBuffer.MakeHeaderAndPutBuffer | MessagePipe.SharedMemory/InternalClasses/CircularBuffer.cs:136-149 | outcome and new region are those of MakeHeaderAndPutBufferEffect |
| Ring.CircularBuffer.InsertNewData | MessagePipe.SharedMemory/InternalClasses/CircularBuffer.cs:67-71 | outcome and new region are those of InsertNewDataEffect |
| Ring.CircularBuffer.GetAllBodyAndTick | MessagePipe.SharedMemory/InternalClasses/CircularBuffer.cs:93-126 | returns the backward walk AllBodyAndTick of the region |
| Ring.CircularBuffer.CollectBefore | MessagePipe.SharedMemory/InternalClasses/CircularBuffer.cs:111-123 | the while loop terminates and returns WalkFrom from its start index |
| Ring.CircularBuffer.GetBodyAfterTick | MessagePipe.SharedMemory/InternalClasses/CircularBuffer.cs:42-43 | returns BodyAfterTick of the region |
| Publisher.MessageAndLength | MessagePipe.SharedMemory/SharedMemoryPublisher.cs:27 | the message length as a 4-byte int32, then the message |
| Publisher.SendBody | MessagePipe.SharedMemory/SharedMemoryPublisher.cs:28-29 | 8 + \|message\| bytes: the hash of the rest, the length field holding \|message\|, then the message |
| Publisher.Publish | MessagePipe.SharedMemory/SharedMemoryPublisher.cs:25-33 | the key only names the channel; the bytes written are the envelope, in a node of exactly their size |
| Subscriber.CheckHash | MessagePipe.SharedMemory/SharedMemorySubscriber.cs:98-103 | throws exactly on fewer than 4 bytes; otherwise true exactly when raw[..4] equals the hash of raw[4..] |
| Subscriber.TryDeserialize | MessagePipe.SharedMemory/SharedMemorySubscriber.cs:85-96 | a hash mismatch gives no message and no exception; it throws exactly on fewer than 4 bytes, or a passing hash with no 8 <= L <= \|raw\|; a message is the deserializer applied to raw[8..L] |
| Subscriber.TryDeserializeIntended | MessagePipe.SharedMemory/SharedMemorySubscriber.cs:93-94 | the corrected slice: it throws exactly when the L bytes after the length field are not all there, and a message is the deserializer applied to raw[8..8 + L] |
| Subscriber.PublishedEnvelopePassesCheck | MessagePipe.SharedMemory/SharedMemoryPublisher.cs:28-29 | every envelope the publisher builds passes checkHash |
| Subscriber.AsWrittenEnvelopeDropsTail | MessagePipe.SharedMemory/SharedMemorySubscriber.cs:94 | as written, a published envelope read back throws for a message under 8 bytes, and otherwise delivers the message less its last 8 bytes |
| Subscriber.AsWrittenShortMessageThrows | MessagePipe.SharedMemory/SharedMemorySubscriber.cs:94 | the 3-byte message [1, 2, 3], published and read back, makes the subscriber throw |
| Subscriber.EnvelopeRoundTrip | MessagePipe.SharedMemory/SharedMemorySubscriber.cs:85-96 | with the corrected slice, every published envelope read back delivers the original value when the deserializer inverts the serializer |
| Subscriber.Subscription.constructor | MessagePipe.SharedMemory/SharedMemorySubscriber.cs:51-52 | a fresh buffer of the node size, a fresh 4-byte latest hash, no message handled |
| Subscriber.Subscription.Read | MessagePipe.SharedMemory/SharedMemorySubscriber.cs:56 | the node's bytes are copied to the front of the buffer and the rest of the buffer is kept |
| Subscriber.Subscription.GetHash | MessagePipe.SharedMemory/SharedMemorySubscriber.cs:105-106 | a fresh array holding exactly the first 4 bytes of the buffer; it throws exactly when the buffer is shorter |
| Subscriber.Subscription.PollOnce | MessagePipe.SharedMemory/SharedMemorySubscriber.cs:54-81 | one pass: the buffer holds the node; the fresh hash always differs from the previous one, so tryDeserialize always runs; the handler gets the message exactly when tryDeserialize yields one; latestHash becomes the current hash whatever the outcome; an exception ends the loop |

## Left out

- Creating the memory-mapped file and its view accessors (`memoryMappedFileWrapper`, the MappedFile classes). The region is an `array<byte>` read and written directly.
- Concurrent writers and readers of the region, in this process or others. Each reader works on one snapshot of the region, as `takeOneFrameFromBuffer` does when it copies the region before slicing.
- `DateTime.Now.Ticks`: the tick is a method parameter.
- The foreign `SharedMemory.CircularBuffer` used by the publisher and subscriber. Its `Write` becomes the `Write` value `Publish` returns. Its `Read` copies the node's bytes, given as a parameter, to the front of the buffer.
- CRC32 and the message serializer. They are foreign, and come in as function parameters. Exceptions thrown by the deserializer are not modelled.
- The UTF-8 decoding of the serialized key into a channel name. The channel is modelled as the key's bytes.
- The polling loop as a whole: cancellation, `Task.Delay`, awaiting an asynchronous handler, and the subscription's disposer. One pass is modelled (`PollOnce`). Handling a message is appending it to `handled`.
- The `Dispose` method of `CircularBuffer`, which does nothing.
- Ring.CircularBuffer.GetAllBodyAndTick: runs its loop over a snapshot of the region. The source rereads the mapped file on each pass; with no concurrent writer the two agree.
- RingRegion.PutBufferEffect, RingRegion.MakeHeaderAndPutBufferEffect, RingRegion.InsertNewDataEffect and RingIntended.PutBufferIntendedEffect: their own contracts state only sizes. What they do is stated by the lemmas in RingProperties (PutBufferOutcomes among them), RingInsert, RingInsertOnly and RingIntended.
- RingRegion.MakeHeaderAndPutBufferEffect and RingRegion.InsertNewDataEffect: require `IsInsertable`, that 16 + the body length is at most 0x7fffffc7, the largest .NET byte array. Past that, building the frame with `ToArray` throws an out-of-memory exception, which is not modelled.
- RingInsertOnly.InsertKeepsSelfLinked and RingInsertOnly.InsertOnlyReadsAtMostOne: cover inserts of non-empty bodies only. An empty body written at a start index other than 0 leaves the footer naming an empty frame away from 0. The next insert then goes to 0, and if its frame runs past maxEnd it overwrites the footer's frame with payload bytes, whose before index can name any frame.
- RingInsert.InsertThenRead: covers inserts whose frame ends by maxEnd. Wrapping inserts are covered by RingProperties.PutBufferWrapFault, RingProperties.PutBufferFromMaxEnd and RingInsert.InsertAtMaxEndSticks.
- Subscriber.TryDeserializeIntended: requires a buffer of at most int32-max bytes, as every .NET span is.

## Findings

| source | as written | input that shows it | evidently intended | confidence | as-written member | corrected member |
|---|---|---|---|---|---|---|
| MessagePipe.SharedMemory/InternalClasses/CircularBuffer.cs:180 | the second piece is written with offset beforeLength into `putData[beforeLength..]`, which is already sliced | bufferSize 36 (maxEnd 32), startIndex 30, 10 bytes: the first 2 bytes are written, then WriteArray throws because 2 + 8 > 8 | offset 0, so the tail lands at [0, overflow) | not executed | RingProperties.PutBufferWrapFault | RingIntended.PutIntendedPlaces |
| MessagePipe.SharedMemory/InternalClasses/CircularBuffer.cs:179-180 | an insert whose frame write throws after its first piece has already overwritten the frame the footer names when that frame is at its start index | an all-zero region of 36 bytes (maxEnd 32) and a 20-byte insert: the insert throws, yet GetLatestTickOrNull returns its tick, and the body read ends in the frame's own first bytes | the frame is written whole, wrapping at maxEnd, and reads back as inserted | not executed | RingInsertOnly.FailedInsertPublishesTick | RingIntended.WrappedFrameRoundTrip |
| MessagePipe.SharedMemory/InternalClasses/CircularBuffer.cs:215 | the first header piece is sliced up to headerSize - overflowHeaderLength, which is maxEnd - startIndex | bufferSize 36 (maxEnd 32), startIndex 20: the slice [20..12] throws, so a header split by maxEnd is never read | slice up to maxEnd | not executed | RingProperties.TakeOneFrameHeaderWrapFault | RingIntended.WrappedFrameRoundTrip |
| MessagePipe.SharedMemory/InternalClasses/CircularBuffer.cs:146 | the new frame's before index is its own startIndex | two non-empty inserts into an all-zero region of 64 bytes: the walk after the second returns the second frame alone | the start index of the frame that was latest | not executed | RingInsert.InsertForgetsPrevious | RingIntended.LinkedInsertKeepsPrevious |
| MessagePipe.SharedMemory/SharedMemorySubscriber.cs:94 | the message is sliced as `rawData[8..length]` | publishing the 3-byte message [1, 2, 3]: the envelope's length field is 3 and the slice [8..3] throws | `rawData[8..8 + length]` | not executed | Subscriber.AsWrittenShortMessageThrows | Subscriber.EnvelopeRoundTrip |
