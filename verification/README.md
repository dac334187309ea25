# Acquisition path: a verified model

How bytes leave a running target, cross a lossy framed link and reach the plot, as Dafny models of the studio's own
components with proofs of what they promise. `dafny verify dfyconfig.toml` checks everything.

The model follows the data.

- **RTT rings** (`Memory`, `Rtt`, `RttHost`, `RttDuplex`): the host reads and writes two ring buffers in target memory
  while the firmware keeps running. Between any two memory accesses, and between the bytes of one, the firmware may take
  any number of its own steps; any access may fail; the firmware may reset. Both channels stay queues throughout.
- **Framing** (`Bytes`, `Crc`, `CrcNumbers`, `Resync`, `Framing`, `Wire`): the CRC, the encoder and the resynchronising decoder.
  `Resync` says what any greedy resynchronising scan finds, `Framing` what that means for frames under any integrity
  check, `Wire` instantiates the check with the CRC.
- **Read planning** (`Coalesce`, `Values`, `Plan`): the greedy pass makes as few reads as any grouping under its rule, and
  sampling agrees with reading each item alone, bit fields included.
- **Requests and leases** (`Ledger`, `Pace`, `Commands`, `Tuning`, `Link`): every request is answered exactly once unless
  its number comes round, the lease is held for whatever needs it, samples land under their own columns. `Ledger` is the
  bookkeeping both protocols share, `Pace` says when a number can come round, `Commands` is their vocabulary.
- **Sample frames and history** (`Frame`, `History`, `SampleStore`, `Delivery`, `Journey`, `Window`): rows become columns,
  columns go through rings, and what the rings hold is the newest part of a plain log, up to that of a whole session; the
  window query is exact over that log.
- **Fan-out, ticker, types** (`Tap`, `Fanout`, `Schedule`, `TypeTable`, `TypeTree`): what is lost on the way out is counted
  to the last batch, deadlines stay on their grid, and the tree's two ways to an address agree.

Components whose methods update fields are classes with the same fields; loops in the source are loops here, each proved
against a specification function or predicate. Ghost fields record histories (what was published, received, answered,
written) so that whole runs can be spoken of. Integers are unbounded except where the width matters: sequence numbers wrap
at 2^16, the ticker's multiplier is cut to 32 bits, the bit-field subtraction is 64-bit and wrapping. The memory, the clock,
the serial stream and the firmware's answers are parameters; the firmware's own steps are arbitrary choices.

## Findings

- A signed bit field of all 64 bits is decoded as unsigned (`Values.FieldRoundTrip`, an if-and-only-if).
- The planner's "as few memory reads as possible" holds for every set with spans up to a length if and only if that length
  is within the limit or the limit is at most one byte (`Plan.OptimalIff`). A longer span read alone is still planned in
  one read; it costs one more where it separates two spans that could share theirs. Under the default limit of 512 bytes
  only bit fields of more than 4000 bits are that long, and those decode to NaN.
- A watch request that the firmware refuses for want of budget is asked for again without end if and only if its set is
  empty or its period 0 (`Link.SettlesIff`, `Link.RefuseForBudget`). A set with members gets period 0 when it replaces an
  empty one whose request is refused afterwards (`Link.MembersAtZero`).
- A request whose number comes round while it waits is forgotten unanswered. That takes 65536 frames between two sweeps of
  the overdue requests; a paced run, which its times, frames and sweeps show, has no such request (`Pace.PacedIff`,
  `Link.Run`, `Tuning.Session`). In a link session with a silent firmware exactly the requests overtaken in this way are
  forgotten (`Pace.LostIffOvertaken`, `Link.Run`, `Link.SavesOvertake`).
- When the link's stream write fails, the request being sent is never answered, at most one of those a session takes up;
  nor are the commands still queued when a session ends (`Link.Run`).
- Names in a watch set are not always unique: with distinct ids they are, if and only if no value finds its name used up
  and an earlier value called that name with `#` and its id (`Tap.NamesAreUniqueIff`, `Tap.ClashWithDistinctIds`).
- A set of watches listed again under other names that come out the same leaves the names of a remembered batch set as
  they were: that set is the one that would be made now if and only if every known id keeps its name as listed
  (`Tap.RememberedNamesIff`, `Tap.RenamedUnseen`).
- Windows of a given extent draw at most two points a pixel and two more if and only if a pixel is no narrower than the
  slack of a billionth of a second, or nothing is decimated (`Window.PointsAreFewIff`).
- A window that ends before it starts and selects more than two rows a pixel is never finished: the bucket loop moves on
  if and only if the window ends after it starts (`Window.LoopMovesOnIff`).
- A sample frame that is cut short overwrites the oldest visible rows unless the ring has room for its rows, an
  if-and-only-if over the buffers that throw (`SampleStore.CutShortIsHarmlessIff`, `SampleStore.HeadlessThrows`).
- A reference to a member or variant reaches its own place if and only if the first of that name has the same place, and
  never in a union with variants (`TypeTree.OwnStepIff`, `TypeTree.UnnamedMembersCollide`).
- Once the tick number reaches 2^32 the ticker's deadline goes back to an earlier one (`Schedule.CutDeadline`).

## Model

| member | source | states |
|---|---|---|
| RttDuplex.Session | crates/studio-carriers/src/rtt.rs:55-104 | for any script of reads and writes, with any firmware activity between memory accesses and any failed accesses: unless the firmware reset, what it pushed is what the host got, then what is pending, and it has taken a prefix of the accepted writes laid end to end; when no access fails, an attached host got all that was published when it began or as much as its reads had room for, and every write of a script that fits the ring is accepted |
| RttHost.RingRead | crates/studio-carriers/src/rtt.rs:53-80 | one read with the firmware running before every access: on success the host holds exactly what was published when the write offset was read, or as much as fits, so a short read drained the channel; on any failure nothing is consumed |
| RttHost.RingWrite | crates/studio-carriers/src/rtt.rs:82-104 | one write: accepted exactly when it fits beside what the firmware had not consumed; visible to the firmware as a whole or not at all, and a refused or failed write leaves no trace |
| RttHost.ReadOffsets | crates/studio-carriers/src/rtt.rs:106-116 | offsets out of range are only ever seen after a firmware reset; otherwise each is the offset in memory when it was read |
| RttHost.CopyPending | crates/studio-carriers/src/rtt.rs:62-76 | the bytes copied, in one or two accesses, are the next ones the firmware published, however much it publishes meanwhile |
| RttHost.FillBytes | crates/studio-carriers/src/rtt.rs:96-100 | the bytes stored, in one or two accesses, fill the free slots behind the pending ones, and no pending byte changes |
| RttHost.Target.ConsumeFront | crates/studio-carriers/src/rtt.rs:77-79 | writing the read offset is the one step that consumes, all of the copied bytes or none |
| RttHost.Target.Publish | crates/studio-carriers/src/rtt.rs:101-103 | writing the write offset is the one step that makes a write visible |
| Rtt.FirmwareKeepsInv | crates/studio-carriers/src/mock.rs:86-127 | storing, publishing, fetching and releasing, one memory access at a time, each keep both channels queues, and none moves the host's offsets or touches pending down bytes |
| RttDuplex.PublishedIsQueued | crates/studio-carriers/src/rtt.rs:55-80 | what the firmware published is what was received, then what is pending in the ring |
| RttDuplex.Duplex.Attach | crates/studio-carriers/src/rtt.rs:204-224 | the channels are looked for at most once per retry period and never again once found |
| RttDuplex.Duplex.Read | crates/studio-carriers/src/rtt.rs:226-236 | an attached read returns the next published bytes, as many as it has room for of those published no earlier than the call; it fails exactly when an access fails, bad offsets, which only a reset leaves, detach, and a detached one reads nothing |
| RttDuplex.Duplex.Write | crates/studio-carriers/src/rtt.rs:238-249 | an attached write is queued and returns true exactly when it fits beside what the firmware had not taken no earlier than the call, and false otherwise; it fails exactly when an access fails, and a detached one writes nothing |
| Crc.Crc16 | crates/studio-core/src/wire.rs:53-66 | the bit loop computes the CRC that the lemmas below are about |
| Crc.Constants | crates/studio-core/src/wire.rs:53-60 | the polynomial the lemmas are about is 0x8408 and the register starts at 0xffff |
| CrcNumbers.CrcInNumbers | crates/studio-core/src/wire.rs:53-66 | the CRC of any message is what comes of 0xffff when, for each of its bits, the bit is XORed in, the number halved, and 0x8408 XORed in when a one fell out |
| Crc.FeedBitsIsAffine | crates/studio-core/src/wire.rs:53-66 | the CRC is affine over XOR: how a difference propagates does not depend on the message |
| Crc.FeedBitsIsInjective | crates/studio-core/src/wire.rs:57-63 | every bit step is invertible, so what follows an error cannot hide it |
| Crc.BurstDetected | crates/studio-core/src/wire.rs:53-66 | two messages of one length that differ only inside sixteen consecutive bits never share a CRC |
| Crc.TrailerMatchesIffResidueZero | crates/studio-core/src/wire.rs:120-121 | a little-endian trailer matches exactly when the CRC over message and trailer is zero |
| Wire.EncodedFrame | crates/studio-core/src/wire.rs:68-78 | an encoded frame with up to 256 bytes of payload is one whole frame, passes the check and reads back as its command, number and payload |
| Wire.EncodedBytes | crates/studio-core/src/wire.rs:68-78 | an encoded frame is, byte by byte, magic 0xa5, version 1, command, 0, number and length as little-endian words, the payload, and the CRC of all that |
| Wire.EncodedStreamRoundTrip | crates/studio-core/src/wire.rs:68-134 | any list of encoded frames, with noise free of the magic byte between them and cut into any chunks, decodes to exactly that list, nothing counted bad and nothing left over |
| Wire.GenuineDetectsBursts | crates/studio-core/src/wire.rs:120-125 | a frame whose trailer matches, damaged by one burst of at most sixteen bits, trailer included, no longer matches |
| Wire.DamagedEncodingIsRefused | crates/studio-core/src/wire.rs:111-125 | an encoded frame that one burst of at most sixteen bits damaged outside magic, version and length is refused at its offset by the real check, whatever else happened to the stream |
| Wire.ChangedBytesAreRefused | crates/studio-core/src/wire.rs:111-125 | so is a valid frame in which one byte or two neighbouring bytes outside the framing were changed |
| Framing.DecoderIsExact | crates/studio-core/src/wire.rs:95-134 | over any noisy stream the frames emitted are the one ordered, non-overlapping, complete list of valid frames; the bad count is exactly the consumed magic bytes outside them; what is kept is empty or starts with the magic byte and holds at most 265 bytes |
| Framing.FramesInBytes | crates/studio-core/src/wire.rs:98-131 | which bytes make a valid frame at an offset, which ones leave that open, and what a frame there says |
| Framing.EmittedFramesAreValidAndComplete | crates/studio-core/src/wire.rs:95-134 | every emitted frame is a valid occurrence inside the consumed bytes, they do not overlap, and every valid occurrence in the consumed bytes starts inside an emitted frame |
| Framing.DecodeIsScan | crates/studio-core/src/wire.rs:95-134 | what the decoder emits, counts and keeps, decision by decision, are the frames at the offsets of the one parse, its bad count and the bytes behind its end |
| Framing.DecodeConcat | crates/studio-core/src/wire.rs:95-97 | feeding two pieces one after the other gives the frames, the bad count and the kept bytes of feeding them together |
| Framing.ChunksDoNotMatter | crates/studio-core/src/wire.rs:95-134 | however a stream is cut, the same frames come out and the same bytes are kept |
| Framing.RestIsStuck | crates/studio-core/src/wire.rs:107-119 | what the decoder keeps yields nothing until more arrives |
| Framing.RoundTrip | crates/studio-core/src/wire.rs:95-134 | whole frames sent through noise without magic bytes and cut anywhere arrive exactly as sent |
| Framing.FailedCheckIsRejected | crates/studio-core/src/wire.rs:121-125 | a frame that fails its check is refused where it starts, whatever the rest of the stream holds |
| Framing.BurstIsRejected | crates/studio-core/src/wire.rs:111-125 | a valid frame damaged by one burst of at most sixteen bits outside magic, version and length is refused at its offset |
| Framing.AdjacentBytesAreRejected | crates/studio-core/src/wire.rs:111-125 | in particular any change to one byte or to two neighbouring bytes, across the payload and trailer boundary too |
| Framing.Decoder.Feed | crates/studio-core/src/wire.rs:95-134 | the draining loop emits the specified frames, keeps the specified bytes and adds the specified count |
| Coalesce.GreedyIsMinimal | crates/studio-core/src/plan.rs:103-124 | no grouping of the spans that obeys the gap and length rule has fewer groups than the greedy pass has regions |
| Coalesce.PlanIsFeasible | crates/studio-core/src/plan.rs:103-124 | for spans of any length the plan's own grouping obeys the rule, so the minimum is attained |
| Coalesce.SharedRegionFits | crates/studio-core/src/plan.rs:105-111 | a region that holds more than one span is no longer than the limit |
| Coalesce.NoGapInside | crates/studio-core/src/plan.rs:105-108 | inside a region every span starts within the gap of the end of one that starts before it |
| Coalesce.EntryInRegion | crates/studio-core/src/plan.rs:118-123 | every span lies inside the region it was put in, also after the region grew |
| Coalesce.GreedyIsMinimalByteByByte | crates/studio-core/src/plan.rs:103-124 | under a limit of a single byte the same holds for spans of any length |
| Coalesce.OversizeSeparates | crates/studio-core/src/plan.rs:105-108 | a span longer than a limit of two or more bytes costs a read of its own and one on either side of it |
| Coalesce.NeighboursMayShare | crates/studio-core/src/plan.rs:105-108 | its two neighbours may share a read by the same rule |
| Plan.PlanIsOptimal | crates/studio-core/src/plan.rs:1-132 | for any watched set whose spans fit the limit, and for any set at all when the limit is a single byte, no way to share reads needs fewer reads than the plan makes |
| Plan.OptimalIff | crates/studio-core/src/plan.rs:1-132 | every watched set with spans up to a length is planned with as few reads as possible if and only if that length is within the limit or the limit is at most one byte |
| Plan.StraddledIsNotOptimal | crates/studio-core/src/plan.rs:93-132 | for the three items used there, the plan makes three reads where sharing by its own rule makes two |
| Plan.Build | crates/studio-core/src/plan.rs:101-124 | the loop over the sorted spans builds the regions and gives every item the slot of its span |
| Plan.SlotsAreSpans | crates/studio-core/src/plan.rs:119-123 | every slot is its item's own span, inside its region and inside the shared buffer |
| Plan.ReadPlan.WithLimits | crates/studio-core/src/plan.rs:93-132 | the plan built has the specified regions and slots, whatever order the items came in |
| Plan.ReadPlan.Sample | crates/studio-core/src/plan.rs:148-170 | for any set of failing regions, column i is item i decoded from its own span when its region was read and NaN otherwise, in item order; regions and bytes are counted exactly |
| Plan.ScalarColumn | crates/studio-core/src/plan.rs:148-170 | a whole number of any type that target memory holds when the item's region is read is the number in the item's column; the column is no number when that read failed |
| Plan.FailuresAreCounted | crates/studio-core/src/plan.rs:151-160 | the outcome counts the regions that could not be read and those that could, and names the first that failed |
| Plan.BytesAreShared | crates/studio-core/src/plan.rs:151-161 | the bytes counted are those of the regions read: with those of the regions that were not they make up all |
| Plan.ReadPlan.DecodeRegion | crates/studio-core/src/plan.rs:162-167 | the slot loop decodes exactly the items of one region out of the shared buffer and leaves the other columns alone |
| Values.SpanHoldsField | crates/studio-core/src/plan.rs:32-41 | the bytes of a bit field's span, shifted by bit % 8, hold the same field as the whole little-endian memory cut at its bit offset (numbering as DWARF 4, section 5.5.6) |
| Values.FieldRoundTrip | crates/studio-core/src/plan.rs:174-193 | a value stored in a field of 1 to 64 bits decodes to itself if and only if it is not a negative value in a signed field of all 64 bits |
| Values.BitfieldRoundTrip | crates/studio-core/src/plan.rs:32-41 | the same through memory: store in the field's window, read its span, decode |
| Values.FullWidthSignIsLost | crates/studio-core/src/plan.rs:188-192 | a signed 64-bit field holding -1 decodes as 2^64 - 1 |
| Values.ScalarRoundTrip | crates/studio-core/src/plan.rs:45-222 | every value of every whole-number type, signed or not, stored little-endian in its 1, 2, 4 or 8 bytes, decodes to itself |
| Values.OtherScalars | crates/studio-core/src/plan.rs:45-222 | a flag reads 1 exactly when its byte is not 0, floating point keeps the bits of its 4 or 8 bytes, raw bytes have no span and read NaN |
| Values.NoNumber | crates/studio-core/src/plan.rs:174-201 | too few bytes for the type, or a field of no bits or more than 64, read NaN |
| Frame.DecodeEncoded | crates/studio-core/src/frame.rs:117-141 | decoding an encoded frame gives its times and columns back |
| Frame.Encode | crates/studio-core/src/frame.rs:89-107 | the appending loops write header, times and columns byte for byte |
| Frame.ColumnsAreTransposed | crates/studio-core/src/frame.rs:83-86 | column `col` at tick `k` is what row `k` was pushed with at `col` |
| Frame.BatchRoundTrip | crates/studio-core/src/frame.rs:71-141 | a flushed and encoded batch decodes to its rows, transposed |
| Frame.CellsAreAligned | crates/studio-core/src/frame.rs:93-105 | every block of cells in a frame starts at a multiple of eight bytes |
| Frame.FrameInBytes | crates/studio-core/src/frame.rs:1-141 | where a readable frame keeps what: the mark at 0, row and column counts at 4 and 8, times from 16 on, then each column's id and, eight bytes further, its cells |
| Frame.WordsInBytes | crates/studio-core/src/frame.rs:117-141 | words and cells are little-endian |
| Frame.FrameBuilder.Push | crates/studio-core/src/frame.rs:31-35 | a pushed row is appended to the rows of the current ids |
| Frame.FrameBuilder.Take | crates/studio-core/src/frame.rs:43-52 | taking hands on exactly the rows pushed since the last flush and leaves the builder empty for the same ids |
| History.ViewOfWritten | src/live/samples.ts:17-18 | rows written through the ring, of any number, are its newest logical rows; only the oldest are pushed out |
| History.LastIsNewest | src/live/samples.ts:8-18 | a ring holds the newest 131072 rows, or all while there are fewer |
| History.AbsentIsNaN | src/live/samples.ts:91-94 | what an absent reading holds is not a number by IEEE 754, section 3.4 |
| History.WrittenTwice | src/live/samples.ts:83-89 | a column that comes twice in a frame leaves what its later copy wrote |
| History.IngestAppends | src/live/samples.ts:72-99 | after a frame the store holds the newest rows of the log with the frame's rows appended; an id the frame lacks, or not known before, reads NaN |
| History.ForgetErases | src/live/samples.ts:61-63 | forgetting a value erases its readings from the log and nothing else |
| SampleStore.Samples.WriteRing | src/live/samples.ts:80-88 | copying rows through a ring one by one, wrapping as often as it takes |
| SampleStore.Samples.WriteColumn | src/live/samples.ts:23-27 | a column's rows go through its own ring, a new one full of NaN for an id not seen before |
| SampleStore.Samples.WriteColumns | src/live/samples.ts:81-90 | the cursor over the frame's columns writes each of them up to the first that cannot be read, and `seen` is the set of their ids |
| SampleStore.Samples.FillOthers | src/live/samples.ts:91-94 | rings the frame left out read NaN for its rows, the others are untouched |
| SampleStore.Samples.Ingest | src/live/samples.ts:72-99 | for any buffer: a whole frame takes the store to the next store, anything without the magic word changes nothing, and a frame cut short throws, leaving the rings written as far as it could be read but not moved on |
| SampleStore.CutShortIsHarmlessIff | src/live/samples.ts:72-99 | every buffer that throws with so many rows begun leaves all that the scope sees alone, if and only if nothing is visible or the ring has room for the rows |
| SampleStore.HeadlessThrows | src/live/samples.ts:72-84 | for any times, a header that promises a column followed by the times and nothing else is such a buffer: it throws with exactly these times written |
| SampleStore.RowUnderWrite | src/live/samples.ts:79-86 | which visible row reads what after such a frame: the oldest ones read its rows |
| SampleStore.ThrownKeepsRows | src/live/samples.ts:72-99 | a frame cut short for which there is room leaves the history as it was |
| SampleStore.Samples.Clear | src/live/samples.ts:65-71 | clearing leaves an empty history |
| Delivery.FlushedRows | crates/studio-core/src/frame.rs:76-107 | what a flushed frame brings to the log is the ticks pushed, each reading under its own id, the last one should an id repeat |
| Delivery.Flush | src/live/samples.ts:72-99 | pushed, taken, encoded and ingested ticks become exactly the newest rows of the history |
| Delivery.Replay | src/live/samples.ts:50-99 | over any run of frames, other traffic, frames cut short for which there is room, forgets and clears the rings hold the newest rows of the plain log |
| Journey.Deliver | src/live/samples.ts:72-99 | encoding and ingesting a session's batches one by one leaves the newest part of the log of exactly the ticks they carry |
| Journey.DeliverSession | crates/studio-core/src/link.rs:516-555 | once a link session has ended and its batches are delivered, the history is that of every tick that came in, in order, each reading under its own watch |
| Window.LowerBound | src/live/samples.ts:29-39 | the binary search over the ring finds the first row at or after a time |
| Window.Query | src/live/samples.ts:106-177 | rows drawn are exactly those from `from` to `to` and a billionth of a second more; each range is the exact lowest and highest number of those rows, none when there is no number; up to two rows a pixel are drawn as they are, a number as itself and NaN as a gap; of more, each bucket's two points are the first lowest and the first highest number of its rows, the earlier row first, a quarter and three quarters across its column, and gaps when it has none |
| Window.ScanIsExact | src/live/samples.ts:139-155 | the minimum and maximum of a stretch of rows, each at the first row that attains it, NaN left out |
| Window.ScanConcat | src/live/samples.ts:166-168 | folding bucket extents into the ranges gives the extents of all rows |
| Window.PointsAt | src/live/samples.ts:156-169 | each bucket's two points stand at a quarter and three quarters of its column; they are the numbers of two rows of the bucket in order, one the first of its lowest and the other the first of its highest, and both gaps exactly when no row of it reads a number |
| Window.PairShows | src/live/samples.ts:139-169 | so do the two points made of the minimum and maximum found, and the rows they came from, for any stretch of rows |
| Window.EveryRowHasOneStretch | src/live/samples.ts:138-171 | the buckets partition the selected rows: every row is drawn in exactly one, that of its own time |
| Window.XsIncrease | src/live/samples.ts:156-157 | the plot's x values strictly increase |
| Window.PointsAreFew | src/live/samples.ts:101-105 | at most two points a pixel and two more come out while a pixel is no narrower than the slack |
| Window.NarrowPixelsDrawMore | src/live/samples.ts:106-171 | for every window with pixels narrower than the slack there are rows, two at each pixel edge, that draw two points more than that |
| Window.PointsAreFewIff | src/live/samples.ts:101-171 | every window of a given extent draws at most two points a pixel and two more if and only if a pixel is no narrower than the slack, or the pixels outnumber half the ring so that nothing is decimated |
| Window.PartitionIsUnique | src/live/samples.ts:132-171 | there is one way to cut the selected rows into stretches, so what the bucket loop draws is determined by the times |
| Window.Decimate | src/live/samples.ts:131-171 | the bucket loop draws the partition of the rows, and ends |
| Window.LoopMovesOnIff | src/live/samples.ts:132-171 | a turn of the bucket loop moves past the row it starts at if and only if the window ends after it starts |
| Window.ScanBucket | src/live/samples.ts:140-155 | scanning stops at the first row past the bucket's end, at least one row on |
| Window.EveryRow | src/live/samples.ts:117-129 | with few rows every row is drawn, NaN as a gap, and the ranges cover them |
| Window.QuerySeesTheLog | src/live/samples.ts:17-18 | the rows the query sees are the newest rows of the log, whatever the rings went through |
| Ledger.NeverTwice | crates/studio-core/src/rtt_tuning.rs:31-35 | no ticket is ever answered twice, and an answered one neither waits nor is lost |
| Ledger.AllAnsweredOnce | crates/studio-core/src/rtt_tuning.rs:173-186 | once nobody waits, every ticket that was not lost has been answered exactly once and no other has |
| Ledger.AcceptedBalances | crates/studio-core/src/rtt_tuning.rs:211-220 | sending a request under a number keeps the books, whoever waited under it before counted as lost |
| Ledger.RefusedBalances | crates/studio-core/src/rtt_tuning.rs:96-98 | answering at once a request that could not be sent keeps the books |
| Ledger.AnsweredBalances | crates/studio-core/src/rtt_tuning.rs:123-149 | answering whoever waits under a number keeps the books |
| Pace.CallIsTracked | crates/studio-core/src/rtt_tuning.rs:200-224 | over any run of calls, whoever waits was made by one of them and found overdue by no sweep since, and whoever was forgotten was overtaken: its number came round, 65536 frames later, before any sweep found it overdue |
| Pace.PacedIff | crates/studio-core/src/rtt_tuning.rs:200-224 | a run of calls can overtake a request if and only if it is not paced, which can be read off its times, frames and sweeps |
| Pace.SweptIsPaced | crates/studio-core/src/rtt_tuning.rs:155-169 | a run is paced when among so many calls after each request, too few for 65536 frames, some sweep finds it overdue |
| Pace.LostIffOvertaken | crates/studio-core/src/link.rs:218-222 | in a run in which nobody answers and every frame is taken, exactly the overtaken are forgotten |
| Tuning.Session | crates/studio-core/src/rtt_tuning.rs:72-186 | any run of submits and polls of any length ended by a close: every request is answered once and only once, but for those overtaken in the run, of which a paced run has none; each WRITE, DISCARD, SAVE and RELEASE went out behind a LEASE of the same token, and between the two no reply that somebody waited for refused a LEASE or told that the lease is lost |
| Tuning.EveryRequestIsLeased | crates/studio-core/src/rtt_tuning.rs:72-108 | in terms of the bytes on the channel: before each frame of command 0x12, 0x13, 0x14 or 0x03 there is one of command 0x02 with the same token, and between them no frame of command 0x03, no end of the session, no reply of status 8 and no reply of command 0x82 with a status other than 0 |
| Tuning.LossNeedsNewLease | crates/studio-core/src/rtt_tuning.rs:72-149 | between any reply that refused a LEASE or told of its loss and the next WRITE, DISCARD, SAVE or RELEASE there is a new LEASE |
| Tuning.HeldMeans | crates/studio-core/src/rtt_tuning.rs:188-193 | the lease counts as held exactly when a LEASE was written and nothing has ended it since |
| Tuning.RttTuning.Submit | crates/studio-core/src/rtt_tuning.rs:72-99 | what goes out, what waits and what is answered at once, for every outcome of the two writes; a LEASE goes first when none is held |
| Tuning.RequestBytes | crates/studio-core/src/rtt_tuning.rs:86-95 | the requests as bytes: command 0x12, 0x13 or 0x14 behind the token, a WRITE with id, tag, three zeroes and bits; LEASE is 0x02 and RELEASE 0x03 with the token alone |
| Tuning.TimesInSeconds | crates/studio-core/src/rtt_tuning.rs:21-107 | a save has three seconds, anything else one; a renewal is due one second after the newest LEASE |
| Tuning.RttTuning.Send | crates/studio-core/src/rtt_tuning.rs:200-224 | a frame the channel took waits under the next number until its deadline; one it did not take leaves no trace; a waiting ticket is lost only 65536 frames or more after its own |
| Tuning.RttTuning.Lease | crates/studio-core/src/rtt_tuning.rs:188-193 | a lease asked for is held from now on; one the channel did not take changes nothing |
| Tuning.RttTuning.OnReply | crates/studio-core/src/rtt_tuning.rs:122-149 | a reply is matched by number alone: one nobody waits for changes nothing; any other is heard, answers whoever waits, and is noted of the lease as `ReplyInBytes` says |
| Tuning.ReplyInBytes | crates/studio-core/src/rtt_tuning.rs:122-149 | after a reply somebody waits for, the lease is gone exactly when it was not held, or the first payload byte, 1 if there is none, is 8, or the command is 0x82 and that byte is not 0; the requester is told success for 0, the last LEASE refusal for 8 behind one, and the byte itself otherwise |
| Tuning.FirstReplyIsHeard | crates/studio-core/src/rtt_tuning.rs:118-121 | the first reply with the number of a waiting request or LEASE is heard, whatever other frames come before and after |
| Tuning.FirstReplyAnswers | crates/studio-core/src/rtt_tuning.rs:122-149 | a waiting request is answered by the first reply with its number and told what the firmware said, whatever other frames come before and after |
| Tuning.RefusalExplains | crates/studio-core/src/rtt_tuning.rs:129-141 | behind a LEASE that was refused, a request told its lease is lost is told the refusal instead |
| Tuning.RttTuning.Collect | crates/studio-core/src/rtt_tuning.rs:111-154 | reading goes on until a read leaves room in the buffer or fails, and every frame on the way is taken in, in order |
| Tuning.ReadsTakenIn | crates/studio-core/src/rtt_tuning.rs:111-154 | the frames taken in are those of the reads that filled the buffer and of the first that did not, and none behind a read that failed |
| Tuning.RttTuning.Expire | crates/studio-core/src/rtt_tuning.rs:155-169 | exactly the requests past their deadline are forgotten, their tickets told they were late |
| Tuning.OverdueLeave | crates/studio-core/src/rtt_tuning.rs:155-160 | a request waits up to its deadline and no longer |
| Tuning.RttTuning.Poll | crates/studio-core/src/rtt_tuning.rs:101-171 | exactly what the reads left waiting and not yet late still waits, the late are told so, the lease is as the replies left it; nothing goes out but a due renewal; `finished` says whether anyone was answered |
| Tuning.RttTuning.Close | crates/studio-core/src/rtt_tuning.rs:173-186 | nothing waits after a close, every waiting ticket is told the session closed, and RELEASE goes out only while the lease is held |
| Link.Run | crates/studio-core/src/link.rs:253-319 | any session of any length, for the events it took up: each command among them has a ticket but the one whose write failed; every ticket is answered once and only once but for those overtaken in the run, of which a paced run has none; when nothing comes in and everything goes out exactly the overtaken are forgotten; nothing else is answered; every tick that came in is handed on |
| Link.SavesOvertake | crates/studio-core/src/link.rs:218-222 | more saves at once than there are numbers: such a run, in which the first is overtaken |
| Link.Worker.Request | crates/studio-core/src/link.rs:218-222 | a request enters the table under the next number when the stream took it; when the stream fails nothing waits |
| Link.Worker.Ask | crates/studio-core/src/link.rs:340-372 | a command goes out under the next number as 0x12, 0x13 or 0x14 behind the token and waits with its ticket when the stream took it; otherwise nothing is written and nobody waits |
| Link.Worker.Routine | crates/studio-core/src/link.rs:285-297 | a periodic request goes out as given, and nobody waits for it |
| Link.Worker.Subscribe | crates/studio-core/src/link.rs:379-415 | the watch request asks for the wanted watches the catalog knows, 32 at most, at the period given or the rate's, period 0 for none |
| Link.KnownKeepOrder | crates/studio-core/src/link.rs:382-391 | each wanted watch the catalog knows is in the set with its kind, in its place among those known, and nothing else is |
| Link.FirstKnown | crates/studio-core/src/link.rs:382-393 | the set is the first 32 of those |
| Link.RatePeriodIsNearest | crates/studio-core/src/link.rs:399-403 | the period is the whole number of milliseconds nearest to 1000 / rate, within 1 and 1000 |
| Link.WatchReadsBack | crates/studio-core/src/link.rs:404-414 | the WATCH payload is the period in two bytes, the number of cells, and the cells in order, four bytes each |
| Link.Worker.Accept | crates/studio-core/src/link.rs:457-464 | an accepted watch set becomes active with its own columns, after what was collected for the old set went out |
| Link.Worker.OnSample | crates/studio-core/src/link.rs:516-543 | a sample the active set can have sent becomes a tick whose reading for each watch is that watch's word; missed numbers are counted round 16 bits; any other sample changes nothing |
| Link.SampleReadsBack | crates/studio-core/src/link.rs:516-543 | a sample made of a time, the number of readings and one little-endian word for each is one the active set can have sent, and each watch reads its own word |
| Link.GapLeadsOn | crates/studio-core/src/link.rs:525-527 | the numbers counted as missed lead, round 16 bits, from the last sample's to the next |
| Link.Worker.FlushFrame | crates/studio-core/src/link.rs:545-555 | pending ticks are handed on as one batch under the active ids, and none is lost |
| Link.Worker.OnWatchTaken | crates/studio-core/src/link.rs:457-464 | a status of 0 makes the requested set active with its period |
| Link.Worker.OnWatchRefused | crates/studio-core/src/link.rs:465-474 | a budget refusal below 1000 ms writes and waits for a slower request, which for a request with a period is at most the tenth; any other refusal gives it up |
| Link.Worker.OnReply | crates/studio-core/src/link.rs:439-491 | a reply answers exactly whoever waits under its number with its status; one nobody waits for changes nothing; at most one watch request goes out for it |
| Link.Worker.HangUp | crates/studio-core/src/link.rs:303-313 | when the session ends an empty watch set and the lease's release are written, what was collected goes out, and everyone still waiting is told the link closed and nothing else |
| Link.Worker.Expire | crates/studio-core/src/link.rs:578-605 | exactly the requests older than their limit are forgotten, 3 s for a save and 1 s otherwise, their tickets told they were late |
| Link.LimitsInSeconds | crates/studio-core/src/link.rs:578-590 | the limits are three seconds for a save and one for anything else |
| Link.RetriesAreFew | crates/studio-core/src/link.rs:465-474 | a request that asks for a period below the slowest follows at most nine refusals |
| Link.SlowerWhenNonEmpty | crates/studio-core/src/link.rs:466 | a refused period is asked for again strictly slower if and only if there is something to watch and the period is not zero |
| Link.SettlesIff | crates/studio-core/src/link.rs:379-474 | the period asked for stays below the slowest however often it is refused if and only if the set is empty or the period zero; any other has reached 1000 ms, where it is given up, by the tenth refusal |
| Link.RefusalsDouble | crates/studio-core/src/link.rs:379-474 | after n refusals of a set with members the period is 2^n times the first, and 1000 ms at most |
| Link.RefuseForBudget | crates/studio-core/src/link.rs:379-474 | a firmware that keeps refusing for budget: a set that is empty or asked for at period 0 is asked for again after every refusal, any other ten times at most |
| Link.MembersAtZero | crates/studio-core/src/link.rs:465-474 | a set with members comes to be asked for at period 0 when it replaces an empty one whose request is then refused |
| Link.MembersNeverSettle | crates/studio-core/src/link.rs:465-474 | it is then asked for as often as it is refused |
| Link.ReadCatalog | crates/studio-core/src/link.rs:224-251 | paging ends for any firmware, the offset never outgrows its 16 bits, and from a firmware that serves a catalog the result is that catalog |
| Schedule.Ticker.Poll | crates/studio-core/src/schedule.rs:38-49 | true exactly at or after the deadline it reports; the new deadline is then on the grid, after now and at most a period away, and while the tick number fits 32 bits no deadline goes uncounted |
| Schedule.Run | crates/studio-core/src/schedule.rs:34-54 | over any run of polls, ticks served and ticks skipped are together the grid deadlines up to the last poll that came out true |
| Schedule.CountIsDue | crates/studio-core/src/schedule.rs:44-47 | the deadlines up to a time, counted one by one, are the quotient the ticker computes, plus one |
| Schedule.CutTicksEarly | crates/studio-core/src/schedule.rs:34-49 | at tick number 2^32 a poll before the deadline comes out true and the number does not grow |
| Schedule.CutDeadline | crates/studio-core/src/schedule.rs:34-36 | the cut to 32 bits moves the deadline if and only if the tick number no longer fits them |
| Tap.NothingUncounted | crates/studio-core/src/tap.rs:346-367 | for each subscriber, batches, ticks and other events published since subscribing are received, queued or counted as dropped |
| Tap.ReceivedInOrder | crates/studio-core/src/tap.rs:346-367 | what a subscriber received is a subsequence of what was published since it subscribed, in publication order |
| Tap.Tap.Subscribe | crates/studio-core/src/tap.rs:206-232 | a subscriber starts empty at the current end of the publication, with room for at least one message |
| Tap.Tap.Publish | crates/studio-core/src/tap.rs:346-367 | every open subscriber is offered the event and keeps or counts it; those gone are let go |
| Tap.KeptWithRoom | crates/studio-core/src/tap.rs:346-367 | a message is kept if there is room for it, and only counted, as a batch with its ticks or as an event, if there is none |
| Tap.EveryoneIsOffered | crates/studio-core/src/tap.rs:346-367 | each subscriber still there is offered the message, and they keep their order |
| Tap.Tap.SetWatches | crates/studio-core/src/tap.rs:249-268 | the listed set is replaced, and announced only when it changed and the session is not sampling or the ids are the same |
| Tap.Tap.OnSamples | crates/studio-core/src/tap.rs:304-333 | a batch is published with metadata for exactly its columns: the listed set when the ids are the same, or else a set named from what is known of each id; a set made for the last batch with these ids is used again, and its ids are still known under the same texts |
| Tap.LastListedIsKnown | crates/studio-core/src/tap.rs:251-253 | an id is known as it was last listed |
| Tap.UnlistedStays | crates/studio-core/src/tap.rs:251-253 | what is known of an id that is not listed stays |
| Tap.ColumnIsDescribed | crates/studio-core/src/tap.rs:311-329 | a column has the text its id was last listed with and the name, by itself or with `#` and the id behind it; one never listed is called `id` and its number |
| Tap.RememberedNamesIff | crates/studio-core/src/tap.rs:304-333 | after a relisting that comes out the same, a remembered set is what would be made now, for all ids, if and only if every id known is still listed under the same name |
| Tap.RenamedUnseen | crates/studio-core/src/tap.rs:249-333 | such a name that goes unseen: of two values called `x` the second is listed again as `x#` and its id, and the next batch still calls it `x` |
| Tap.DigitsSpell | crates/studio-core/src/tap.rs:45-48 | an id's digits are decimal, without leading zeroes, and spell the id |
| Tap.Run | crates/studio-core/src/tap.rs:197-397 | under any interleaving of publishing, subscribing, draining and leaving, nothing is uncounted |
| Tap.NamesAreUniqueIff | crates/studio-core/src/tap.rs:41-53 | for any watches, the names come out distinct and none is `t` if and only if no value clashes: its name and its name with the id appended are both used up by the values before it |
| Tap.ClashWithDistinctIds | crates/studio-core/src/tap.rs:41-53 | with distinct ids a value clashes exactly when its own name is used up and an earlier value is called what it would be called with its id |
| Tap.NameWatches | crates/studio-core/src/tap.rs:41-53 | the loop over the watches gives each the specified name |
| Tap.NamesAreUnique | crates/studio-core/src/tap.rs:41-53 | in particular names are distinct when ids are and no name given contains `#` |
| Tap.MarkedNamesCollide | crates/studio-core/src/tap.rs:41-53 | such a clash for every name and every three ids: `x`, behind another `x` and one called `x#` and that id |
| Fanout.OfferedIsAccounted | crates/studio-app/src/stream.rs:227-260 | whatever the writer takes, and whether it stops, between the notice and the line: batches offered are enqueued or dropped, and dropped is what notices told plus what is still owed |
| Fanout.QuietOffer | crates/studio-app/src/stream.rs:227-260 | with an idle writer: a line takes its place behind the notice of what is owed when there is room for both, is missed and counted when there is not, and the notice goes in whenever it fits |
| Fanout.EveryBatchIsKnown | crates/studio-app/src/stream.rs:227-260 | every batch offered was taken by the writer, is queued, is told of in a notice taken or queued, or about to be told of |
| Fanout.KeptWithinLimit | crates/studio-app/src/stream.rs:249-256 | after an offer a client is kept exactly while its writer runs and it owes no more batches than the limit; one let go with its writer running owes one more and has a full queue |
| Fanout.NoticeCanLag | crates/studio-app/src/stream.rs:233-249 | with a full queue and a writer that makes room in between, the line goes in and the notice stays owed |
| Fanout.StopsAfterNotice | crates/studio-app/src/stream.rs:233-258 | with a writer that stops in between, the notice was sent and the line is not counted |
| Fanout.FanOut.Broadcast | crates/studio-app/src/stream.rs:495-504 | every client is offered the line while its own threads run, those too far behind or without a writer are marked, and the total never falls |
| Fanout.FanOut.Reap | crates/studio-app/src/stream.rs:481-493 | exactly the clients still alive remain, in whatever order, and the total survives |
| Fanout.FanOut.Remove | crates/studio-app/src/stream.rs:488-490 | a removed client's losses move to the total of those gone |
| Fanout.FanOut.NoteTapLoss | crates/studio-app/src/stream.rs:408-416 | what the tap lost is added to the total once and told to every client |
| Fanout.FanOut.Add | crates/studio-app/src/stream.rs:456-470 | a new client starts with the greeting in a queue of at least two |
| Fanout.Run | crates/studio-app/src/stream.rs:398-445 | under any interleaving with the writers, also inside an offer, the reported total never falls and every client's batches are accounted for |
| TypeTable.UnderlyingKeepsSize | crates/studio-dwarf/src/type_table.rs:938-958 | stripping forward declarations and aliases, as far as they are followed, keeps the size |
| TypeTable.AliasesAreStripped | crates/studio-dwarf/src/type_table.rs:939-958 | of aliases in a row the first twenty-one are stripped, and no more |
| TypeTable.SizesInBytes | crates/studio-dwarf/src/type_table.rs:729-753 | addresses take four bytes, an array its elements end to end, void and an unknown count nothing, and a declaration alone has no size |
| TypeTable.ResolveOnce | crates/studio-dwarf/src/type_table.rs:650-661 | once declarations point at definitions, following one takes a single step |
| TypeTable.Builder.Allocate | crates/studio-dwarf/src/type_table.rs:567-572 | a new id is the next one, with nothing known of it yet and nothing listed under it |
| TypeTable.Builder.Define | crates/studio-dwarf/src/type_table.rs:596-618 | a definition is listed under its name and a declaration waits to be resolved |
| TypeTable.Builder.FindBest | crates/studio-dwarf/src/type_table.rs:673-696 | the definition found has the name and kind asked for and as many members as any, and is the first such; none only when there is none |
| TypeTable.BestHasMost | crates/studio-dwarf/src/type_table.rs:673-696 | the best definition is of the kind declared, has the name, and has at least as many members or values as any other |
| TypeTable.Builder.ResolveForwardDeclarations | crates/studio-dwarf/src/type_table.rs:698-721 | every open declaration ends up at the best definition of its name and kind, and nothing else changes |
| TypeTree.ReferencesResolve | crates/studio-dwarf/src/tree.rs:277-412 | any reference built by taking children, at any depth, resolves to the very place the tree handed out, bits included |
| TypeTree.WhereChildrenAre | crates/studio-dwarf/src/tree.rs:287-357 | child k of a struct or union is its member k, offset bytes on, with that member's type and bits; a tag stands before all variants, which carry their discriminants; element k of an array is k sizes on |
| TypeTree.EnterLeads | crates/studio-dwarf/src/tree.rs:463-520 | a step enters a type exactly when it names a member or variant, the tag or an element it has, and leads to the first of that name, as many bytes on as its offset says |
| TypeTree.AddressIsSum | crates/studio-dwarf/src/tree.rs:384-411 | every reference resolves along a way on which each step is taken from the innermost type it enters, and its address is the symbol's plus the sum of the offsets stepped over |
| TypeTree.StepLeadsToFirst | crates/studio-dwarf/src/tree.rs:287-500 | the step of any child of any place leads to the first child with that step, or nowhere in a union with variants |
| TypeTree.OwnStepIff | crates/studio-dwarf/src/tree.rs:287-500 | a child's step leads back to its own place if and only if the first member or variant of that name has the same place and the parent is no union with variants |
| TypeTree.ChildEnters | crates/studio-dwarf/src/tree.rs:287-357 | where names are distinct and no union has variants, a child's step leads to the place handed out with it |
| TypeTree.UnnamedMembersCollide | crates/studio-dwarf/src/tree.rs:463-480 | of two unnamed members of a union the second's step leads to the first, so it misses its own place when their types differ |
| TypeTree.EveryValueIsInside | crates/studio-dwarf/src/tree.rs:277-357 | in a table whose members lie inside their types, every value the tree hands out lies inside its symbol |
| TypeTree.PeelKeepsSize | crates/studio-dwarf/src/tree.rs:565-570 | the value inside every wrapper has the size of the whole |
| TypeTree.HeldFillsWrapper | crates/studio-dwarf/src/tree.rs:529-551 | what a wrapper holds starts where the wrapper does and is as large |
| TypeTree.WrapperIff | crates/studio-dwarf/src/tree.rs:529-551 | a type is a wrapper if and only if it is, behind its aliases, a struct or union with no variants and no bases, one of whose members fills it while all others take no room |
| TypeTree.WrappersArePeeled | crates/studio-dwarf/src/tree.rs:523-570 | of wrappers in a row the outermost sixteen are peeled off, and no more |
| TypeTree.PeelIsIdempotent | crates/studio-dwarf/src/tree.rs:553-570 | peeling again changes nothing for every chain within the limit |
| TypeTree.PeelTwiceIff | crates/studio-dwarf/src/tree.rs:523-570 | in a table whose types nest, peeling is idempotent if and only if it reached a type that is no wrapper |
| TypeTree.ScanMembers | crates/studio-dwarf/src/tree.rs:538-550 | the scan finds the one member that fills the type, if all others are zero-sized |
| TypeTree.WrapperChain | crates/studio-dwarf/src/tree.rs:553-563 | the loop collects the chain of types, outermost first |
| TypeTree.ResolveReference | crates/studio-dwarf/src/tree.rs:384-411 | following the steps one by one, innermost type first at each, resolves the reference |
| TypeTree.ChildCountIsHonest | crates/studio-dwarf/src/tree.rs:602-613 | a node has as many children as it says, or the limit if that is fewer and it is an array |

## Left out

- RttDuplex.Duplex.Attach: does not parse the control block; what looking for the two channels gives is a parameter.
- The layout of the offset words in memory: words and buffer bytes are separate cells, and an offset is read and written whole; the two offsets are read as two words, the firmware running between them, where the source reads eight bytes.
- `RttReader` and its state strings: its ring read is `RttHost.RingRead`, its attach rule that of `RttDuplex.Duplex.Attach`.
- Overflow of 64-bit addresses and lengths in the planner, the tree and the rings.
- `wire::Reader`, `slot` and the status texts, beyond the fields the models read; errors carry a status number instead of a text.
- Plan.ReadPlan.Sample: memory is a function from addresses to bytes per region read, and a failed read's message is not kept.
- Values.FieldRoundTrip: a field with bits = 63 and its sign set overflows the checked subtraction of a debug build; the wrapping result of a release build is modelled.
- Floating point: cells are 64-bit patterns, decoded floats stay opaque, integers are exact where the source rounds to `f64`; times and readings of the window query are real numbers or NaN, infinities left out.
- Window.Query: takes the rings as values; zero pixels, and a window that ends no later than it starts while it selects more than two rows a pixel, divide by a width that is not positive and are left out.
- Tuning.RttTuning.Collect: takes the frames each read completes; that they are what the decoder makes of the bytes is `Framing.Decoder.Feed`.
- Tuning.RttTuning.Send: a write to the channel that fails is taken to have left nothing visible, as `RttHost.RingWrite` shows.
- Schedule.Run: polls past tick number 2^32 - 1, where the deadline goes back (`Schedule.CutDeadline`, `Schedule.CutTicksEarly`).
- Tuning.Session: which of the overtaken requests a silent firmware leaves forgotten is said of the link alone; here a call's frames are an upper bound.
- Journey.DeliverSession: batches have fewer than 2^32 ticks, the encoder's own limit.
- Link.Run: the handshake before the run, the polling of values in chunks, link statistics and error texts.
- Link.Worker.OnSample: the float decoding of a cell and the conversion of microseconds to seconds are parameters.
- Tap.Tap.Subscribe: snapshots of session info, clock and check for a new subscriber; those events are only counted.
- Fanout.FanOut.Broadcast: clients and their queues are values in the fan-out's list; what a writer does during an offer happens between its two sends, as before and after it; the JSON of a line, sockets and threads are not modelled.
- TypeTree.ResolveReference: task-pool slots, labels, type names and error texts; a reference that does not resolve is only that.
- TypeTable.Builder.Define: each id is defined once; the keys of debug entries and the names of Rust types are left out.
- The recursion of `type_size` over a cyclic table: tables here carry ranks that rule it out.
- Extraction of debug information, inherited members, probe, serial and HID carriers, recording, the user interface and the extension.
