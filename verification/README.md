# quicrtc: verified models of the publish, resume, wire and recording cores

quicrtc is a live publish/subscribe transport. A publisher hands access units
(frames, token batches, telemetry) to a broadcaster; every subscriber session has
a bounded queue per track; a pump takes access units off that queue and writes
them to QUIC streams or datagrams; the client parses the streams back into access
units. A disconnected session is parked, and on reconnect the access units it
missed are taken from a replay ring. Sessions can be recorded to a log file and
indexed.

This project models those parts in Dafny 4.11 and proves what they promise. QUIC
is the environment: opening a stream, writing to it and sending a datagram may
each fail, in any pattern. Goroutines are atomic steps (one per critical section)
that may come in any order. Clocks, random IDs and consumer timing are parameters.

`dafny verify dfyconfig.toml` checks everything.

| part | files |
|---|---|
| bytes, access units, framed streams | Bytes, AccessUnits, Framing |
| replay ring, receivers, broadcaster | Replay, ReplayRings, Receivers, Lanes, Broadcasting |
| park and resume | Resume, Sessions, ResumeDelivery, SessionStore, SessionLifecycle |
| wire format, client, TypeScript reader | FeedWire, ClientFeed, TsWire |
| pumps and scheduler | StreamLog, GopPump, LowLatencyPump, DatagramPump, WorkHeap, Scheduling, ChunkedWrites |
| recording | RecordFormat, Recording, Recorder |
| numeric cores | SendRateMeter, RateLimiter |

How a claim is laid out: a specification on values (what a queue, a ring, a log
of stream operations must look like), a class or method that follows the source
and is tied to it, and lemmas that prove the promise over every run or input.

## Main results

- **Gap-free resume** (`Resume.GapFreeResume`, and on the objects
  `Sessions.DisconnectAndResume`): the resumed queue is every access unit accepted
  after last-seen, ascending, preceded at most by the seed keyframe, whenever the
  replay window reaches back far enough.
- **Ring refinement** (`Replay.RingRetainsHistory`, `Replay.RingIsSuffix`,
  `Replay.RingWithinLimits`): the circular buffer is the longest suffix of the
  history that fits both limits, also when the limits change.
- **Drop policies** (`Lanes.SentIff`, `Lanes.VideoFanOut`,
  `Lanes.SelfContainedFanOut`, `Lanes.EvictsOnlyWhenFull`): exactly which units get
  into a queue, with consumers racing inside a send.
- **Stream discipline and exact accounting** of the three pumps
  (`GopPump.Pump.Run`, `LowLatencyPump.Pump.Run`, `DatagramPump.Pump.Run`), with
  the fate of each unit from its size and the transport alone
  (`GopPump.DeliveredIff`, `LowLatencyPump.DeliveredIff`,
  `DatagramPump.ExpectedIff`), and
  **end to end** to the client, whose streams resets may cut short
  (`GopPump.ClientGetsOneGop`, `GopPump.ReceiveGop`), and from the resumed
  queue to the wire (`ResumeDelivery.ResumedUnitsAreWritten`).
- **Scheduler safety** (`Scheduling.NothingStranded` and neighbours) and
  **interleaved chunked writes** (`ChunkedWrites.StreamsCarryWholeFrames`).
- **Round trips**: whole feed streams cut anywhere
  (`ClientFeed.DrainWritten`, `StreamLog.ClientReadsFrames`), recordings cut
  anywhere (`Recording.CrashConsistent`), recorder to file to index
  (`Recorder.IndexMatchesReplay`).
- **Session-ID linearity** (`SessionLifecycle.SessionsAreLinear`) and resumption
  up to the deadline (`SessionLifecycle.ReconnectResumes`).
- **Numeric cores** (`SendRateMeter.Meter.Rate`, and both bounds of the limiter:
  `RateLimiter.AdmittedIsBounded`, `RateLimiter.BurstIsAdmitted`).

Where the code does not keep a promise on all inputs, the exact condition is
proved: `RecordFormat.RoundTripsIffStorable` (the recorder writes frames over
64 MiB that the reader refuses), `TsWire.TsWriterRoundTrips` (the TypeScript cap is
one above what 24 bits express, and the wall-clock flag is written without a
clock), `FeedWire.WritersWriteFrames` (the same flag in Go),
`SendRateMeter.TotalIsExactIff` (sizes of 2^32 or more),
`SessionStore.TenantsShareKeyIff` (tenant names continued across a NUL),
`Resume.WrapReplaysEverything` (last-seen 2^32 - 1) and
`Resume.ResumeInsidePublish` (when a resume between the two critical sections of
Publish makes one access unit arrive twice).

## Where code and documentation differ

The model follows the code.

- ReplaySince on an empty ring answers "ok", although its comment asks for an older entry (pubsub/broadcaster.go:313-325).
- SpliceFront evicts the oldest entry whatever it is, not the oldest non-keyframe (pubsub/broadcaster.go:437-448).
- A resumed queue may start with the seed keyframe, not just after last-seen (server/server.go:1248-1254 and pubsub/broadcaster.go:374-376).
- BuildTimeline salvages a torn final frame instead of failing (record/timeline.go:75-80 and 105-114).
- The rate meter keeps every sample of the window; only the dead prefix is bounded by 1024 (transport/congestion.go:66-68 and 88-92).
- The TypeScript payload cap is one above the Go cap it is said to match (ts-sdk/src/wire.ts:25-27).

## Model

| member | source | states |
|---|---|---|
| Replay.RetainIsLongest | pubsub/broadcaster.go:232-255 | what the ring keeps of a history is a suffix of it, fits the slot cap and the byte budget (a lone oversized unit is kept), and no longer suffix fits; it is empty only for an empty history or a disabled ring |
| Replay.TrimIsLongest | pubsub/broadcaster.go:219-230 | lowering the byte ceiling leaves the longest suffix within it, dropping even a lone oversized unit |
| Replay.RetainStep | pubsub/broadcaster.go:235-255 | appending to what was retained retains the same as appending to the whole history |
| Replay.RingIsSuffix | pubsub/broadcaster.go:155-311 | through any sequence of appends and limit changes the ring is a contiguous suffix of the accepted history in publish order |
| Replay.RingRetainsHistory | pubsub/broadcaster.go:190-311 | with fixed limits the ring is exactly the longest suffix of the whole accepted history within them, spelled out in entries and bytes |
| Replay.AppendMeans | pubsub/broadcaster.go:235-255 | appending keeps the limits and the longest suffix of contents plus unit within them, in entries and bytes; with any slot at all the new unit is kept |
| Replay.SetCapMeans | pubsub/broadcaster.go:155-181 | a resize sets the slots to the argument, or 0 if negative, leaves the byte limit, and keeps the longest suffix of the old contents within both; the same size changes nothing |
| Replay.SetMaxBytesMeans | pubsub/broadcaster.go:219-230 | the new byte limit is the argument, or 0 if negative; everything is kept without a limit, else the longest suffix within it |
| Replay.LongestIsUnique | pubsub/broadcaster.go:155-255 | there is one longest suffix within the limits, and contents already within them are kept whole |
| Replay.RingWithinLimits | pubsub/broadcaster.go:155-255 | through any sequence of appends and limit changes the ring is within its current limits |
| ReplayRings.ReplayRing.Push | pubsub/broadcaster.go:235-255 | the circular buffer, read from its head, becomes the longest fitting suffix of contents plus the new unit, and the byte counter stays the true sum |
| ReplayRings.ReplayRing.EvictOldest | pubsub/broadcaster.go:259-291 | exactly the oldest entry goes, wrapped or not; the counter stays exact and never needs its clamp |
| ReplayRings.ReplayRing.Snapshot | pubsub/broadcaster.go:295-311 | the contents in publish order |
| ReplayRings.ReplayRing.SetReplayCap | pubsub/broadcaster.go:155-181 | the slots become the argument, or 0 if negative; the contents become the longest suffix of the old ones within the new size and the byte limit; the same size changes nothing |
| ReplayRings.ReplayRing.SetReplayMaxBytes | pubsub/broadcaster.go:219-230 | the limit becomes the argument, or 0 if negative; 0 or less drops nothing, else the longest suffix within the limit is left |
| ReplayRings.ReplayRing.ReplaySince | pubsub/broadcaster.go:319-347 | refused exactly when the ring is non-empty and all of it is newer than asked; otherwise a sorted permutation of the retained units numbered at or above |
| ReplayRings.ReplayIsExact | pubsub/broadcaster.go:313-347 | with ascending Seqs an "ok" answer is exactly the units of the entire history at or above the request, and refusal means the request is older than everything retained |
| Receivers.SortBySeq | pubsub/broadcaster.go:345 | sort.Slice: sorted by Seq and a permutation, nothing about ties |
| Receivers.Receiver.constructor | pubsub/broadcaster.go:367-370 | an empty open channel of the given size |
| Receivers.Receiver.RequestKeyframe | pubsub/broadcaster.go:55-59 | the receiver waits for a keyframe |
| Receivers.Receiver.Send | pubsub/broadcaster.go:600-659 | fan-out to one receiver, case by case: with room the unit is appended unless the receiver waits for a keyframe; a full queue makes room by one eviction besides what a racing consumer takes, for keyframes and self-contained tracks only; any other unit is dropped and the receiver waits; a sent video unit ends the wait |
| Receivers.Receiver.EvictAndSend | pubsub/broadcaster.go:639-653 | after one eviction the second send always succeeds: the "still full" branch is dead |
| Receivers.MadeRoomIs | pubsub/broadcaster.go:639-653 | making room removes what the consumer takes and one entry more, from the front |
| Receivers.Receiver.SpliceFront | pubsub/broadcaster.go:404-460 | the queue becomes the last `cap` entries of the ascending merge of prefix and queue, one per Seq, the queue's copy winning |
| Receivers.SpliceKeepsNewest | pubsub/broadcaster.go:404-460 | every queue entry and the prefix entries whose Seq the queue lacks, ascending; over capacity the newest of them, so what is left out is older than all that is kept |
| Receivers.EnumerationIsUnique | pubsub/broadcaster.go:432-436 | map iteration order cannot show in a splice |
| Lanes.VideoRun | pubsub/broadcaster.go:367-387 | over every interleaving of publishes, takes, keyframe requests and unsubscribe, the queue is what was sent and has not left, within capacity, and nothing but a keyframe follows a gap; exactly what is sent is Lanes.SentIff |
| Lanes.VideoFanOut | pubsub/broadcaster.go:600-658 | every keyframe published while subscribed is enqueued; what is enqueued of a GOP is a contiguous prefix of it; the newest keyframe is queued or was consumed |
| Lanes.SentIff | pubsub/broadcaster.go:628-658 | over every run: a published unit is enqueued if and only if it is a keyframe, or the queue has room, the unit before it was enqueued and no keyframe was requested since |
| Lanes.NothingDroppedWithRoom | pubsub/broadcaster.go:600-658 | as long as no more is offered than the queue holds, the seed or a keyframe first and no requests, everything offered is enqueued and nothing evicted |
| Lanes.EvictsOnlyWhenFull | pubsub/broadcaster.go:608-653 | over every run on either kind of track, k evictions need at least capacity + k enqueued units |
| Lanes.SelfContainedRun | pubsub/broadcaster.go:608-627 | over every interleaving everything offered is sent, and nothing evicted is the latest |
| Lanes.SelfContainedFanOut | pubsub/broadcaster.go:608-627 | the queue is a contiguous suffix of seed plus everything published since subscribing, within capacity, and the latest unit is queued or was consumed |
| Broadcasting.Broadcaster.constructor | pubsub/broadcaster.go:190-201 | defaults: 30 slots per subscriber, 256-slot and 64 MiB ring |
| Broadcasting.Broadcaster.SubscribeWithCapacity | pubsub/broadcaster.go:360-387 | a fresh receiver, at least the default size, seeded with the cached keyframe, else waiting for one unless self-contained |
| Broadcasting.Broadcaster.Unsubscribe | pubsub/broadcaster.go:467-483 | the receiver is removed and closed; nothing happens to one that is not subscribed |
| Broadcasting.Broadcaster.Admit | pubsub/broadcaster.go:558-582 | the unit after the interceptor chain, or nothing if one drops it or it exceeds the size cap |
| Broadcasting.ChainComposes | pubsub/broadcaster.go:558-570 | an empty chain passes the unit on, one interceptor decides alone, and a chain does what its parts do in order, stopping at the first drop |
| Broadcasting.AdmitsWithinCap | pubsub/broadcaster.go:572-582 | the result of the chain is admitted if and only if there is no size cap or it is within it, and unchanged |
| AccessUnits.LatestKeyframeIs | pubsub/broadcaster.go:583-589 | the cached keyframe is the last keyframe of the history; there is none if and only if the history has no keyframe |
| Broadcasting.Broadcaster.BeginPublish | pubsub/broadcaster.go:555-598 | the first critical section: a refused unit changes nothing; an accepted one joins the history, the ring and the keyframe cache; the receivers are noted and untouched |
| Broadcasting.FanOut | pubsub/broadcaster.go:600-659 | the rest: every noted receiver is offered the unit, and one closed meanwhile is left as it is |
| Broadcasting.Broadcaster.Publish | pubsub/broadcaster.go:554-660 | the two in one go: a refused unit changes nothing; an accepted one joins the history and the ring and is offered to every receiver |
| Broadcasting.Broadcaster.Close | pubsub/broadcaster.go:665-681 | every receiver is closed with its queue intact, and none is left subscribed |
| Resume.ParkedHolds | server/server.go:1354-1373 | a parked queue is ascending and holds only the seed and units published while parked |
| Resume.SpliceIsGapFree | server/server.go:1284-1286 | the splice leaves the replayed units, preceded at most by the seed |
| Resume.GapFreeResume | server/server.go:1243-1287 | for every history before and during the disconnect: the resumed queue is every accepted unit after last-seen, ascending, after at most the seed keyframe, in at most 257 of at least 320 slots; when the window does not reach, the queue is unchanged and video waits for a keyframe |
| Resume.GapFreeResumeFromRing | pubsub/broadcaster.go:319-347 | the same for the ring a broadcaster with unchanged limits holds |
| Resume.WrapReplaysEverything | server/server.go:1264 | at last-seen 2^32-1 the request wraps to 0: for every receiver whose queue was drawn from the history, the queue becomes the whole window if that still starts at Seq 0, else it is unchanged and video waits for a keyframe |
| Resume.WrapOnParked | pubsub/broadcaster.go:374-376 | the same for a parked receiver, seeded or not |
| Resume.ResumeInsidePublish | pubsub/broadcaster.go:592-600 | a resume between ring append and fan-out already has the unit in flight; fan-out delivers it a second time if and only if the track is self-contained, the unit is a keyframe or the receiver waits for none, and otherwise changes nothing |
| Sessions.Server.ResumeTracks | server/server.go:1255-1287 | each receiver whose track exists and has a last-seen entry is resumed from that track's ring, as video if its kind is "video" or empty; every other receiver is unchanged |
| Sessions.ResumeTrack | server/server.go:1264-1286 | one track is resumed: replay from last-seen plus one on 32 bits, splice, or keyframe request for video |
| Sessions.ParkTrack | server/server.go:1368-1378 | a fresh receiver in the parked state; the active receivers are closed and gone |
| Sessions.PublishParked | pubsub/broadcaster.go:554-660 | publishing offers a parked receiver exactly what is accepted, and the ring stays a window on the history |
| Sessions.DisconnectAndResume | server/server.go:1243-1384 | park, any publishes, resume, on the objects themselves: the receiver's queue is gap-free |
| SessionStore.KeyDetermines | server/session_store.go:186-190 | unless one tenant's name continues the other's across a NUL, a key determines tenant and session ID, whatever ID a client sends |
| SessionStore.TenantsShareKeyIff | server/session_store.go:186-190 | two tenants can share a key if and only if they are equal or one continues the other across a NUL |
| SessionStore.KeysCollide | server/session_store.go:186-190 | the session ID with which such a tenant reaches the other's key |
| SessionStore.MemoryStore.constructor | server/session_store.go:160-172 | an empty store; defaults for non-positive TTL and cap |
| SessionStore.MemoryStore.EvictExpired | server/session_store.go:250-262 | exactly the expired entries leave, each with one callback run |
| SessionStore.MemoryStore.MakeRoom | server/session_store.go:204-216 | as few entries as needed leave, soonest-expiring first, each with one callback run |
| SessionStore.MemoryStore.Park | server/session_store.go:196-223 | sweep, make room, insert; never more than the cap |
| SessionStore.MemoryStore.Resume | server/session_store.go:228-239 | sweep, then the entry is taken out without its callback, or nothing is found |
| SessionStore.SweepKeepsUntil | server/session_store.go:250-262 | a sweep leaves an entry up to and including its deadline and not after |
| SessionStore.ParkKeepsOthers | server/session_store.go:196-223 | a Park puts its entry in and, below the cap, leaves every other entry before its deadline |
| SessionStore.ResumeUntilDeadline | server/session_store.go:228-239 | a Resume gets the entry up to its deadline and nothing after, and leaves every other entry before its own |
| SessionLifecycle.InsertKeeps | server/server.go:1384 | parking a live session never overwrites an entry |
| SessionLifecycle.ResumedIsOwn | session/session.go:887-889 | a resume gets only the entry parked for its own tenant and ID |
| SessionLifecycle.SessionsAreLinear | server/server.go:1317-1385 | in every run a tenant and ID are held by at most one live session or one parked entry, never both; each parked entry is parked, resumed once without callback, or disposed of once; the cap holds |
| SessionLifecycle.StaysParked | server/server.go:1317-1385 | in every run a parked entry stays as it was through steps before its deadline that do not ask for it or need its room |
| SessionLifecycle.ReconnectResumes | session/session.go:887-909 | in every run a session that asks for its ID before its deadline, after such steps, is resumed under that ID; its entry is resumed once and its callback never run |
| SessionLifecycle.LateReconnectIsFresh | session/session.go:909-931 | after the deadline it gets a fresh ID, and the entry's callback has run exactly once |
| FeedWire.EncodersAgree | feed/pump.go:656-676 | whatever the flags, the pump's encoder writes the bytes of WriteFeedFrame, or of WriteFeedFrameWall with a clock |
| FeedWire.WritersWriteFrames | wire/frame.go:335-384 | WriteFeedFrameWall always writes one frame's encoding; WriteFeedFrame does if and only if the flags announce no wall clock; both refuse what 24 bits cannot express |
| FeedWire.EncodeUnique | wire/frame.go:335-384 | two frames whose encodings start the same bytes are equal |
| FeedWire.HeaderFields | wire/frame.go:335-360 | type at byte 0, length at 1-3, timestamp at 4-11, Seq at 12-15, flags at 16 |
| Bytes.MostSignificantFirst | wire/frame.go:341-346 | integers are written most significant byte first |
| FeedWire.StreamReader.ReadFull | wire/frame.go:302-306 | exactly n bytes however the stream hands them out, a put-back byte included; otherwise end of stream or truncation |
| FeedWire.ReadFeedFrame | wire/frame.go:302-333 | succeeds exactly when a whole frame is there, and then what was consumed is that frame's encoding |
| ClientFeed.PeekStreamHeader | wire/frame.go:166-190 | a named stream loses exactly its header, a legacy stream its first byte; fails exactly on an empty stream or an incomplete, empty or oversized header |
| ClientFeed.DrainFeed | client/client.go:906-944 | the bytes are the header (or none), the encodings of the returned frames, and a leftover that holds no whole frame |
| ClientFeed.WholeStreamRoundTrip | client/client.go:906-968 | a named or unnamed stream, cut anywhere inside a frame, has one reading: the name ("primary" when absent) and exactly the whole frames |
| ClientFeed.DrainWritten | client/client.go:906-944 | the client, run on any such stream, returns that name and exactly those frames; only an empty unnamed stream gives nothing |
| ClientFeed.CutHeaderIsUnreadable | wire/frame.go:174-189 | a stream cut inside its header holds no header and cannot be drained |
| ClientFeed.PumpsWriteFrames | feed/pump.go:486-496 | what the pumps hand to the encoder is the encoding of the frame for that unit |
| ClientFeed.ClientGetsUnit | client/client.go:930-937 | the client rebuilds the dequeued unit with the stamped clock; self-contained tracks arrive as keyframes |
| ClientFeed.ResumeCursor.ObserveSeq | client/client.go:347-353 | last-seen is the highest Seq received on each track |
| TsWire.BufferedReader.Read | ts-sdk/src/wire.ts:380-418 | exactly the next n bytes of the uncut stream, whatever the chunks, empty ones included; fails only when fewer remain |
| TsWire.BufferedReader.Unread | ts-sdk/src/wire.ts:426-433 | the bytes are put back in front |
| TsWire.BufferedReader.ReadSequence | ts-sdk/src/wire.ts:369-418 | any sequence of reads gives what it gives on the uncut stream |
| TsWire.BufferedReader.UnreadThenRead | ts-sdk/src/wire.ts:426-433 | unread then read is the identity |
| TsWire.TsReadFeedFrame | ts-sdk/src/wire.ts:103-136 | the same contract as the Go reader, on any chunking |
| TsWire.TsPeekStreamHeader | ts-sdk/src/wire.ts:194-220 | the name with the header consumed, or an untouched legacy stream; same failures as the Go reader |
| TsWire.TsWriterRoundTrips | ts-sdk/src/wire.ts:138-160 | for all arguments: an accepted payload is written as the frame with those fields if and only if it is below 16 MiB and the flags announce no wall clock; at the cap the length field reads 0, with the flag a reader wants eight bytes more |
| StreamLog.AtMostOneLive | feed/pump.go:449-458 | at every moment of an orderly log at most one stream is neither reset nor closed |
| StreamLog.Transport.Open | feed/pump.go:388-408 | a stream with its header, or none if the open or the header fails, in which case it was reset |
| StreamLog.StreamStates | feed/pump.go:496-502 | every stream holds its header, whole frames, and part of one more frame only if that frame's write failed |
| StreamLog.ClientReadsFrames | client/client.go:906-944 | from any prefix of a stream that arrives, a client that can drain it gets the name and a prefix of the frames written whole; all of them from a stream closed and never reset |
| StreamLog.ArrivedIsReadable | wire/frame.go:166-190 | what arrives can be drained if and only if it is not empty and has the whole header |
| GopPump.Pump.Handle | feed/pump.go:429-506 | one access unit keeps the discipline |
| GopPump.Pump.Run | feed/pump.go:414-507 | for every unit list and failure pattern: one live stream, ended by reset; each stream a contiguous run whose only keyframe is its first, keyframe-first except a leading first stream; one outcome per unit: written if and only if the stream of its GOP opened and every write of the GOP up to it works, else one keyframe request |
| GopPump.DeliveredIff | feed/pump.go:429-506 | a unit is written if and only if a stream could be opened for the last keyframe at or before it (or a leading first unit) and every write from there to it works |
| GopPump.ClientGetsOneGop | feed/pump.go:446-458 | whatever failed and wherever a reset cut a stream, a client gets from it a contiguous run of the dequeued units, fields intact, keyframe first unless leading; every unit written from a stream closed and never reset |
| GopPump.ReceiveGop | client/client.go:906-944 | the client, run on what arrived: it gives up exactly when less than the header came, else it returns such a run |
| GopPump.HealthyDelivery | feed/pump.go:461-484 | on a working transport a unit is delivered if and only if leading P-frames are allowed or a keyframe came at or before it |
| ResumeDelivery.ResumedUnitsAreWritten | session/session.go:887-905 | after a resume within the window, on a working transport, every unit accepted after last-seen is written whole to some stream, even if the queue starts inside a GOP |
| LowLatencyPump.Pump.constructor | feed/pump.go:560-566 | the up-front open; its failure adds one drop report |
| LowLatencyPump.Pump.Run | feed/pump.go:532-636 | each unit is written or dropped; written if and only if some stream, up front or opened for it or a unit before it, carries every unit from there to it; streams carry contiguous runs; one extra drop report exactly when the first open failed |
| LowLatencyPump.DeliveredIff | feed/pump.go:567-636 | that condition, on the units and the transport's answers alone; a written unit fits the format and its write works |
| LowLatencyPump.HealthyDelivery | feed/pump.go:560-636 | on a working transport every unit that fits is written; with no stream up and all opens refused none is |
| DatagramPump.DatagramRoundTrip | wire/datagram.go:57-79 | decoding an envelope gives back track, number and payload |
| DatagramPump.DatagramDecodesBack | wire/datagram.go:69-79 | a decoded datagram of legal size is the encoding of what it decoded to |
| DatagramPump.Pump.FallbackOrDrop | feed/datagram.go:144-172 | the unit is written to the live or newly opened fallback stream, or dropped |
| DatagramPump.Pump.Run | feed/datagram.go:68-226 | each unit is sent, written to the fallback or dropped, sent if and only if it has at most 1100 bytes and the transport takes it; the i-th envelope is i mod 65536; at most one fallback stream is live |
| DatagramPump.ExpectedIff | feed/datagram.go:144-226 | from sizes and transport alone: when a unit is sent, and that it is written if and only if a fallback stream opened for it or a unit before it carries every unit from there to it that is not sent |
| DatagramPump.NothingLostWithFallback | feed/datagram.go:144-172 | while streams work: sent if it fits and is taken, else written if a fallback is configured, else dropped |
| WorkHeap.Push | feed/scheduler.go:179-189 | the heap gains exactly the entry and stays ordered |
| WorkHeap.Pop | feed/scheduler.go:190-196 | takes an entry, and nothing else; no other has a lower priority value, or the same and an earlier submission number |
| Scheduling.Scheduler.Submit | feed/scheduler.go:132-148 | accepted exactly when not closed, under the next number |
| Scheduling.Scheduler.TakeNext | feed/scheduler.go:105-121 | the worker takes such an item out of the heap and counts it as urgent if its priority value is at most 2, or exits exactly when there is none, which it does only once closed |
| Scheduling.Scheduler.FinishItem | feed/scheduler.go:122-124 | the running item is recorded as done, once |
| Scheduling.Scheduler.Close | feed/scheduler.go:153-164 | close is requested; repeated calls change nothing more |
| Scheduling.RunKeeps | feed/scheduler.go:88-148 | in every run each accepted item is pending, running or done, exactly one of them |
| Scheduling.NothingStranded | feed/scheduler.go:105-148 | when the worker has exited every accepted item ran exactly once, and every later Submit is refused |
| Scheduling.EqualPriorityInOrder | feed/scheduler.go:182-187 | items of equal priority finish in submission order across the run |
| Scheduling.MoreUrgentRanFirst | feed/scheduler.go:105-124 | over every run: when an item is taken, every item accepted so far with a lower priority value, or the same and an earlier number, has finished |
| Scheduling.OpenUntilWatched | feed/scheduler.go:88-148 | until the watcher has run every Submit is accepted |
| Scheduling.WorkerCanGoOn | feed/scheduler.go:105-124 | an idle worker can take an item whenever one is pending, a running item can finish, and a closed empty scheduler lets the worker exit |
| ChunkedWrites.WriteFrame | feed/pump.go:722-753 | chunked or not, success puts exactly the frame on the stream; when a Write fails, the stream has the chunks before it and what that Write sent, less than the frame |
| ChunkedWrites.ChunkIsBounded | feed/pump.go:722-753 | each piece is the next bytes of the frame, not empty, and at most 16 KiB and a wall clock; a small frame is one piece |
| ChunkedWrites.WriteMakesProgress | feed/pump.go:740-751 | a write that works moves the next, non-empty piece from what is left to the end of the stream; one that fails moves less than the piece and ends the stream |
| ChunkedWrites.RunSound | feed/pump.go:360-383 | in every run a pump waits exactly when it has one item with the scheduler, and never has two |
| ChunkedWrites.StreamsCarryWholeFrames | feed/pump.go:713-753 | for any number of pumps and any schedule, closing included, a healthy stream is header, whole frames in order, and a chunk-aligned part of the next; when all is out, the bytes of single writes; a failed one is the same with the part ending anywhere |
| ChunkedWrites.NoPumpStranded | feed/pump.go:375-382 | once the worker has exited no pump waits |
| RecordFormat.StoredRoundTrip | record/format.go:98-205 | a storable frame is read back field for field, and reading stops right after it |
| RecordFormat.AcceptedSizes | record/format.go:98-132 | the writer accepts exactly names up to 65535 and kinds up to 255 bytes, and the reader exactly those bodies up to 64 MiB; the encoded size |
| RecordFormat.FixedFields | record/format.go:115-127 | timestamp at byte 0, Seq at 8, flags at 12, capture time at 13, payload length at 21 |
| RecordFormat.TornFrame | record/format.go:138-155 | a frame cut short reads as end of file, never as corrupt |
| RecordFormat.RoundTripsIffStorable | record/format.go:133-151 | an encodable frame is read back as written if and only if its body is at most 64 MiB |
| RecordFormat.OversizeIsCorrupt | record/format.go:146-151 | a body between 64 MiB and 4 GiB is reported corrupt |
| Recording.TruncatedLog | record/timeline.go:98-126 | any truncation of frames and marker reads as exactly the frames before the cut |
| Recording.CrashConsistent | record/timeline.go:81-128 | a recording cut at any byte after its header passes the header check and yields exactly the frames that end at or before the cut, not corrupt |
| Recording.OversizeSpoilsLog | record/timeline.go:103-114 | one oversized frame makes the log corrupt after the frames before it |
| Recording.CountingReader.Next | record/timeline.go:228-237 | decodes the frame at the counted position and counts exactly its bytes |
| Recording.BuildTimeline | record/timeline.go:81-128 | fails exactly on a bad header or a corrupt frame; else one entry per frame, with its fields and an offset at which decoding gives that frame |
| Recording.ReadPayload | record/timeline.go:202-222 | at an entry's offset, the payload, keyframe flag, timestamp, Seq and discontinuity of its frame; it fails exactly when no frame can be decoded there |
| Recording.Replay | record/replayer.go:25-76 | sequential replay fails on a bad header, else gives for the same frames, in order, units with each frame's payload, keyframe flag, timestamp, Seq and discontinuity |
| Recording.SeekSnapshot | record/timeline.go:178-195 | per track the entry with the latest capture time at or before the moment, the highest Seq among equals, none for tracks without one |
| Recorder.FileRecorder.constructor | record/file.go:76-99 | a file with its header, an empty queue of the given or default depth |
| Recorder.UnitSurvives | record/replayer.go:60-76 | the unit replayed from a recorded unit's frame is that unit without its publish clock |
| Recorder.FileRecorder.Write | record/file.go:106-129 | accepted exactly when open and not full, otherwise counted as dropped |
| Recorder.FileRecorder.Drain | record/file.go:163-184 | the oldest queued unit is encoded to the file, or skipped if it cannot be |
| Recorder.FileRecorder.StartClose | record/file.go:139-147 | from now on nothing is accepted; only the first caller goes on |
| Recorder.FileRecorder.FinishClose | record/file.go:148-158 | with the channel drained, the file is header, the frames of everything accepted, marker |
| Recorder.FileRecorder.Close | record/file.go:139-159 | with Writes arriving while the channel drains: everything accepted before is in the file, everything later is counted as dropped; a second call changes nothing |
| Recorder.ClosedFileHoldsAccepted | record/file.go:161-185 | the closed file reads back as exactly the accepted units, in order, field for field |
| Recorder.IndexMatchesReplay | record/timeline.go:81-222 | on the closed file: unit k replayed, and payload k read through the index, are the k-th accepted unit without its publish clock; entry k has its track, kind, capture time, timestamp, Seq, flags and length |
| SendRateMeter.Meter.constructor | transport/congestion.go:62-73 | an empty meter; non-positive windows become one second |
| SendRateMeter.Meter.Add | transport/congestion.go:77-93 | exactly the calls older than the window have left it, and the dead prefix is at most 1024 |
| SendRateMeter.Meter.TotalIsNaive | transport/congestion.go:81-87 | the running total is the total recomputed from the full history, plus the drift of oversized calls, on 64 bits |
| SendRateMeter.Meter.Rate | transport/congestion.go:97-113 | the rate is the one recomputed from the full history with the total off by the drift; it is the recomputed one as long as the calls that left the window had sizes below 2^32 |
| SendRateMeter.PerSecondMeans | transport/congestion.go:112 | without overflow the rate r satisfies r x span <= total x 1000000 < (r + 1) x span |
| SendRateMeter.NaiveRateMeans | transport/congestion.go:97-113 | the recomputed rate is 0 without a call in the window before now, else the bytes of the window over the time since its first call, per second, rounded down |
| SendRateMeter.TotalIsExactIff | transport/congestion.go:81-87 | with non-negative sizes, below 2^64 bytes of which have left, the total is right if and only if no call of 2^32 bytes or more has left the window |
| SendRateMeter.DriftIffOversized | transport/congestion.go:81-82 | there is drift exactly when a call of 2^32 bytes or more has left the window |
| SendRateMeter.OversizedCallStays | transport/congestion.go:81-87 | one such call stays in the total for good |
| RateLimiter.AllowPays | session/ratelimit.go:68-102 | a call gains at most rate times elapsed, never more than the cap, and pays for what it admits, also when the other bucket refuses |
| RateLimiter.AdmittedIsBounded | session/ratelimit.go:47-102 | over every window of calls, units admitted are at most burst + rate x elapsed, and likewise bytes |
| RateLimiter.BurstIsAdmitted | session/ratelimit.go:47-102 | over every run, as many calls and bytes as the buckets hold are all admitted, however quickly they come |
| RateLimiter.UnlimitedAdmits | session/ratelimit.go:76-101 | without rates every call is admitted and the buckets are untouched |
| RateLimiter.IdleAdmits | session/ratelimit.go:72-101 | a call is admitted once enough time has passed to pay for it, if the bursts allow it at all |
| RateLimiter.OversizeIsRefused | session/ratelimit.go:85-94 | a unit larger than the byte burst is never admitted |
| RateLimiter.RateLimiter.constructor | session/ratelimit.go:47-63 | full buckets of the configured bursts, or of one second's worth for a non-positive burst, at the configured rates |
| RateLimiter.RateLimiter.AllowUnit | session/ratelimit.go:68-102 | the object answers and changes as the two buckets say |

## Left out

- QUIC, WebTransport, HTTP/3, TLS and certificates: foreign libraries; only open, write, reset and datagram steps that may fail are modelled.
- JSON payloads, the HELLO exchange and version negotiation: the handshake is its resume-or-fresh decision only.
- Bidi-per-call delivery, deadlines, timers, the idle watchdog and the ping limiter: they rest on wall clock and peer behaviour.
- Inbound announce gating, the relay, data channel, peer connection, metrics and kind statistics: easy members next to these cores.
- Access-unit fields Meta, SyncGroup and Priority: no modelled code reads them.
- Interceptor registration and removal; Count, LatestKeyframe, NeedsKeyframe, QueueDepth; Timeline.Tracks, Frames and Len: getters and bookkeeping.
- Buffer pools, atomics and copy avoidance: buffers are values.
- The broadcaster's ring fields are a class of their own; the source keeps them in the broadcaster.
- Resume.GapFreeResume: takes Publish as one step; Resume.ResumeInsidePublish says what a resume between its two critical sections does.
- Parking loops over all tracks in the source; Sessions.ParkTrack is the work for one track, and tracks share nothing.
- A nil onEvict callback: the server always passes one.
- Track and tenant names are bytes or characters; UTF-8 decoding in the TypeScript client is not modelled.
- Scheduling.NothingStranded: is about safety; that the worker eventually runs is the Go runtime's, and submission numbers do not wrap at 2^64.
- Recorder.ClosedFileHoldsAccepted: assumes disk writes succeed and accepted units are storable; a unit with an over-long name or kind is skipped without being counted, as in the source.
- SendRateMeter.Meter.Rate: times are unbounded integers and the clock does not run backwards.
- RateLimiter.AdmittedIsBounded: floating-point numbers are reals and the clock does not run backwards; RateLimiter.BurstIsAdmitted and RateLimiter.IdleAdmits are the lower bounds, and there is none over longer windows, because the source skips the byte refill when the unit bucket refuses.
- SessionLifecycle.SessionsAreLinear: allocated IDs are assumed fresh and tenant names free of NUL; SessionStore.TenantsShareKeyIff says exactly which names break the separation.
- The order in which the client's per-track queues are read, reconnection logic in the clients, viewers, examples and benchmarks.
