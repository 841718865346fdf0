/**
 * Many pumps sharing one scheduler (writeFrame and scheduledDo in feed/pump.go
 * on top of feed/scheduler.go). A large frame is written in chunks, each chunk a
 * scheduled item, so that other pumps' work runs in between; once the scheduler
 * is closed a pump writes its chunks itself.
 *
 * Each pump here writes one stream. A pump submits one item and waits for it, so
 * the state needs no more than whether it waits. A failed write, which may have
 * put some bytes out, ends the stream.
 */
module ChunkedWrites {
  import opened Bytes
  import opened AccessUnits
  import opened Framing
  import opened FeedWire
  import opened ClientFeed
  import opened WorkHeap
  import S = Scheduling
  import L = StreamLog

  const PACING_CHUNK_BYTES: nat := 16 * 1024

  // One encoded frame, and whether it is written in one piece.
  datatype Job = Job(buf: seq<byte>, small: bool)

  function Buf(j: Job): seq<byte> { j.buf }

  // What writeFrame makes of a frame: small frames are not chunked.
  function JobOf(f: FeedFrame): Job {
    Job(Encode(f), FEED_HEADER_LEN + |f.payload| <= PACING_CHUNK_BYTES)
  }

  // A pump: the frames it has written whole, the frames still to write, how many
  // bytes of the first of those are out, and what is on its stream.
  datatype Pump = Pump(
    priority: nat,
    header: seq<byte>,
    written: seq<Job>,
    todo: seq<Job>,
    off: nat,
    stream: seq<byte>,
    waiting: bool,
    failed: bool)

  // The next piece of a frame.
  function Chunk(j: Job, off: nat): seq<byte>
    requires off < |j.buf|
  {
    if j.small || off + PACING_CHUNK_BYTES > |j.buf| then j.buf[off..] else j.buf[off..off + PACING_CHUNK_BYTES]
  }

  // A piece is the next bytes of the frame and never empty. However large the
  // frame, it keeps the scheduler for little more than one pacing chunk.
  lemma ChunkIsBounded(f: FeedFrame, off: nat)
    requires off < |Encode(f)|
    ensures var c := Chunk(JobOf(f), off);
      && 0 < |c| <= PACING_CHUNK_BYTES + WALL_EXT_LEN
      && off + |c| <= |Encode(f)| && c == Encode(f)[off..off + |c|]
      && (FEED_HEADER_LEN + |f.payload| <= PACING_CHUNK_BYTES ==> off + |c| == |Encode(f)|)
  {}

  predicate Ready(p: Pump) {
    !p.waiting && !p.failed && p.todo != []
  }

  // The pump's pending write runs, on the worker or inline.
  function WriteChunk(p: Pump, write: L.WriteResult): Pump {
    if p.todo == [] || p.off >= |p.todo[0].buf| then p
    else if write.WriteFails? then
      p.(stream := p.stream + L.Partial(Chunk(p.todo[0], p.off), write.sent), failed := true)
    else
      var c := Chunk(p.todo[0], p.off);
      var q := p.(stream := p.stream + c, off := p.off + |c|);
      if q.off < |p.todo[0].buf| then q
      else q.(written := p.written + [p.todo[0]], todo := p.todo[1..], off := 0)
  }

  datatype State = State(sched: S.State, pumps: seq<Pump>)

  datatype Event =
    | Submit(i: nat, accepted: bool, write: L.WriteResult)  // pump i hands its next chunk over, or writes it inline
    | Finish(write: L.WriteResult)                          // the worker finishes the running chunk
    | Other(ev: S.Event)                             // any scheduler step that touches no pump

  ghost predicate Step(s: State, ev: Event, t: State) {
    match ev
    case Submit(i, accepted, write) =>
      && i < |s.pumps| && Ready(s.pumps[i])
      && S.Step(s.sched, S.Submit(s.pumps[i].priority, i, accepted), t.sched)
      && t.pumps == s.pumps[i := if accepted then s.pumps[i].(waiting := true) else WriteChunk(s.pumps[i], write)]
    case Finish(write) =>
      && S.Step(s.sched, S.Finish, t.sched)
      && t.pumps == WithChunkRun(s.pumps, s.sched.worker.e.task, write)
    case Other(ev) => !ev.Submit? && !ev.Finish? && S.Step(s.sched, ev, t.sched) && t.pumps == s.pumps
  }

  // The pumps after pump i's scheduled chunk has run.
  function WithChunkRun(pumps: seq<Pump>, i: nat, write: L.WriteResult): seq<Pump> {
    if i < |pumps| then pumps[i := WriteChunk(pumps[i], write).(waiting := false)] else pumps
  }

  predicate OffsetOk(p: Pump) {
    p.todo != [] ==> p.off < |p.todo[0].buf|
  }

  // At the start every stream holds its header and nothing else.
  ghost predicate IsStart(s: State) {
    && s.sched == S.INITIAL
    && forall i :: 0 <= i < |s.pumps| ==>
         var p := s.pumps[i];
         && p.written == [] && p.off == 0 && p.stream == p.header && !p.waiting && !p.failed
         && forall j :: j in p.todo ==> j.buf != []
  }

  ghost predicate IsRun(states: seq<State>, events: seq<Event>) {
    && |states| == |events| + 1
    && IsStart(states[0])
    && forall k :: 0 <= k < |events| ==> Step(states[k], events[k], states[k + 1])
  }

  // ---- One stream ----

  // What a healthy pump has put on its stream: the header, whole frames in
  // order, and a chunk-aligned part of the frame in progress.
  ghost predicate Healthy(p: Pump) {
    && (p.todo == [] ==> p.off == 0)
    && (p.off > 0 ==> OffsetOk(p) && p.off % PACING_CHUNK_BYTES == 0 && !p.todo[0].small)
    && (forall j :: j in p.todo ==> j.buf != [])
    && p.stream == p.header + Concat(Buf, p.written) + InProgress(p)
  }

  function InProgress(p: Pump): seq<byte> {
    if p.todo == [] || p.off > |p.todo[0].buf| then [] else p.todo[0].buf[..p.off]
  }

  // A stream whose last write failed: the header, whole frames in order, and m
  // bytes of the frame in progress.
  ghost predicate BrokenAt(p: Pump, m: nat) {
    && p.todo != [] && m < |p.todo[0].buf|
    && p.stream == p.header + Concat(Buf, p.written) + p.todo[0].buf[..m]
  }

  ghost predicate Broken(p: Pump) {
    exists m :: BrokenAt(p, m)
  }

  lemma WriteKeepsHealth(p: Pump, write: L.WriteResult)
    requires Healthy(p) && p.todo != [] && OffsetOk(p) && !p.failed
    ensures var q := WriteChunk(p, write);
      && (if q.failed then Broken(q) else Healthy(q) && OffsetOk(q))
      && q == p.(written := q.written, todo := q.todo, off := q.off, stream := q.stream, failed := q.failed)
      && q.written + q.todo == p.written + p.todo
  {
    var j, c := p.todo[0], Chunk(p.todo[0], p.off);
    assert j in p.todo;
    if write.WriteFails? {
      FailedChunk(p, j, c, write.sent);
    } else if p.off + |c| < |j.buf| {
      MiddleChunk(p, j, c);
    } else {
      LastChunk(p, j, c);
    }
  }

  // Bytes of the pump's frames that are not out yet.
  function Left(p: Pump): int {
    |Concat(Buf, p.todo)| - p.off
  }

  // A write that works moves the next piece, which is not empty, from what is left
  // to the end of the stream. One that fails moves less than the piece and ends the
  // stream.
  lemma WriteMakesProgress(p: Pump, write: L.WriteResult)
    requires p.todo != [] && OffsetOk(p) && !p.failed
    ensures var q := WriteChunk(p, write);
      && IsPrefix(p.stream, q.stream)
      && (write.Writes? ==>
            !q.failed && |q.stream| > |p.stream| && |q.stream| + Left(q) == |p.stream| + Left(p))
      && (write.WriteFails? ==>
            q.failed && Left(q) == Left(p) && |q.stream| < |p.stream| + |Chunk(p.todo[0], p.off)|)
  {}

  lemma WaitingAside(p: Pump)
    ensures Broken(p) ==> Broken(p.(waiting := false))
    ensures Healthy(p) ==> Healthy(p.(waiting := false))
  {
    if Broken(p) {
      var m :| BrokenAt(p, m);
      assert BrokenAt(p.(waiting := false), m);
    }
  }

  lemma FailedChunk(p: Pump, j: Job, c: seq<byte>, sent: nat)
    requires Healthy(p) && p.todo != [] && j == p.todo[0] && p.off < |j.buf| && c == Chunk(j, p.off)
    ensures Broken(p.(stream := p.stream + L.Partial(c, sent), failed := true))
  {
    var part := L.Partial(c, sent);
    var q := p.(stream := p.stream + part, failed := true);
    assert part == c[..|part|] == j.buf[p.off..p.off + |part|];
    assert j.buf[..p.off] + part == j.buf[..p.off + |part|];
    Associate(p.header + Concat(Buf, p.written), j.buf[..p.off], part);
    assert BrokenAt(q, p.off + |part|);
  }

  lemma MiddleChunk(p: Pump, j: Job, c: seq<byte>)
    requires Healthy(p) && p.todo != [] && j == p.todo[0] && p.off < |j.buf| && c == Chunk(j, p.off)
    requires p.off + |c| < |j.buf|
    ensures Healthy(p.(stream := p.stream + c, off := p.off + |c|))
  {
    AlignedNext(p.off);
    assert j.buf[..p.off] + c == j.buf[..p.off + |c|];
    Associate(p.header + Concat(Buf, p.written), j.buf[..p.off], c);
  }

  lemma LastChunk(p: Pump, j: Job, c: seq<byte>)
    requires Healthy(p) && p.todo != [] && j == p.todo[0] && p.off < |j.buf| && c == Chunk(j, p.off)
    requires p.off + |c| == |j.buf|
    ensures Healthy(p.(stream := p.stream + c, off := 0, written := p.written + [j], todo := p.todo[1..]))
    ensures p.written + [j] + p.todo[1..] == p.written + p.todo
  {
    ConcatAppend(Buf, p.written, j);
    assert j.buf[..p.off] + c == j.buf;
    Associate(p.header + Concat(Buf, p.written), j.buf[..p.off], c);
    Associate(p.header, Concat(Buf, p.written), j.buf);
    assert forall k :: k in p.todo[1..] ==> k in p.todo;
    var q := p.(stream := p.stream + c, off := 0, written := p.written + [j], todo := p.todo[1..]);
    assert InProgress(q) == [];
  }

  lemma AlignedNext(off: nat)
    requires off % PACING_CHUNK_BYTES == 0
    ensures (off + PACING_CHUNK_BYTES) % PACING_CHUNK_BYTES == 0
  {}

  // ---- All pumps ----

  predicate Queued(s: S.State, e: Entry) {
    e in s.pending || (s.worker.Running? && s.worker.e == e)
  }

  // A pump waits if and only if it has an item with the scheduler, and it never
  // has two: no two writes to one stream can overlap.
  ghost predicate OneItemPerPump(s: State) {
    && (forall e :: Queued(s.sched, e) ==> e.task < |s.pumps| && s.pumps[e.task].waiting)
    && (forall e, f :: Queued(s.sched, e) && Queued(s.sched, f) && e.task == f.task ==> e == f)
    && (forall i :: 0 <= i < |s.pumps| && s.pumps[i].waiting ==> exists e :: Queued(s.sched, e) && e.task == i)
  }

  ghost predicate Sound(s: State) {
    && S.Conserved(s.sched)
    && OneItemPerPump(s)
    && forall i :: 0 <= i < |s.pumps| ==>
         var p := s.pumps[i];
         && (if p.failed then Broken(p) else Healthy(p) && OffsetOk(p))
         && (p.waiting ==> p.todo != [] && !p.failed)
  }

  lemma SubmitSound(s: State, i: nat, accepted: bool, write: L.WriteResult, t: State)
    requires Sound(s) && Step(s, Submit(i, accepted, write), t)
    ensures Sound(t)
  {
    var p := s.pumps[i];
    S.StepConserves(s.sched, S.Submit(p.priority, i, accepted), t.sched);
    if accepted {
      SubmitKeepsItems(s, i, t);
    } else {
      WriteKeepsHealth(p, write);
      assert t.sched == s.sched;
    }
  }

  lemma SubmitKeepsItems(s: State, i: nat, t: State)
    requires Sound(s) && i < |s.pumps| && !s.pumps[i].waiting
    requires S.Step(s.sched, S.Submit(s.pumps[i].priority, i, true), t.sched)
    requires t.pumps == s.pumps[i := s.pumps[i].(waiting := true)]
    ensures OneItemPerPump(t)
  {
    var e := S.NextEntry(s.sched, s.pumps[i].priority, i);
    assert forall f :: Queued(t.sched, f) <==> Queued(s.sched, f) || f == e;
    forall k | 0 <= k < |t.pumps| && t.pumps[k].waiting
      ensures exists f :: Queued(t.sched, f) && f.task == k
    {
      if k == i {
        assert Queued(t.sched, e);
      } else {
        var f :| Queued(s.sched, f) && f.task == k;
        assert Queued(t.sched, f);
      }
    }
  }

  lemma FinishSound(s: State, write: L.WriteResult, t: State)
    requires Sound(s) && Step(s, Finish(write), t)
    ensures Sound(t)
  {
    var e := s.sched.worker.e;
    assert Queued(s.sched, e);
    S.StepConserves(s.sched, S.Finish, t.sched);
    WriteKeepsHealth(s.pumps[e.task], write);
    WaitingAside(WriteChunk(s.pumps[e.task], write));
    FinishKeepsItems(s, e, t);
  }

  lemma FinishKeepsItems(s: State, e: Entry, t: State)
    requires Sound(s) && s.sched.worker == S.Running(e) && S.Step(s.sched, S.Finish, t.sched)
    requires e.task < |s.pumps| == |t.pumps| && !t.pumps[e.task].waiting
    requires forall k :: 0 <= k < |s.pumps| && k != e.task ==> t.pumps[k] == s.pumps[k]
    ensures OneItemPerPump(t)
  {
    assert Queued(s.sched, e);
    assert e !in s.sched.pending by {
      assert S.Taken(s.sched)[|s.sched.done|] == e;
    }
    assert forall f :: Queued(t.sched, f) <==> Queued(s.sched, f) && f != e;
    forall k | 0 <= k < |t.pumps| && t.pumps[k].waiting
      ensures exists f :: Queued(t.sched, f) && f.task == k
    {
      var f :| Queued(s.sched, f) && f.task == k;
      assert Queued(t.sched, f);
    }
  }

  lemma OtherSound(s: State, ev: S.Event, t: State)
    requires Sound(s) && Step(s, Other(ev), t)
    ensures Sound(t)
  {
    S.StepConserves(s.sched, ev, t.sched);
    assert forall f :: Queued(t.sched, f) <==> Queued(s.sched, f);
  }

  lemma {:induction false} RunSound(states: seq<State>, events: seq<Event>, n: nat)
    requires IsRun(states, events) && n < |states|
    ensures Sound(states[n])
  {
    if n > 0 {
      RunSound(states, events, n - 1);
      var s, ev, t := states[n - 1], events[n - 1], states[n];
      assert Step(s, ev, t);
      match ev
      case Submit(i, accepted, write) => SubmitSound(s, i, accepted, write, t);
      case Finish(write) => FinishSound(s, write, t);
      case Other(e) => OtherSound(s, e, t);
    }
  }

  // ---- The theorem ----

  function Jobs(fs: seq<FeedFrame>): (js: seq<Job>)
    ensures |js| == |fs| && forall k :: 0 <= k < |js| ==> js[k] == JobOf(fs[k])
  {
    seq(|fs|, k requires 0 <= k < |fs| => JobOf(fs[k]))
  }

  lemma {:induction false} JobsConcat(fs: seq<FeedFrame>)
    ensures Concat(Buf, Jobs(fs)) == Concat(Encode, fs)
  {
    if fs != [] {
      assert Jobs(fs)[1..] == Jobs(fs[1..]);
      JobsConcat(fs[1..]);
    }
  }

  // Two states of one pump, which is given the same frames to write.
  predicate SameWork(p: Pump, q: Pump) {
    q.written + q.todo == p.written + p.todo && q.header == p.header
  }

  // What a pump is given to write never changes.
  lemma {:induction false} WorkIsFixed(states: seq<State>, events: seq<Event>, n: nat, i: nat)
    requires IsRun(states, events) && n < |states| && i < |states[0].pumps|
    ensures |states[n].pumps| == |states[0].pumps|
    ensures SameWork(states[0].pumps[i], states[n].pumps[i])
  {
    if n > 0 {
      WorkIsFixed(states, events, n - 1, i);
      RunSound(states, events, n - 1);
      assert Step(states[n - 1], events[n - 1], states[n]);
      StepFixesWork(states[n - 1], events[n - 1], states[n], i);
    }
  }

  lemma StepFixesWork(s: State, ev: Event, t: State, i: nat)
    requires Sound(s) && Step(s, ev, t) && i < |s.pumps|
    ensures |t.pumps| == |s.pumps| && SameWork(s.pumps[i], t.pumps[i])
  {
    match ev
    case Submit(k, accepted, write) =>
      if !accepted && k == i {
        WriteKeepsHealth(s.pumps[i], write);
      }
    case Finish(write) =>
      assert Queued(s.sched, s.sched.worker.e);
      if s.sched.worker.e.task == i {
        WriteKeepsHealth(s.pumps[i], write);
      }
    case Other(_) =>
  }

  // Interleaved chunked writes. In every run, at every moment, a stream on which
  // no write failed holds its header, then whole frame encodings in order, then
  // a part of the frame in progress that ends on a chunk boundary. So once all
  // frames are out the bytes are those of writing each frame in one piece, in
  // whatever order chunks were scheduled and whether or not the scheduler closed
  // on the way. A stream on which a write failed holds the same, except that the
  // part of the frame in progress may end anywhere before the frame's end.
  lemma StreamsCarryWholeFrames(
      states: seq<State>, events: seq<Event>, n: nat, i: nat, name: Option<seq<byte>>, frames: seq<FeedFrame>)
    requires IsRun(states, events) && n < |states| && i < |states[0].pumps|
    requires states[0].pumps[i].header == Prefix(name) && states[0].pumps[i].todo == Jobs(frames)
    ensures |states[n].pumps| == |states[0].pumps|
    ensures var p := states[n].pumps[i];
      if p.failed then exists m :: HoldsPart(p.stream, name, frames, |p.written|, m)
      else HoldsUpTo(p.stream, name, frames, |p.written|, p.off)
  {
    WorkIsFixed(states, events, n, i);
    RunSound(states, events, n);
    var start, p := states[0].pumps[i], states[n].pumps[i];
    assert start.written + start.todo == Jobs(frames);
    if p.failed {
      var m :| BrokenAt(p, m);
      PumpHoldsPart(p, name, frames, m);
    } else {
      PumpHoldsUpTo(p, name, frames);
    }
  }

  // A stream holds its header, the first k frames, and `off` bytes of the next.
  ghost predicate HoldsUpTo(stream: seq<byte>, name: Option<seq<byte>>, frames: seq<FeedFrame>, k: nat, off: nat) {
    && k <= |frames| && off % PACING_CHUNK_BYTES == 0
    && (if k == |frames| then off == 0 && stream == Wire(name, frames)
        else off < |Encode(frames[k])| && stream == Wire(name, frames[..k]) + Encode(frames[k])[..off])
  }

  // A stream holds its header, the first k frames, and less than the whole next.
  ghost predicate HoldsPart(stream: seq<byte>, name: Option<seq<byte>>, frames: seq<FeedFrame>, k: nat, m: nat) {
    k < |frames| && m < |Encode(frames[k])| && stream == Wire(name, frames[..k]) + Encode(frames[k])[..m]
  }

  lemma PumpHoldsPart(p: Pump, name: Option<seq<byte>>, frames: seq<FeedFrame>, m: nat)
    requires BrokenAt(p, m) && p.header == Prefix(name) && p.written + p.todo == Jobs(frames)
    ensures HoldsPart(p.stream, name, frames, |p.written|, m)
  {
    var k := |p.written|;
    assert p.written == Jobs(frames)[..k] == Jobs(frames[..k]);
    assert p.todo == Jobs(frames)[k..];
    JobsConcat(frames[..k]);
    assert p.todo[0] == JobOf(frames[k]);
  }

  lemma PumpHoldsUpTo(p: Pump, name: Option<seq<byte>>, frames: seq<FeedFrame>)
    requires Healthy(p) && OffsetOk(p) && p.header == Prefix(name) && p.written + p.todo == Jobs(frames)
    ensures HoldsUpTo(p.stream, name, frames, |p.written|, p.off)
  {
    var k := |p.written|;
    assert p.written == Jobs(frames)[..k] == Jobs(frames[..k]);
    assert p.todo == Jobs(frames)[k..];
    JobsConcat(frames[..k]);
    if k == |frames| {
      assert frames[..k] == frames;
    } else {
      assert p.todo[0] == JobOf(frames[k]);
    }
  }

  // When the worker has exited no pump is left waiting for its item.
  lemma NoPumpStranded(states: seq<State>, events: seq<Event>, n: nat, i: nat)
    requires IsRun(states, events) && n < |states| && i < |states[n].pumps|
    requires states[n].sched.worker.Exited?
    ensures !states[n].pumps[i].waiting
  {
    RunSound(states, events, n);
    ExitedIsEmpty(states, events, n);
    assert forall e :: !Queued(states[n].sched, e);
  }

  lemma {:induction false} ExitedIsEmpty(states: seq<State>, events: seq<Event>, n: nat)
    requires IsRun(states, events) && n < |states|
    ensures S.ExitIsFinal(states[n].sched)
  {
    if n > 0 {
      ExitedIsEmpty(states, events, n - 1);
      assert Step(states[n - 1], events[n - 1], states[n]);
    }
  }

  // ---- One frame, one pump ----

  class SendStream {
    var bytes: seq<byte>

    constructor ()
      ensures bytes == []
    {
      bytes := [];
    }
  }

  // writeFrame on an encoded frame. outcome(k) says how the k-th Write call goes.
  // The chunked path puts the same bytes on the stream as the single write. When
  // a Write fails, the stream has the chunks before it and what that Write sent.
  method WriteFrame(w: SendStream, j: Job, scheduled: bool, outcome: nat -> L.WriteResult)
    returns (ok: bool, calls: nat, sent: nat)
    requires j.buf != []
    modifies w
    ensures sent <= |j.buf| && w.bytes == old(w.bytes) + j.buf[..sent]
    ensures ok <==> sent == |j.buf|
    ensures (forall k :: 0 <= k < calls ==> outcome(k).Writes?) && (!ok ==> outcome(calls).WriteFails?)
    ensures ok && (j.small || !scheduled) ==> calls == 1
    ensures ok && !j.small && scheduled ==> (calls - 1) * PACING_CHUNK_BYTES < |j.buf| <= calls * PACING_CHUNK_BYTES
    ensures !ok && (j.small || !scheduled) ==> calls == 0
    ensures !ok && !j.small && scheduled ==> calls * PACING_CHUNK_BYTES <= sent < (calls + 1) * PACING_CHUNK_BYTES
  {
    calls := 0;
    if !scheduled || j.small {
      ok, sent := WriteChunkTo(w, j.buf, 0, |j.buf|, outcome(0));
      if ok {
        calls := 1;
      }
      return;
    }
    ok, sent := true, 0;
    while sent < |j.buf| && ok
      invariant sent <= |j.buf| && w.bytes == old(w.bytes) + j.buf[..sent]
      invariant forall k :: 0 <= k < calls ==> outcome(k).Writes?
      invariant ok && sent < |j.buf| ==> sent == calls * PACING_CHUNK_BYTES
      invariant ok && sent == |j.buf| ==> (calls - 1) * PACING_CHUNK_BYTES < |j.buf| <= calls * PACING_CHUNK_BYTES
      invariant !ok ==> outcome(calls).WriteFails? && calls * PACING_CHUNK_BYTES <= sent < |j.buf|
      invariant !ok ==> sent < (calls + 1) * PACING_CHUNK_BYTES
      decreases |j.buf| - sent, ok
    {
      var end := if sent + PACING_CHUNK_BYTES <= |j.buf| then sent + PACING_CHUNK_BYTES else |j.buf|;
      ok, sent := WriteChunkTo(w, j.buf, sent, end, outcome(calls));
      if ok {
        calls := calls + 1;
      }
    }
  }

  // One Write of buf[off..end] to a stream that has buf[..off].
  method WriteChunkTo(w: SendStream, buf: seq<byte>, off: nat, end: nat, write: L.WriteResult)
    returns (ok: bool, sent: nat)
    requires off < end <= |buf|
    modifies w
    ensures ok == write.Writes? && off <= sent && (if ok then sent == end else sent < end)
    ensures w.bytes == old(w.bytes) + buf[off..sent]
    ensures forall s :: old(w.bytes) == s + buf[..off] ==> w.bytes == s + buf[..sent]
  {
    var chunk := buf[off..end];
    var part := if write.Writes? then chunk else L.Partial(chunk, write.sent);
    ok, sent := write.Writes?, off + |part|;
    assert part == buf[off..sent];
    assert buf[..off] + part == buf[..sent];
    forall s | w.bytes == s + buf[..off]
      ensures w.bytes + part == s + buf[..sent]
    {
      Associate(s, buf[..off], part);
    }
    w.bytes := w.bytes + part;
  }
}
