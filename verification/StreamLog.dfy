/**
 * What a pump does to the transport, as a log, and what that puts on the wire.
 *
 * The transport is the environment: opening a stream, writing a stream header,
 * writing a frame and sending a datagram may each fail. Streams are numbered in
 * the order they are opened; a `unit` is the position of an access unit in the
 * list the pump dequeued.
 */
module StreamLog {
  import opened Bytes
  import opened AccessUnits
  import opened Framing
  import opened FeedWire
  import opened ClientFeed

  // How the transport answers one access unit's open, write and datagram. A
  // failed write may have put `sent` bytes on the stream, but not all of them.
  datatype OpenResult = Refused | HeaderFails(sent: nat) | Opens
  datatype WriteResult = WriteFails(sent: nat) | Writes
  datatype Io = Io(open: OpenResult, write: WriteResult, datagramSent: bool)

  datatype Op =
    | OpenStream(id: nat)
    | WriteHeader(id: nat)
    | FailHeader(id: nat, sent: nat)
    | WriteFrame(id: nat, unit: nat)
    | FailFrame(id: nat, unit: nat, sent: nat)
    | Reset(id: nat)
    | CloseStream(id: nat)
    | Datagram(unit: nat, envelope: nat)
    | RequestKeyframe(unit: nat)
    | Drop(unit: nat)
    | DropNone  // a drop reported for no access unit

  // Operations, in the order they happened.
  datatype Log = Empty | Then(past: Log, op: Op)

  predicate OnStream(op: Op) {
    op.WriteHeader? || op.FailHeader? || op.WriteFrame? || op.FailFrame? || op.Reset? || op.CloseStream?
  }

  // A stream can be opened and gets its header, if the track has a name.
  predicate OpenWorks(io: Io, name: Option<seq<byte>>) {
    !io.open.Refused? && (name.Some? ==> |name.value| <= MAX_STREAM_HEADER && !io.open.HeaderFails?)
  }

  // A frame fits the format and is written whole.
  predicate WriteWorks(au: AccessUnit, io: Io) {
    |au.bytes| <= MAX_FEED_PAYLOAD && io.write.Writes?
  }

  // ---- Reading a log ----

  function LiveAfter(live: set<nat>, op: Op): set<nat> {
    match op
    case OpenStream(id) => live + {id}
    case Reset(id) => live - {id}
    case CloseStream(id) => live - {id}
    case _ => live
  }

  // Streams opened and neither reset nor closed.
  function Live(log: Log): set<nat> {
    if log.Empty? then {} else LiveAfter(Live(log.past), log.op)
  }

  function OpenCount(log: Log): nat {
    if log.Empty? then 0 else OpenCount(log.past) + if log.op.OpenStream? then 1 else 0
  }

  // The access units written whole to stream id, in order.
  function Units(log: Log, id: nat): seq<nat> {
    if log.Empty? then []
    else if log.op.WriteFrame? && log.op.id == id then Units(log.past, id) + [log.op.unit]
    else Units(log.past, id)
  }

  // The access units that got their outcome: written, sent, dropped, or replaced
  // by a keyframe request; in order.
  function Outcomes(log: Log): seq<nat> {
    if log.Empty? then []
    else if IsOutcome(log.op) then Outcomes(log.past) + [log.op.unit]
    else Outcomes(log.past)
  }

  predicate IsOutcome(op: Op) {
    op.WriteFrame? || op.Datagram? || op.RequestKeyframe? || op.Drop?
  }

  // What became of each access unit, in order.
  datatype Verdict = Written | Sent | GivenUp

  function VerdictOf(op: Op): Verdict {
    if op.WriteFrame? then Written else if op.Datagram? then Sent else GivenUp
  }

  function Verdicts(log: Log): seq<Verdict> {
    if log.Empty? then []
    else if IsOutcome(log.op) then Verdicts(log.past) + [VerdictOf(log.op)]
    else Verdicts(log.past)
  }

  // No stream was closed; streams that ended were reset.
  predicate NeverClosed(log: Log) {
    log.Empty? || (NeverClosed(log.past) && !log.op.CloseStream?)
  }

  // Only the last operation may close a stream.
  predicate ClosedOnlyAtEnd(log: Log) {
    log.Empty? || NeverClosed(log.past)
  }

  ghost predicate IsRange(s: seq<nat>, n: nat) {
    |s| == n && forall k :: 0 <= k < n ==> s[k] == k
  }

  // `later` is `earlier` with nothing but stream operations added.
  predicate AddsStreamOps(earlier: Log, later: Log) {
    later == earlier
    || (later.Then? && (later.op.OpenStream? || OnStream(later.op)) && AddsStreamOps(earlier, later.past))
  }

  lemma {:induction false} AddsAfterOpen(earlier: Log, id: nat, later: Log)
    requires AddsStreamOps(Then(earlier, OpenStream(id)), later)
    ensures AddsStreamOps(earlier, later)
  {
    if later != Then(earlier, OpenStream(id)) {
      AddsAfterOpen(earlier, id, later.past);
    }
  }

  // ---- Orderly logs ----

  // A stream is opened only when none is live, under the next number; every
  // other stream operation is on the one live stream.
  predicate OneLive(op: Op, live: set<nat>, opens: nat) {
    && (op.OpenStream? ==> live == {} && op.id == opens)
    && (OnStream(op) ==> live == {op.id})
  }

  // No header is owed and no failure is waiting for its reset.
  predicate Settled(log: Log, named: bool) {
    log.Empty? || !(log.op.FailHeader? || log.op.FailFrame? || (named && log.op.OpenStream?))
  }

  // A stream of a named track gets its header first; a failed write is followed
  // by a reset.
  predicate InTurn(log: Log, op: Op, named: bool) {
    if Settled(log, named) then !op.WriteHeader? && !op.FailHeader?
    else if log.op.OpenStream? then (op.WriteHeader? || op.FailHeader?) && op.id == log.op.id
    else op == Reset(log.op.id)
  }

  predicate Orderly(log: Log, named: bool) {
    log.Empty? || (
      && Orderly(log.past, named)
      && OneLive(log.op, Live(log.past), OpenCount(log.past))
      && InTurn(log.past, log.op, named))
  }

  // At every moment of an orderly log at most one stream is live.
  lemma {:induction false} AtMostOneLive(log: Log, named: bool)
    requires Orderly(log, named)
    ensures |Live(log)| <= 1
    ensures log.Then? ==> |Live(log.past)| <= 1 && Orderly(log.past, named)
  {
    if log.Then? {
      AtMostOneLive(log.past, named);
      if OnStream(log.op) {
        assert Live(log) <= {log.op.id};
      }
    }
  }

  // ---- What is on the wire ----

  function Partial(s: seq<byte>, sent: nat): (p: seq<byte>)
    ensures IsPrefix(p, s) && (s != [] ==> |p| < |s|) && (sent < |s| ==> |p| == sent)
  {
    if s == [] then [] else if sent < |s| then s[..sent] else s[..|s| - 1]
  }

  // The bytes on stream id, when unit u is encoded as frame(u).
  function Content(log: Log, id: nat, name: Option<seq<byte>>, frame: nat -> FeedFrame): seq<byte> {
    if log.Empty? then []
    else
      var before := Content(log.past, id, name, frame);
      match log.op
      case WriteHeader(i) => if i == id then before + Prefix(name) else before
      case FailHeader(i, sent) => if i == id then before + Partial(Prefix(name), sent) else before
      case WriteFrame(i, unit) => if i == id then before + Encode(frame(unit)) else before
      case FailFrame(i, unit, sent) => if i == id then before + Partial(Encode(frame(unit)), sent) else before
      case _ => before
  }

  function Frames(frame: nat -> FeedFrame, units: seq<nat>): (fs: seq<FeedFrame>)
    ensures |fs| == |units| && forall k :: 0 <= k < |fs| ==> fs[k] == frame(units[k])
  {
    seq(|units|, k requires 0 <= k < |units| => frame(units[k]))
  }

  // A stream holds its header and whole frames.
  ghost predicate Whole(content: seq<byte>, units: seq<nat>, name: Option<seq<byte>>, frame: nat -> FeedFrame) {
    content == Wire(name, Frames(frame, units))
  }

  // A stream holds less than its header.
  ghost predicate HeaderCut(content: seq<byte>, units: seq<nat>, name: Option<seq<byte>>) {
    units == [] && name.Some? && IsPrefix(content, Prefix(name)) && |content| < |Prefix(name)|
  }

  // A stream holds its header, whole frames, and less than one frame more.
  ghost predicate FrameCut(
      content: seq<byte>, units: seq<nat>, name: Option<seq<byte>>, frame: nat -> FeedFrame, last: nat, n: nat)
  {
    n < |Encode(frame(last))| && content == Wire(name, Frames(frame, units)) + Encode(frame(last))[..n]
  }

  // Unit `last` failed on stream id.
  predicate FailedOn(log: Log, id: nat, last: nat) {
    log.Then? && ((log.op.FailFrame? && log.op.id == id && log.op.unit == last) || FailedOn(log.past, id, last))
  }

  ghost predicate WellWritten(log: Log, id: nat, name: Option<seq<byte>>, frame: nat -> FeedFrame) {
    var content, units := Content(log, id, name, frame), Units(log, id);
    || Whole(content, units, name, frame)
    || HeaderCut(content, units, name)
    || exists last: nat, n: nat :: FailedOn(log, id, last) && FrameCut(content, units, name, frame, last, n)
  }

  // What holds of stream id at the end of an orderly log.
  ghost predicate StreamState(log: Log, id: nat, name: Option<seq<byte>>, frame: nat -> FeedFrame) {
    var content, units := Content(log, id, name, frame), Units(log, id);
    if id >= OpenCount(log) || (log.Then? && log.op == OpenStream(id)) then content == [] && units == []
    else if id in Live(log) && Settled(log, name.Some?) then Whole(content, units, name, frame)
    else WellWritten(log, id, name, frame)
  }

  lemma WholeAppend(content: seq<byte>, units: seq<nat>, unit: nat, name: Option<seq<byte>>, frame: nat -> FeedFrame)
    requires Whole(content, units, name, frame)
    ensures Whole(content + Encode(frame(unit)), units + [unit], name, frame)
  {
    var fs, f := Frames(frame, units), frame(unit);
    assert Frames(frame, units + [unit]) == fs + [f];
    assert Wire(name, fs + [f]) == Wire(name, fs) + Encode(f) by {
      ConcatAppend(Encode, fs, f);
      Associate(Prefix(name), Concat(Encode, fs), Encode(f));
    }
  }

  lemma EmptyStream(name: Option<seq<byte>>, frame: nat -> FeedFrame)
    ensures Whole(Prefix(name), [], name, frame)
  {}

  predicate About(op: Op, id: nat) {
    (op.OpenStream? || OnStream(op)) && op.id == id
  }

  // A live stream with nothing owed holds its header and whole frames.
  lemma SettledIsWhole(log: Log, id: nat, name: Option<seq<byte>>, frame: nat -> FeedFrame)
    requires Orderly(log, name.Some?) && StreamState(log, id, name, frame)
    requires id in Live(log) && id < OpenCount(log) && Settled(log, name.Some?)
    ensures Whole(Content(log, id, name, frame), Units(log, id), name, frame)
  {
    EmptyStream(name, frame);
  }

  lemma ElsewhereStep(past: Log, op: Op, id: nat, name: Option<seq<byte>>, frame: nat -> FeedFrame)
    requires Orderly(Then(past, op), name.Some?) && StreamState(past, id, name, frame) && !About(op, id)
    ensures StreamState(Then(past, op), id, name, frame)
  {
    var log := Then(past, op);
    EmptyStream(name, frame);
    assert Content(log, id, name, frame) == Content(past, id, name, frame);
    assert Units(log, id) == Units(past, id);
    if exists last: nat, n: nat :: FailedOn(past, id, last)
         && FrameCut(Content(past, id, name, frame), Units(past, id), name, frame, last, n) {
      var last: nat, n: nat :| FailedOn(past, id, last)
        && FrameCut(Content(past, id, name, frame), Units(past, id), name, frame, last, n);
      assert FailedOn(log, id, last);
    }
  }

  lemma HeaderStep(past: Log, op: Op, id: nat, name: Option<seq<byte>>, frame: nat -> FeedFrame)
    requires Orderly(Then(past, op), name.Some?) && StreamState(past, id, name, frame)
    requires op == OpenStream(id) || op == WriteHeader(id) || (op.FailHeader? && op.id == id)
    ensures StreamState(Then(past, op), id, name, frame)
  {
    EmptyStream(name, frame);
  }

  lemma FrameStep(past: Log, op: Op, id: nat, name: Option<seq<byte>>, frame: nat -> FeedFrame)
    requires Orderly(Then(past, op), name.Some?) && StreamState(past, id, name, frame) && id < OpenCount(past)
    requires (op.WriteFrame? || op.FailFrame?) && op.id == id
    ensures StreamState(Then(past, op), id, name, frame)
  {
    var log := Then(past, op);
    SettledIsWhole(past, id, name, frame);
    if op.WriteFrame? {
      WholeAppend(Content(past, id, name, frame), Units(past, id), op.unit, name, frame);
    } else {
      var sent := Partial(Encode(frame(op.unit)), op.sent);
      assert FailedOn(log, id, op.unit);
      assert FrameCut(Content(log, id, name, frame), Units(log, id), name, frame, op.unit, |sent|);
    }
  }

  lemma EndStep(past: Log, op: Op, id: nat, name: Option<seq<byte>>, frame: nat -> FeedFrame)
    requires Orderly(Then(past, op), name.Some?) && StreamState(past, id, name, frame) && id < OpenCount(past)
    requires op == Reset(id) || op == CloseStream(id)
    ensures StreamState(Then(past, op), id, name, frame)
  {
    var log := Then(past, op);
    if Settled(past, name.Some?) {
      SettledIsWhole(past, id, name, frame);
    } else if exists last: nat, n: nat :: FailedOn(past, id, last)
                && FrameCut(Content(past, id, name, frame), Units(past, id), name, frame, last, n) {
      var last: nat, n: nat :| FailedOn(past, id, last)
        && FrameCut(Content(past, id, name, frame), Units(past, id), name, frame, last, n);
      assert FailedOn(log, id, last);
    }
  }

  lemma {:induction false} LiveIsOpened(log: Log, named: bool)
    requires Orderly(log, named)
    ensures forall id :: id in Live(log) ==> id < OpenCount(log)
  {
    if log.Then? {
      LiveIsOpened(log.past, named);
    }
  }

  // Every stream of an orderly log, at every moment, holds its header and whole
  // frames, followed by a part of one frame only if that frame's write failed.
  lemma {:induction false} StreamStates(log: Log, id: nat, name: Option<seq<byte>>, frame: nat -> FeedFrame)
    requires Orderly(log, name.Some?)
    ensures StreamState(log, id, name, frame)
  {
    if log.Then? {
      var past, op := log.past, log.op;
      StreamStates(past, id, name, frame);
      LiveIsOpened(past, name.Some?);
      if !About(op, id) {
        ElsewhereStep(past, op, id, name, frame);
      } else if op.WriteFrame? || op.FailFrame? {
        FrameStep(past, op, id, name, frame);
      } else if op.Reset? || op.CloseStream? {
        EndStep(past, op, id, name, frame);
      } else {
        HeaderStep(past, op, id, name, frame);
      }
      assert log == Then(past, op);
    }
  }

  // ---- Which access units are on a stream ----

  // Every frame that reached the transport belongs to a dequeued access unit
  // whose payload the format can carry.
  predicate FitsWire(log: Log, aus: seq<AccessUnit>) {
    log.Empty? || (
      && FitsWire(log.past, aus)
      && (log.op.WriteFrame? || log.op.FailFrame? ==>
            log.op.unit < |aus| && |aus[log.op.unit].bytes| <= MAX_FEED_PAYLOAD))
  }

  lemma {:induction false} FitsWireUnits(log: Log, aus: seq<AccessUnit>, id: nat)
    requires FitsWire(log, aus)
    ensures forall k :: 0 <= k < |Units(log, id)| ==>
              Units(log, id)[k] < |aus| && |aus[Units(log, id)[k]].bytes| <= MAX_FEED_PAYLOAD
    ensures forall last: nat :: FailedOn(log, id, last) ==> last < |aus| && |aus[last].bytes| <= MAX_FEED_PAYLOAD
  {
    if log.Then? {
      FitsWireUnits(log.past, aus, id);
    }
  }

  lemma {:induction false} UnopenedIsUnused(log: Log, named: bool, id: nat)
    requires Orderly(log, named) && id >= OpenCount(log)
    ensures Units(log, id) == [] && id !in Live(log)
  {
    if log.Then? {
      UnopenedIsUnused(log.past, named, id);
      LiveIsOpened(log.past, named);
    }
  }

  // ---- What the client reads ----

  // Frames that do not look like stream headers and carry what fits.
  ghost predicate FeedFrames(frame: nat -> FeedFrame, aus: seq<AccessUnit>) {
    forall u: nat :: frame(u).typ != TYPE_STREAM_HEADER
      && (u < |aus| && |aus[u].bytes| <= MAX_FEED_PAYLOAD ==> frame(u).Encodable())
  }

  // Stream id was reset, so bytes in flight on it may have been discarded.
  predicate WasReset(log: Log, id: nat) {
    log.Then? && (log.op == Reset(id) || WasReset(log.past, id))
  }

  // What QUIC hands the client of a stream: the bytes written to it, in order, up
  // to some point; all of them if the stream was closed and never reset.
  ghost predicate Arrives(got: seq<byte>, log: Log, id: nat, name: Option<seq<byte>>, frame: nat -> FeedFrame) {
    var content := Content(log, id, name, frame);
    && IsPrefix(got, content)
    && (id !in Live(log) && !WasReset(log, id) ==> got == content)
  }

  // The bytes of a stream in one form: the header, whole frames and a proper part
  // of a further frame, unless not even the header is there.
  lemma StreamForm(
      log: Log, id: nat, name: Option<seq<byte>>, aus: seq<AccessUnit>, frame: nat -> FeedFrame)
      returns (next: FeedFrame, n: nat)
    requires Orderly(log, name.Some?) && FitsWire(log, aus) && FeedFrames(frame, aus)
    ensures next.Encodable() && next.typ != TYPE_STREAM_HEADER && n < |Encode(next)|
    ensures var content, units := Content(log, id, name, frame), Units(log, id);
      && (forall f :: f in Frames(frame, units) ==> f.Encodable() && f.typ != TYPE_STREAM_HEADER)
      && (|| content == Wire(name, Frames(frame, units)) + Encode(next)[..n]
          || (units == [] && name.Some? && IsPrefix(content, Prefix(name)) && |content| < |Prefix(name)|))
  {
    var content, units := Content(log, id, name, frame), Units(log, id);
    StreamStates(log, id, name, frame);
    FitsWireUnits(log, aus, id);
    next, n := FeedFrame(TYPE_KEYFRAME, 0, 0, 0, 0, []), 0;
    if Whole(content, units, name, frame) {
      assert content == Wire(name, Frames(frame, units)) + Encode(next)[..n];
    } else if content == [] && units == [] && name.None? {
      EmptyStream(name, frame);
    } else if exists last: nat, m: nat :: FailedOn(log, id, last) && FrameCut(content, units, name, frame, last, m) {
      var last: nat, m: nat :| FailedOn(log, id, last) && FrameCut(content, units, name, frame, last, m);
      next, n := frame(last), m;
    }
  }

  // A prefix of header and frames that has the header: whole frames, fewer
  // perhaps, and a part of the next.
  lemma PrefixForm(name: Option<seq<byte>>, fs: seq<FeedFrame>, next: FeedFrame, n: nat, got: seq<byte>)
      returns (k: nat, p: nat)
    requires n < |Encode(next)|
    requires IsPrefix(got, Wire(name, fs) + Encode(next)[..n]) && |got| >= |Prefix(name)|
    ensures k <= |fs| && p < |Encode((fs + [next])[k])|
    ensures got == Wire(name, fs[..k]) + Encode((fs + [next])[k])[..p]
    ensures got == Wire(name, fs) + Encode(next)[..n] ==> k == |fs|
  {
    var header, body := Prefix(name), Concat(Encode, fs) + Encode(next)[..n];
    Associate(header, Concat(Encode, fs), Encode(next)[..n]);
    var m := |got| - |header|;
    CutAt(header, body, |got|);
    if got == header + body {
      k, p := |fs|, n;
      assert fs[..k] == fs;
    } else {
      k, p := CutItems(Encode, fs, next, n, m);
      Associate(header, Concat(Encode, fs[..k]), Encode((fs + [next])[k])[..p]);
    }
  }

  // However much of a stream arrives, a client that can drain it recovers the
  // track name and a prefix of the frames written whole, in order; all of them if
  // all bytes arrive, which they do unless the stream was reset.
  lemma ClientReadsFrames(
      log: Log, id: nat, name: Option<seq<byte>>, aus: seq<AccessUnit>, frame: nat -> FeedFrame, got: seq<byte>,
      name': seq<byte>, frames': seq<FeedFrame>, leftover: seq<byte>)
    requires Orderly(log, name.Some?) && FitsWire(log, aus) && FeedFrames(frame, aus)
    requires name.Some? ==> ValidName(name.value)
    requires Arrives(got, log, id, name, frame) && Drains(got, name', frames', leftover)
    ensures name' == (if name.Some? then name.value else PRIMARY)
    ensures IsPrefix(frames', Frames(frame, Units(log, id)))
    ensures got == Content(log, id, name, frame) ==> frames' == Frames(frame, Units(log, id))
    ensures id !in Live(log) && !WasReset(log, id) ==> frames' == Frames(frame, Units(log, id))
  {
    var content, fs := Content(log, id, name, frame), Frames(frame, Units(log, id));
    var next, n := StreamForm(log, id, name, aus, frame);
    if name.Some? && |got| < |Prefix(name)| {
      PrefixTransitive(got, content, Prefix(name), Wire(name, fs) + Encode(next)[..n]);
      CutHeaderIsUnreadable(name.value, got);
    } else {
      var k, p := PrefixForm(name, fs, next, n, got);
      var all := fs + [next];
      assert fs[..k] + [all[k]] == all[..k + 1];
      WholeStreamRoundTrip(name, fs[..k], all[k], p, name', frames', leftover);
    }
  }

  // What arrives can be drained exactly when it is something and has the header.
  lemma ArrivedIsReadable(
      log: Log, id: nat, name: Option<seq<byte>>, aus: seq<AccessUnit>, frame: nat -> FeedFrame, got: seq<byte>)
    requires Orderly(log, name.Some?) && FitsWire(log, aus) && FeedFrames(frame, aus)
    requires name.Some? ==> ValidName(name.value)
    requires Arrives(got, log, id, name, frame)
    ensures got == [] || (got[0] == TYPE_STREAM_HEADER && !HoldsHeader(got)) <==> got == [] || |got| < |Prefix(name)|
  {
    var content, fs := Content(log, id, name, frame), Frames(frame, Units(log, id));
    var next, n := StreamForm(log, id, name, aus, frame);
    if name.Some? && |got| < |Prefix(name)| {
      PrefixTransitive(got, content, Prefix(name), Wire(name, fs) + Encode(next)[..n]);
      CutHeaderIsUnreadable(name.value, got);
    } else {
      var k, p := PrefixForm(name, fs, next, n, got);
      var all := fs + [next];
      assert fs[..k] + [all[k]] == all[..k + 1];
      WrittenIsReadable(name, fs[..k], all[k], p);
    }
  }

  // A short prefix of the content is a prefix of the header.
  lemma PrefixTransitive(got: seq<byte>, content: seq<byte>, header: seq<byte>, full: seq<byte>)
    requires IsPrefix(got, content) && |got| < |header| && IsPrefix(header, full)
    requires content == full || IsPrefix(content, header)
    ensures IsPrefix(got, header)
  {}

  // A unit whose verdict is Written is on some stream.
  lemma {:induction false} WrittenIsOnStream(log: Log, k: nat)
    requires k < |Verdicts(log)| && Verdicts(log)[k] == Written
    ensures |Outcomes(log)| == |Verdicts(log)|
    ensures exists id: nat :: Outcomes(log)[k] in Units(log, id)
  {
    OneVerdictEach(log);
    if k < |Verdicts(log.past)| {
      WrittenIsOnStream(log.past, k);
      var id: nat :| Outcomes(log.past)[k] in Units(log.past, id);
      assert Outcomes(log)[k] in Units(log, id);
    } else {
      assert Outcomes(log)[k] in Units(log, log.op.id);
    }
  }

  lemma {:induction false} OneVerdictEach(log: Log)
    ensures |Outcomes(log)| == |Verdicts(log)|
  {
    if log.Then? {
      OneVerdictEach(log.past);
    }
  }

  // The transport as one pump uses it.
  class Transport {
    const name: Option<seq<byte>>
    var log: Log
    var opens: nat

    constructor (trackName: Option<seq<byte>>)
      ensures Valid() && name == trackName && log == Empty
    {
      name, log, opens := trackName, Empty, 0;
    }

    ghost predicate Valid()
      reads this
    {
      Orderly(log, name.Some?) && opens == OpenCount(log)
    }

    // One operation other than opening a stream.
    method Do(op: Op)
      requires Valid() && !op.OpenStream?
      requires (OnStream(op) ==> Live(log) == {op.id}) && InTurn(log, op, name.Some?)
      modifies this`log
      ensures Valid() && log == Then(old(log), op)
      ensures Live(log) == LiveAfter(old(Live(log)), op)
      ensures forall id :: Units(log, id) ==
                old(Units(log, id)) + if op.WriteFrame? && op.id == id then [op.unit] else []
      ensures Outcomes(log) == old(Outcomes(log)) + if IsOutcome(op) then [op.unit] else []
      ensures Verdicts(log) == old(Verdicts(log)) + if IsOutcome(op) then [VerdictOf(op)] else []
      ensures !op.CloseStream? && old(NeverClosed(log)) ==> NeverClosed(log)
      ensures !op.WriteFrame? && !op.FailFrame? ==> forall aus :: old(FitsWire(log, aus)) ==> FitsWire(log, aus)
    {
      log := Then(log, op);
    }

    // Open a stream and, on a named track, write its header (openGOPStream and
    // its twins in the other pumps); None if either fails.
    method Open(io: Io) returns (s: Option<nat>)
      requires Valid() && Live(log) == {} && Settled(log, name.Some?)
      modifies this
      ensures Valid() && Settled(log, name.Some?)
      ensures Live(log) == if s.Some? then {s.value} else {}
      ensures s.Some? ==> s.value == old(opens) && Units(log, s.value) == []
      ensures opens == old(opens) || opens == old(opens) + 1
      ensures forall id :: Units(log, id) == old(Units(log, id))
      ensures Outcomes(log) == old(Outcomes(log)) && Verdicts(log) == old(Verdicts(log))
      ensures old(NeverClosed(log)) ==> NeverClosed(log)
      ensures s.Some? <==> OpenWorks(io, name)
      ensures name.None? ==> (s.Some? <==> !io.open.Refused?)
      ensures name.Some? ==> (s.Some? <==> io.open.Opens? && |name.value| <= MAX_STREAM_HEADER)
      ensures forall aus :: old(FitsWire(log, aus)) ==> FitsWire(log, aus)
      ensures AddsStreamOps(old(log), log)
    {
      if io.open.Refused? {
        return None;
      }
      var id := Begin();
      if name.Some? {
        var ok := SendHeader(id, io);
        AddsAfterOpen(old(log), id, log);
        if !ok {
          return None;
        }
      }
      return Some(id);
    }

    // A stream is opened, under the next number.
    method Begin() returns (id: nat)
      requires Valid() && Live(log) == {} && Settled(log, name.Some?)
      modifies this
      ensures Valid() && id == old(opens) && opens == id + 1 && log == Then(old(log), OpenStream(id))
      ensures Live(log) == {id} && Units(log, id) == []
      ensures forall i :: Units(log, i) == old(Units(log, i))
      ensures Outcomes(log) == old(Outcomes(log)) && Verdicts(log) == old(Verdicts(log))
      ensures old(NeverClosed(log)) ==> NeverClosed(log)
      ensures forall aus :: old(FitsWire(log, aus)) ==> FitsWire(log, aus)
    {
      id := opens;
      UnopenedIsUnused(log, name.Some?, id);
      log, opens := Then(log, OpenStream(id)), opens + 1;
    }

    // WriteStreamHeader on a stream just opened; on failure it is reset.
    method SendHeader(id: nat, io: Io) returns (ok: bool)
      requires Valid() && name.Some? && log.Then? && log.op == OpenStream(id) && Live(log) == {id}
      requires !io.open.Refused?
      modifies this`log
      ensures Valid() && Settled(log, true) && Live(log) == if ok then {id} else {}
      ensures forall i :: Units(log, i) == old(Units(log, i))
      ensures Outcomes(log) == old(Outcomes(log)) && Verdicts(log) == old(Verdicts(log))
      ensures old(NeverClosed(log)) ==> NeverClosed(log)
      ensures ok <==> OpenWorks(io, name)
      ensures forall aus :: old(FitsWire(log, aus)) ==> FitsWire(log, aus)
      ensures AddsStreamOps(old(log), log)
    {
      ok := |name.value| <= MAX_STREAM_HEADER && !io.open.HeaderFails?;
      if ok {
        Do(WriteHeader(id));
      } else {
        Do(FailHeader(id, if |name.value| <= MAX_STREAM_HEADER then io.open.sent else 0));
        assert AddsStreamOps(old(log), log);
        Do(Reset(id));
      }
    }
  }
}
