/**
 * The stream-per-GOP pump (runStreamGOP in feed/pump.go): one uni stream per
 * keyframe, P-frames on the keyframe's stream, the previous stream reset at the
 * next keyframe.
 */
module GopPump {
  import opened Bytes
  import opened AccessUnits
  import opened Framing
  import opened FeedWire
  import opened ClientFeed
  import opened StreamLog

  // The frames of one stream: a contiguous run of the dequeued access units in
  // which only the first may be a keyframe, and must be one, except on the very
  // first stream when leading P-frames are allowed.
  ghost predicate OneGop(units: seq<nat>, aus: seq<AccessUnit>, leading: bool) {
    && (forall k :: 0 <= k < |units| ==> units[k] == units[0] + k < |aus|)
    && (forall k :: 0 < k < |units| ==> !aus[units[k]].keyframe)
    && (units != [] && !aus[units[0]].keyframe ==> leading)
  }

  // Which access units are written: the write must work, and either the unit
  // starts a stream (a keyframe, or a leading first unit) that can be opened, or
  // its predecessor was written.
  predicate Delivered(aus: seq<AccessUnit>, ios: seq<Io>, name: Option<seq<byte>>, allowLeading: bool, u: nat)
    requires u < |aus| == |ios|
  {
    && WriteWorks(aus[u], ios[u])
    && (if aus[u].keyframe || (u == 0 && allowLeading) then OpenWorks(ios[u], name)
        else u > 0 && Delivered(aus, ios, name, allowLeading, u - 1))
  }

  // A stream opened for unit j, the last keyframe at or before u, or the leading
  // first unit with no keyframe after it, carries j to u.
  ghost predicate CarriedFrom(
      aus: seq<AccessUnit>, ios: seq<Io>, name: Option<seq<byte>>, allowLeading: bool, j: nat, u: nat)
    requires j <= u < |aus| == |ios|
  {
    && (aus[j].keyframe || (j == 0 && allowLeading)) && OpenWorks(ios[j], name)
    && (forall k :: j < k <= u ==> !aus[k].keyframe)
    && (forall k :: j <= k <= u ==> WriteWorks(aus[k], ios[k]))
  }

  // An access unit is written if and only if the stream of its GOP could be opened
  // and every unit of the GOP up to it could be written.
  lemma {:induction false} DeliveredIff(
      aus: seq<AccessUnit>, ios: seq<Io>, name: Option<seq<byte>>, allowLeading: bool, u: nat)
    requires u < |aus| == |ios|
    ensures Delivered(aus, ios, name, allowLeading, u)
       <==> exists j :: 0 <= j <= u && CarriedFrom(aus, ios, name, allowLeading, j, u)
    ensures Delivered(aus, ios, name, allowLeading, u) ==> |aus[u].bytes| <= MAX_FEED_PAYLOAD && ios[u].write.Writes?
  {
    if u > 0 {
      var before := u - 1;
      DeliveredIff(aus, ios, name, allowLeading, before);
      if exists j :: 0 <= j <= before && CarriedFrom(aus, ios, name, allowLeading, j, before) {
        var j :| 0 <= j <= before && CarriedFrom(aus, ios, name, allowLeading, j, before);
        assert WriteWorks(aus[u], ios[u]) && !aus[u].keyframe ==> CarriedFrom(aus, ios, name, allowLeading, j, u);
      }
      if exists j :: 0 <= j <= u && CarriedFrom(aus, ios, name, allowLeading, j, u) {
        var j :| 0 <= j <= u && CarriedFrom(aus, ios, name, allowLeading, j, u);
        assert j < u ==> CarriedFrom(aus, ios, name, allowLeading, j, before);
      }
    }
    if Delivered(aus, ios, name, allowLeading, u) && (aus[u].keyframe || (u == 0 && allowLeading)) {
      assert CarriedFrom(aus, ios, name, allowLeading, u, u);
    }
  }

  // An access unit that is not written is replaced by a keyframe request, never
  // dropped without one or sent as a datagram.
  predicate OnlyWritesAndRequests(log: Log) {
    log.Empty?
    || (OnlyWritesAndRequests(log.past) && !log.op.Drop? && !log.op.DropNone? && !log.op.Datagram?)
  }

  lemma {:induction false} StreamOpsKeepRequests(earlier: Log, later: Log)
    requires AddsStreamOps(earlier, later) && OnlyWritesAndRequests(earlier)
    ensures OnlyWritesAndRequests(later)
  {
    if later != earlier {
      StreamOpsKeepRequests(earlier, later.past);
    }
  }

  // The stream-per-GOP discipline for the first n access units: one live stream
  // at a time, ended by a reset; each stream one GOP; for each access unit one
  // outcome, in order; and a keyframe request exactly where the unit could not
  // be delivered.
  ghost predicate Discipline(
      log: Log, name: Option<seq<byte>>, aus: seq<AccessUnit>, ios: seq<Io>, n: nat, allowLeading: bool)
    requires n <= |aus| == |ios|
  {
    && Orderly(log, name.Some?)
    && FitsWire(log, aus) && OnlyWritesAndRequests(log)
    && (forall id: nat :: OneGop(Units(log, id), aus, allowLeading && id == 0))
    && IsRange(Outcomes(log), n)
    && |Verdicts(log)| == n
    && (forall u :: 0 <= u < n ==>
          Verdicts(log)[u] == if Delivered(aus, ios, name, allowLeading, u) then Written else GivenUp)
  }

  lemma OneGopAppend(units: seq<nat>, aus: seq<AccessUnit>, leading: bool, unit: nat)
    requires OneGop(units, aus, leading) && unit < |aus|
    requires if units == [] then aus[unit].keyframe || leading
             else unit == units[|units| - 1] + 1 && !aus[unit].keyframe
    ensures OneGop(units + [unit], aus, leading)
  {}

  // Unit n continues a stream that carries `units`.
  ghost predicate Continues(units: seq<nat>, n: nat) {
    units != [] && units[|units| - 1] + 1 == n
  }

  class Pump {
    const allowLeading: bool
    const wire: Transport
    var current: Option<nat>
    var leadingAllowed: bool
    var dequeued: nat

    constructor (trackName: Option<seq<byte>>, allow: bool)
      ensures fresh(wire) && wire.name == trackName && allowLeading == allow
      ensures forall aus, ios :: |aus| == |ios| ==> Valid(aus, ios)
      ensures dequeued == 0
    {
      allowLeading := allow;
      wire := new Transport(trackName);
      current, leadingAllowed, dequeued := None, allow, 0;
    }

    // The log keeps the discipline for the access units dequeued so far, and the
    // pump's variables agree with it: the current stream is the one live stream,
    // and the leading exception is for the first access unit.
    ghost predicate Agrees(aus: seq<AccessUnit>, ios: seq<Io>)
      reads this, wire
    {
      && dequeued <= |aus| == |ios|
      && wire.Valid() && Settled(wire.log, wire.name.Some?) && NeverClosed(wire.log)
      && Discipline(wire.log, wire.name, aus, ios, dequeued, allowLeading)
      && Live(wire.log) == (if current.Some? then {current.value} else {})
    }

    // Between two access units the current stream carries the last one, and
    // there is one if and only if the last one was delivered.
    ghost predicate Valid(aus: seq<AccessUnit>, ios: seq<Io>)
      reads this, wire
    {
      && Agrees(aus, ios)
      && (current.Some? ==> Continues(Units(wire.log, current.value), dequeued))
      && (current.Some? <==> dequeued > 0 && Delivered(aus, ios, wire.name, allowLeading, dequeued - 1))
      && leadingAllowed == (allowLeading && dequeued == 0)
      && (dequeued == 0 ==> wire.opens == 0)
    }

    // The access unit of this turn and the transport's answers to it.
    ghost predicate IsTurn(aus: seq<AccessUnit>, ios: seq<Io>, au: AccessUnit, io: Io)
      reads this
    {
      dequeued < |aus| == |ios| && aus[dequeued] == au && ios[dequeued] == io
    }

    // The receiver is asked for a keyframe instead of this access unit being
    // written.
    method GiveUp(ghost aus: seq<AccessUnit>, ghost ios: seq<Io>)
      requires Agrees(aus, ios) && current.None? && !leadingAllowed
      requires dequeued < |aus| && !Delivered(aus, ios, wire.name, allowLeading, dequeued)
      modifies this`dequeued, wire`log
      ensures Valid(aus, ios) && dequeued == old(dequeued) + 1
    {
      wire.Do(RequestKeyframe(dequeued));
      dequeued := dequeued + 1;
    }

    // The unit may be the next frame of the current stream.
    ghost predicate MayWrite(au: AccessUnit)
      requires current.Some?
      reads this, wire
    {
      var units := Units(wire.log, current.value);
      if units == [] then au.keyframe || (allowLeading && current.value == 0)
      else Continues(units, dequeued) && !au.keyframe
    }

    // writeFrame on the current stream.
    method WriteUnit(ghost aus: seq<AccessUnit>, ghost ios: seq<Io>, au: AccessUnit, io: Io)
      requires Agrees(aus, ios) && IsTurn(aus, ios, au, io) && !leadingAllowed
      requires current.Some? && MayWrite(au)
      requires Delivered(aus, ios, wire.name, allowLeading, dequeued) <==> WriteWorks(au, io)
      modifies this`current, this`dequeued, wire`log
      ensures Valid(aus, ios) && dequeued == old(dequeued) + 1
    {
      if |au.bytes| > MAX_FEED_PAYLOAD {
        wire.Do(Reset(current.value));
        current := None;
        GiveUp(aus, ios);
      } else if io.write.WriteFails? {
        wire.Do(FailFrame(current.value, dequeued, io.write.sent));
        wire.Do(Reset(current.value));
        current := None;
        GiveUp(aus, ios);
      } else {
        WriteWhole(aus, ios, au, io);
      }
    }

    method WriteWhole(ghost aus: seq<AccessUnit>, ghost ios: seq<Io>, au: AccessUnit, ghost io: Io)
      requires Agrees(aus, ios) && IsTurn(aus, ios, au, io) && !leadingAllowed
      requires current.Some? && MayWrite(au)
      requires Delivered(aus, ios, wire.name, allowLeading, dequeued) && WriteWorks(au, io)
      modifies this`dequeued, wire`log
      ensures Valid(aus, ios) && dequeued == old(dequeued) + 1
    {
      var id := current.value;
      OneGopAppend(Units(wire.log, id), aus, allowLeading && id == 0, dequeued);
      wire.Do(WriteFrame(id, dequeued));
      dequeued := dequeued + 1;
    }

    // openGOPStream
    method OpenNext(ghost aus: seq<AccessUnit>, ghost ios: seq<Io>, io: Io)
      requires Agrees(aus, ios) && current.None?
      modifies this`current, wire
      ensures Agrees(aus, ios) && (current.Some? <==> OpenWorks(io, wire.name))
      ensures current.Some? ==> current.value == old(wire.opens) && Units(wire.log, current.value) == []
    {
      ghost var before := wire.log;
      current := wire.Open(io);
      StreamOpsKeepRequests(before, wire.log);
    }

    // One turn of the loop in runStreamGOP.
    method Handle(ghost aus: seq<AccessUnit>, ghost ios: seq<Io>, au: AccessUnit, io: Io)
      requires Valid(aus, ios) && IsTurn(aus, ios, au, io)
      modifies this`current, this`leadingAllowed, this`dequeued, wire
      ensures Valid(aus, ios) && dequeued == old(dequeued) + 1
    {
      if au.keyframe {
        leadingAllowed := false;
        if current.Some? {
          wire.Do(Reset(current.value));
          current := None;
        }
        OpenNext(aus, ios, io);
        if current.None? {
          GiveUp(aus, ios);
          return;
        }
      }
      if current.None? {
        if !leadingAllowed {
          GiveUp(aus, ios);
          return;
        }
        leadingAllowed := false;
        OpenNext(aus, ios, io);
        if current.None? {
          GiveUp(aus, ios);
          return;
        }
      }
      WriteUnit(aus, ios, au, io);
    }

    // runStreamGOP on the access units dequeued before the channel closes or
    // the context ends; the last stream is closed on the way out.
    method Run(aus: seq<AccessUnit>, ios: seq<Io>)
      requires |aus| == |ios| && Valid(aus, ios) && dequeued == 0
      modifies this, wire
      ensures Discipline(wire.log, wire.name, aus, ios, |aus|, allowLeading)
      ensures forall u :: 0 <= u < |aus| ==>
                (Verdicts(wire.log)[u] == Written
                 <==> exists j :: 0 <= j <= u && CarriedFrom(aus, ios, wire.name, allowLeading, j, u))
      ensures Live(wire.log) == {} && ClosedOnlyAtEnd(wire.log)
    {
      forall u | 0 <= u < |aus|
        ensures Delivered(aus, ios, wire.name, allowLeading, u)
           <==> exists j :: 0 <= j <= u && CarriedFrom(aus, ios, wire.name, allowLeading, j, u)
      {
        DeliveredIff(aus, ios, wire.name, allowLeading, u);
      }
      for i := 0 to |aus|
        invariant Valid(aus, ios) && dequeued == i
      {
        Handle(aus, ios, aus[i], ios[i]);
      }
      if current.Some? {
        wire.Do(CloseStream(current.value));
      }
    }
  }

  // The frame the pump writes for each dequeued access unit; wall(u) is the
  // publish clock stamped on unit u.
  function FrameOf(aus: seq<AccessUnit>, wall: nat -> uint64): nat -> FeedFrame {
    (u: nat) => if u < |aus| then GopFrame(aus[u], wall(u)) else FeedFrame(TYPE_P_FRAME, 0, 0, 0, 0, [])
  }

  // The frames are the access units a, a+1, ... with the fields they were
  // published with; only the first may be a keyframe, and is one unless leading.
  ghost predicate DeliversRun(got: seq<FeedFrame>, a: nat, aus: seq<AccessUnit>, wall: nat -> uint64, leading: bool) {
    && a + |got| <= |aus|
    && (forall k :: 0 <= k < |got| ==> ClientUnit(got[k]) == aus[a + k].(pubWallMicro := wall(a + k)))
    && (forall u :: a < u < a + |got| ==> !aus[u].keyframe)
    && (got != [] ==> aus[a].keyframe || leading)
  }

  // End to end: from whatever part of a stream arrives, however opens and writes
  // failed and wherever a reset cut it, a client gets a contiguous run of the
  // dequeued access units, each with the fields it was published with, starting
  // with a keyframe unless it is the leading stream of a resumed session. From a
  // stream that was closed and not reset it gets every unit written to it.
  lemma ClientGetsOneGop(
      log: Log, id: nat, name: Option<seq<byte>>, aus: seq<AccessUnit>, ios: seq<Io>, allowLeading: bool,
      wall: nat -> uint64, got: seq<byte>, name': seq<byte>, frames': seq<FeedFrame>, leftover: seq<byte>)
    requires |aus| == |ios| && Discipline(log, name, aus, ios, |aus|, allowLeading)
    requires name.Some? ==> ValidName(name.value)
    requires Arrives(got, log, id, name, FrameOf(aus, wall)) && Drains(got, name', frames', leftover)
    ensures name' == (if name.Some? then name.value else PRIMARY)
    ensures var leading := allowLeading && id == 0; exists a :: DeliversRun(frames', a, aus, wall, leading)
    ensures |frames'| <= |Units(log, id)|
    ensures id !in Live(log) && !WasReset(log, id) ==> |frames'| == |Units(log, id)|
  {
    FramesAreFeedFrames(aus, wall);
    ClientReadsFrames(log, id, name, aus, FrameOf(aus, wall), got, name', frames', leftover);
    PrefixIsDelivered(Units(log, id), frames', aus, wall, allowLeading && id == 0);
  }

  lemma PrefixIsDelivered(
      units: seq<nat>, frames': seq<FeedFrame>, aus: seq<AccessUnit>, wall: nat -> uint64, leading: bool)
    requires OneGop(units, aus, leading) && IsPrefix(frames', Frames(FrameOf(aus, wall), units))
    ensures exists a :: DeliversRun(frames', a, aus, wall, leading)
  {
    var some := units[..|frames'|];
    assert frames' == Frames(FrameOf(aus, wall), some);
    OneGopPrefix(units, aus, leading, |frames'|);
    GopIsDelivered(some, aus, wall, leading);
  }

  lemma OneGopPrefix(units: seq<nat>, aus: seq<AccessUnit>, leading: bool, n: nat)
    requires OneGop(units, aus, leading) && n <= |units|
    ensures OneGop(units[..n], aus, leading)
  {}

  // The client itself, on what arrives of a stream: it gives up exactly when
  // nothing or less than the header arrived.
  method ReceiveGop(
      ghost log: Log, ghost id: nat, ghost name: Option<seq<byte>>, ghost aus: seq<AccessUnit>, ghost ios: seq<Io>,
      ghost allowLeading: bool, ghost wall: nat -> uint64, got: seq<byte>)
      returns (out: Option<(seq<byte>, seq<FeedFrame>)>)
    requires |aus| == |ios| && Discipline(log, name, aus, ios, |aus|, allowLeading)
    requires name.Some? ==> ValidName(name.value)
    requires Arrives(got, log, id, name, FrameOf(aus, wall))
    ensures out.None? <==> got == [] || |got| < |Prefix(name)|
    ensures out.Some? ==>
      var leading := allowLeading && id == 0;
      && out.value.0 == (if name.Some? then name.value else PRIMARY)
      && exists a :: DeliversRun(out.value.1, a, aus, wall, leading)
  {
    var r := new StreamReader(got);
    assert r.Stream() == got;
    out := DrainFeed(r);
    FramesAreFeedFrames(aus, wall);
    ArrivedIsReadable(log, id, name, aus, FrameOf(aus, wall), got);
    if out.Some? {
      ghost var leftover :| Drains(got, out.value.0, out.value.1, leftover);
      ClientGetsOneGop(
        log, id, name, aus, ios, allowLeading, wall, got, out.value.0, out.value.1, leftover);
    }
  }

  lemma FramesAreFeedFrames(aus: seq<AccessUnit>, wall: nat -> uint64)
    ensures FeedFrames(FrameOf(aus, wall), aus)
  {
    var frame := FrameOf(aus, wall);
    forall u: nat
      ensures frame(u).typ != TYPE_STREAM_HEADER
      ensures u < |aus| && |aus[u].bytes| <= MAX_FEED_PAYLOAD ==> frame(u).Encodable()
    {
      if u < |aus| {
        ClientGetsUnit(aus[u], wall(u));
      }
    }
  }

  lemma GopIsDelivered(units: seq<nat>, aus: seq<AccessUnit>, wall: nat -> uint64, leading: bool)
    requires OneGop(units, aus, leading)
    ensures exists a :: DeliversRun(Frames(FrameOf(aus, wall), units), a, aus, wall, leading)
  {
    var got := Frames(FrameOf(aus, wall), units);
    var a := if units == [] then 0 else units[0];
    assert units != [] ==> units[|units| - 1] < |aus|;
    forall k | 0 <= k < |got|
      ensures ClientUnit(got[k]) == aus[a + k].(pubWallMicro := wall(a + k))
    {
      assert units[k] == units[0] + k;
      ClientGetsUnit(aus[units[k]], wall(units[k]));
    }
    forall u | a < u < a + |got|
      ensures !aus[u].keyframe
    {
      assert units[u - a] == u;
    }
    assert DeliversRun(got, a, aus, wall, leading);
  }

  // While the transport works, an access unit is delivered if and only if leading
  // P-frames are allowed or some keyframe came at or before it: allowing leading
  // P-frames is what lets a resumed session continue inside a GOP.
  lemma {:induction false} HealthyDelivery(
      aus: seq<AccessUnit>, ios: seq<Io>, name: Option<seq<byte>>, allowLeading: bool, u: nat)
    requires u < |aus| == |ios|
    requires name.Some? ==> |name.value| <= MAX_STREAM_HEADER
    requires forall k :: 0 <= k < |aus| ==>
               |aus[k].bytes| <= MAX_FEED_PAYLOAD && ios[k].open.Opens? && ios[k].write.Writes?
    ensures Delivered(aus, ios, name, allowLeading, u)
       <==> allowLeading || exists k :: 0 <= k <= u && aus[k].keyframe
  {
    if u > 0 {
      HealthyDelivery(aus, ios, name, allowLeading, u - 1);
    }
  }
}
