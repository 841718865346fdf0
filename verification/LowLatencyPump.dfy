/**
 * The low-latency pump (runStreamLowLatency in feed/pump.go): one persistent
 * stream for the track, reopened after a failure; an access unit that cannot be
 * written is dropped.
 */
module LowLatencyPump {
  import opened Bytes
  import opened AccessUnits
  import opened FeedWire
  import opened ClientFeed
  import opened StreamLog

  // A contiguous run of dequeued access units.
  ghost predicate Contiguous(units: seq<nat>) {
    forall k :: 0 <= k < |units| ==> units[k] == units[0] + k
  }

  // Drops reported without an access unit.
  function SpareDrops(log: Log): nat {
    if log.Empty? then 0 else SpareDrops(log.past) + if log.op.DropNone? then 1 else 0
  }

  // No access unit is replaced by a keyframe request or sent as a datagram.
  predicate OnlyWritesAndDrops(log: Log) {
    log.Empty? || (OnlyWritesAndDrops(log.past) && !log.op.RequestKeyframe? && !log.op.Datagram?)
  }

  // Which access units are written: the write must work, on the stream that
  // carried the predecessor (for the first unit: the stream opened up front), or
  // else on a stream that can be opened now.
  predicate Delivered(aus: seq<AccessUnit>, ios: seq<Io>, name: Option<seq<byte>>, up: bool, u: nat)
    requires u < |aus| == |ios|
  {
    && WriteWorks(aus[u], ios[u])
    && ((if u == 0 then up else Delivered(aus, ios, name, up, u - 1)) || OpenWorks(ios[u], name))
  }

  // A stream that is up front or can be opened for unit j carries j to u.
  ghost predicate CarriedFrom(aus: seq<AccessUnit>, ios: seq<Io>, name: Option<seq<byte>>, up: bool, j: nat, u: nat)
    requires j <= u < |aus| == |ios|
  {
    && (OpenWorks(ios[j], name) || (j == 0 && up))
    && (forall k :: j <= k <= u ==> WriteWorks(aus[k], ios[k]))
  }

  // An access unit is written if and only if some stream, opened for it or for one
  // before it, or up front, carries every unit from there to it.
  lemma {:induction false} DeliveredIff(aus: seq<AccessUnit>, ios: seq<Io>, name: Option<seq<byte>>, up: bool, u: nat)
    requires u < |aus| == |ios|
    ensures Delivered(aus, ios, name, up, u) <==> exists j :: 0 <= j <= u && CarriedFrom(aus, ios, name, up, j, u)
    ensures Delivered(aus, ios, name, up, u) ==> |aus[u].bytes| <= MAX_FEED_PAYLOAD && ios[u].write.Writes?
  {
    if u > 0 {
      var before := u - 1;
      DeliveredIff(aus, ios, name, up, before);
      if exists j :: 0 <= j <= before && CarriedFrom(aus, ios, name, up, j, before) {
        var j :| 0 <= j <= before && CarriedFrom(aus, ios, name, up, j, before);
        assert WriteWorks(aus[u], ios[u]) ==> CarriedFrom(aus, ios, name, up, j, u);
      }
      if exists j :: 0 <= j <= u && CarriedFrom(aus, ios, name, up, j, u) {
        var j :| 0 <= j <= u && CarriedFrom(aus, ios, name, up, j, u);
        assert j < u ==> CarriedFrom(aus, ios, name, up, j, before);
      }
    }
    if Delivered(aus, ios, name, up, u) && OpenWorks(ios[u], name) {
      assert CarriedFrom(aus, ios, name, up, u, u);
    } else if Delivered(aus, ios, name, up, u) && u == 0 {
      assert CarriedFrom(aus, ios, name, up, 0, 0);
    }
  }

  // While the transport works and everything fits, every access unit is written;
  // while streams are refused and none is up, none is.
  lemma {:induction false} HealthyDelivery(aus: seq<AccessUnit>, ios: seq<Io>, name: Option<seq<byte>>, up: bool, u: nat)
    requires u < |aus| == |ios|
    ensures (forall k :: 0 <= k <= u ==> |aus[k].bytes| <= MAX_FEED_PAYLOAD && ios[k].write.Writes?)
         && (up || (ios[0].open.Opens? && (name.Some? ==> |name.value| <= MAX_STREAM_HEADER)))
         ==> Delivered(aus, ios, name, up, u)
    ensures !up && (forall k :: 0 <= k <= u ==> ios[k].open.Refused?) ==> !Delivered(aus, ios, name, up, u)
  {
    if u > 0 {
      HealthyDelivery(aus, ios, name, up, u - 1);
    }
  }

  // Each of the first n access units is written or dropped, once and in order,
  // and dropped exactly when it cannot be delivered; each stream carries a
  // contiguous run; at most one stream is live; and there is one further drop
  // report exactly when the up-front open failed.
  ghost predicate Accounted(log: Log, name: Option<seq<byte>>, aus: seq<AccessUnit>, ios: seq<Io>, n: nat, up: bool)
    requires n <= |aus| == |ios|
  {
    && Orderly(log, name.Some?)
    && FitsWire(log, aus)
    && OnlyWritesAndDrops(log) && SpareDrops(log) == (if up then 0 else 1)
    && (forall id :: Contiguous(Units(log, id)))
    && IsRange(Outcomes(log), n)
    && |Verdicts(log)| == n
    && (forall u :: 0 <= u < n ==>
          Verdicts(log)[u] == if Delivered(aus, ios, name, up, u) then Written else GivenUp)
  }

  lemma {:induction false} StreamOpsKeepCounts(earlier: Log, later: Log)
    requires AddsStreamOps(earlier, later)
    ensures SpareDrops(later) == SpareDrops(earlier)
    ensures OnlyWritesAndDrops(earlier) ==> OnlyWritesAndDrops(later)
  {
    if later != earlier {
      StreamOpsKeepCounts(earlier, later.past);
    }
  }

  class Pump {
    const wire: Transport
    var stream: Option<nat>
    var dequeued: nat

    // The pump opens its stream before it takes any access unit. A failure is
    // reported, and the open retried later.
    constructor (trackName: Option<seq<byte>>, io: Io)
      ensures fresh(wire) && wire.name == trackName && dequeued == 0
      ensures forall aus, ios :: |aus| == |ios| ==> Valid(aus, ios, OpenWorks(io, trackName))
    {
      wire := new Transport(trackName);
      dequeued := 0;
      new;
      ghost var before := wire.log;
      stream := wire.Open(io);
      StreamOpsKeepCounts(before, wire.log);
      if stream.None? {
        wire.Do(DropNone);
      }
    }

    ghost predicate Agrees(aus: seq<AccessUnit>, ios: seq<Io>, up: bool)
      reads this, wire
    {
      && dequeued <= |aus| == |ios|
      && wire.Valid() && Settled(wire.log, wire.name.Some?) && NeverClosed(wire.log)
      && Accounted(wire.log, wire.name, aus, ios, dequeued, up)
      && Live(wire.log) == (if stream.Some? then {stream.value} else {})
      && (stream.Some? ==> Continues(Units(wire.log, stream.value), dequeued))
    }

    ghost predicate Valid(aus: seq<AccessUnit>, ios: seq<Io>, up: bool)
      reads this, wire
    {
      && Agrees(aus, ios, up)
      && (stream.Some? <==> if dequeued == 0 then up else Delivered(aus, ios, wire.name, up, dequeued - 1))
    }

    // A fresh stream, or one whose last frame is the previous access unit.
    ghost predicate Continues(units: seq<nat>, n: nat) {
      units == [] || units[|units| - 1] + 1 == n
    }

    ghost predicate IsTurn(aus: seq<AccessUnit>, ios: seq<Io>, au: AccessUnit, io: Io)
      reads this
    {
      dequeued < |aus| == |ios| && aus[dequeued] == au && ios[dequeued] == io
    }

    method Open(ghost aus: seq<AccessUnit>, ghost ios: seq<Io>, ghost up: bool, io: Io)
      requires Agrees(aus, ios, up) && stream.None?
      modifies this`stream, wire
      ensures Agrees(aus, ios, up) && (stream.Some? <==> OpenWorks(io, wire.name))
    {
      ghost var before := wire.log;
      stream := wire.Open(io);
      StreamOpsKeepCounts(before, wire.log);
    }

    // The access unit is dropped.
    method DropUnit(ghost aus: seq<AccessUnit>, ghost ios: seq<Io>, ghost up: bool)
      requires Agrees(aus, ios, up) && stream.None?
      requires dequeued < |aus| && !Delivered(aus, ios, wire.name, up, dequeued)
      modifies this`dequeued, wire`log
      ensures Valid(aus, ios, up) && dequeued == old(dequeued) + 1
    {
      wire.Do(Drop(dequeued));
      dequeued := dequeued + 1;
    }

    method Abandon(ghost aus: seq<AccessUnit>, ghost ios: seq<Io>, ghost up: bool)
      requires Agrees(aus, ios, up) && stream.Some?
      modifies this`stream, wire`log
      ensures Agrees(aus, ios, up) && stream.None?
    {
      wire.Do(Reset(stream.value));
      stream := None;
    }

    // A frame fails part-way; its stream is reset.
    method Fail(ghost aus: seq<AccessUnit>, ghost ios: seq<Io>, ghost up: bool, sent: nat)
      requires Agrees(aus, ios, up) && stream.Some?
      requires dequeued < |aus| && |aus[dequeued].bytes| <= MAX_FEED_PAYLOAD
      modifies this`stream, wire`log
      ensures Agrees(aus, ios, up) && stream.None?
    {
      ghost var before := wire.log;
      wire.Do(FailFrame(stream.value, dequeued, sent));
      wire.Do(Reset(stream.value));
      stream := None;
      assert AddsStreamOps(before, wire.log.past);
      StreamOpsKeepCounts(before, wire.log);
    }

    method WriteUnit(ghost aus: seq<AccessUnit>, ghost ios: seq<Io>, ghost up: bool, au: AccessUnit, io: Io)
      requires Agrees(aus, ios, up) && IsTurn(aus, ios, au, io) && stream.Some?
      requires Delivered(aus, ios, wire.name, up, dequeued) <==> WriteWorks(au, io)
      modifies this`stream, this`dequeued, wire`log
      ensures Valid(aus, ios, up) && dequeued == old(dequeued) + 1
    {
      if |au.bytes| > MAX_FEED_PAYLOAD {
        Abandon(aus, ios, up);
        DropUnit(aus, ios, up);
      } else if io.write.WriteFails? {
        Fail(aus, ios, up, io.write.sent);
        DropUnit(aus, ios, up);
      } else {
        wire.Do(WriteFrame(stream.value, dequeued));
        dequeued := dequeued + 1;
      }
    }

    // One turn of the loop in runStreamLowLatency.
    method Handle(ghost aus: seq<AccessUnit>, ghost ios: seq<Io>, ghost up: bool, au: AccessUnit, io: Io)
      requires Valid(aus, ios, up) && IsTurn(aus, ios, au, io)
      modifies this`stream, this`dequeued, wire
      ensures Valid(aus, ios, up) && dequeued == old(dequeued) + 1
    {
      if stream.None? {
        Open(aus, ios, up, io);
        if stream.None? {
          DropUnit(aus, ios, up);
          return;
        }
      }
      WriteUnit(aus, ios, up, au, io);
    }

    // runStreamLowLatency on the access units dequeued before it ends.
    method Run(aus: seq<AccessUnit>, ios: seq<Io>, ghost up: bool)
      requires |aus| == |ios| && Valid(aus, ios, up) && dequeued == 0
      modifies this, wire
      ensures Accounted(wire.log, wire.name, aus, ios, |aus|, up)
      ensures forall u :: 0 <= u < |aus| ==>
                (Verdicts(wire.log)[u] == Written <==> exists j :: 0 <= j <= u && CarriedFrom(aus, ios, wire.name, up, j, u))
      ensures Live(wire.log) == {} && ClosedOnlyAtEnd(wire.log)
    {
      forall u | 0 <= u < |aus|
        ensures Delivered(aus, ios, wire.name, up, u)
           <==> exists j :: 0 <= j <= u && CarriedFrom(aus, ios, wire.name, up, j, u)
      {
        DeliveredIff(aus, ios, wire.name, up, u);
      }
      for i := 0 to |aus|
        invariant Valid(aus, ios, up) && dequeued == i
      {
        Handle(aus, ios, up, aus[i], ios[i]);
      }
      if stream.Some? {
        wire.Do(CloseStream(stream.value));
      }
    }
  }
}
