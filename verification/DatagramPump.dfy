/**
 * The datagram pump (runDatagramOrStream in feed/datagram.go) and the datagram
 * envelope (wire/datagram.go): each access unit goes out as one datagram, or on
 * a lazily opened fallback stream, or is dropped.
 */
module DatagramPump {
  import opened Bytes
  import opened AccessUnits
  import opened FeedWire
  import opened StreamLog

  const TYPE_DATAGRAM_AU: byte := 0x24
  const DATAGRAM_HEADER_LEN: nat := 4
  const MAX_DATAGRAM_PAYLOAD: nat := 1100

  datatype Envelope = Envelope(trackId: byte, seqNo: nat, payload: seq<byte>)

  // None stands for ErrDatagramTooLarge.
  function EncodeDatagram(trackId: byte, seqNo: nat, payload: seq<byte>): Option<seq<byte>> {
    if |payload| > MAX_DATAGRAM_PAYLOAD then None
    else Some([TYPE_DATAGRAM_AU, trackId] + BE(2, seqNo) + payload)
  }

  // None stands for the two decoding errors.
  function DecodeDatagram(b: seq<byte>): Option<Envelope> {
    if |b| < DATAGRAM_HEADER_LEN then None
    else if b[0] != TYPE_DATAGRAM_AU then None
    else Some(Envelope(b[1], FromBE(b[2..4]), b[4..]))
  }

  lemma DatagramRoundTrip(trackId: byte, seqNo: nat, payload: seq<byte>)
    requires seqNo < TWO_TO_16 && |payload| <= MAX_DATAGRAM_PAYLOAD
    ensures DecodeDatagram(EncodeDatagram(trackId, seqNo, payload).value) == Some(Envelope(trackId, seqNo, payload))
  {
    var b := EncodeDatagram(trackId, seqNo, payload).value;
    assert b[2..4] == BE(2, seqNo);
    assert b[4..] == payload;
    Read16(seqNo);
  }

  // What a decoded datagram was encoded from.
  lemma DatagramDecodesBack(b: seq<byte>)
    requires DecodeDatagram(b).Some? && |b| <= DATAGRAM_HEADER_LEN + MAX_DATAGRAM_PAYLOAD
    ensures var d := DecodeDatagram(b).value;
      d.seqNo < TWO_TO_16 && EncodeDatagram(d.trackId, d.seqNo, d.payload) == Some(b)
  {
    Rebuild16(b[2..4]);
    assert b == [b[0], b[1]] + b[2..4] + b[4..];
  }

  // Every datagram carried an access unit that fits, numbered by its position.
  predicate Numbered(log: Log, aus: seq<AccessUnit>) {
    log.Empty? || (
      && Numbered(log.past, aus)
      && (log.op.Datagram? ==>
            && log.op.unit < |aus|
            && |aus[log.op.unit].bytes| <= MAX_DATAGRAM_PAYLOAD
            && log.op.envelope == log.op.unit % TWO_TO_16)
      && !log.op.RequestKeyframe? && !log.op.DropNone?)
  }

  lemma {:induction false} StreamOpsKeepNumbers(earlier: Log, later: Log, aus: seq<AccessUnit>)
    requires AddsStreamOps(earlier, later) && Numbered(earlier, aus)
    ensures Numbered(later, aus)
  {
    if later != earlier {
      StreamOpsKeepNumbers(earlier, later.past, aus);
    }
  }

  // The track's name and whether a fallback opener is configured.
  datatype Config = Config(name: Option<seq<byte>>, hasFallback: bool)

  // What must become of unit u: it is sent if it fits a datagram and the
  // transport takes it; else it is written if a fallback is configured, its
  // stream is live or can be opened, and the write works; else it is dropped.
  function Expected(aus: seq<AccessUnit>, ios: seq<Io>, cfg: Config, u: nat): Verdict
    requires u < |aus| == |ios|
    decreases u, 1
  {
    if |aus[u].bytes| <= MAX_DATAGRAM_PAYLOAD && ios[u].datagramSent then Sent
    else if cfg.hasFallback && (FallbackLive(aus, ios, cfg, u) || OpenWorks(ios[u], cfg.name)) && WriteWorks(aus[u], ios[u])
    then Written
    else GivenUp
  }

  // Whether the fallback stream is live before unit u: the last unit that was
  // not sent as a datagram was written to it.
  predicate FallbackLive(aus: seq<AccessUnit>, ios: seq<Io>, cfg: Config, u: nat)
    requires u <= |aus| == |ios|
    decreases u, 0
  {
    u > 0 && match Expected(aus, ios, cfg, u - 1)
             case Sent => FallbackLive(aus, ios, cfg, u - 1)
             case Written => true
             case GivenUp => false
  }

  // The unit fits a datagram and the transport takes it.
  ghost predicate AsDatagram(au: AccessUnit, io: Io) {
    |au.bytes| <= 1100 && io.datagramSent
  }

  // A fallback stream opened for unit j carries every unit from j to u that does
  // not go as a datagram.
  ghost predicate CarriedFrom(aus: seq<AccessUnit>, ios: seq<Io>, cfg: Config, j: nat, u: nat)
    requires j <= u < |aus| == |ios|
  {
    && cfg.hasFallback && !AsDatagram(aus[j], ios[j]) && OpenWorks(ios[j], cfg.name)
    && (forall k :: j <= k <= u ==> AsDatagram(aus[k], ios[k]) || WriteWorks(aus[k], ios[k]))
  }

  // What becomes of an access unit, from the sizes and the transport alone.
  lemma {:induction false} ExpectedIff(aus: seq<AccessUnit>, ios: seq<Io>, cfg: Config, u: nat)
    requires u < |aus| == |ios|
    ensures Expected(aus, ios, cfg, u) == Sent <==> AsDatagram(aus[u], ios[u])
    ensures Expected(aus, ios, cfg, u) == Written
       <==> !AsDatagram(aus[u], ios[u]) && exists j :: 0 <= j <= u && CarriedFrom(aus, ios, cfg, j, u)
    ensures FallbackLive(aus, ios, cfg, u + 1) <==> exists j :: 0 <= j <= u && CarriedFrom(aus, ios, cfg, j, u)
  {
    if u > 0 {
      var before := u - 1;
      ExpectedIff(aus, ios, cfg, before);
      if exists j :: 0 <= j <= before && CarriedFrom(aus, ios, cfg, j, before) {
        var j :| 0 <= j <= before && CarriedFrom(aus, ios, cfg, j, before);
        assert AsDatagram(aus[u], ios[u]) || WriteWorks(aus[u], ios[u]) ==> CarriedFrom(aus, ios, cfg, j, u);
      }
      if exists j :: 0 <= j <= u && CarriedFrom(aus, ios, cfg, j, u) {
        var j :| 0 <= j <= u && CarriedFrom(aus, ios, cfg, j, u);
        assert j < u ==> CarriedFrom(aus, ios, cfg, j, before);
      }
    }
    if Expected(aus, ios, cfg, u) == Written && !FallbackLive(aus, ios, cfg, u) {
      assert CarriedFrom(aus, ios, cfg, u, u);
    }
  }

  // While the fallback works, nothing is lost; without one, exactly the access
  // units that do not go as datagrams are.
  lemma {:induction false} NothingLostWithFallback(aus: seq<AccessUnit>, ios: seq<Io>, cfg: Config, u: nat)
    requires u < |aus| == |ios|
    requires cfg.name.Some? ==> |cfg.name.value| <= MAX_STREAM_HEADER
    requires forall k :: 0 <= k < |aus| ==>
               |aus[k].bytes| <= MAX_FEED_PAYLOAD && ios[k].open.Opens? && ios[k].write.Writes?
    ensures Expected(aus, ios, cfg, u) ==
      if |aus[u].bytes| <= 1100 && ios[u].datagramSent then Sent else if cfg.hasFallback then Written else GivenUp
  {
    ExpectedIff(aus, ios, cfg, u);
    if cfg.hasFallback && !AsDatagram(aus[u], ios[u]) {
      assert CarriedFrom(aus, ios, cfg, u, u);
    }
  }

  ghost predicate Increasing(units: seq<nat>, n: nat) {
    && (forall k :: 0 <= k < |units| ==> units[k] < n)
    && (forall j, k :: 0 <= j < k < |units| ==> units[j] < units[k])
  }

  // Each of the first n access units is sent, written to a fallback stream or
  // dropped, once and in order, as expected of it; the i-th datagram envelope is
  // i mod 65536; at most one fallback stream is live, and each carries its units
  // in order.
  ghost predicate Accounted(log: Log, cfg: Config, aus: seq<AccessUnit>, ios: seq<Io>, n: nat)
    requires n <= |aus| == |ios|
  {
    && Orderly(log, cfg.name.Some?)
    && FitsWire(log, aus)
    && Numbered(log, aus)
    && (forall id :: Increasing(Units(log, id), n))
    && IsRange(Outcomes(log), n)
    && |Verdicts(log)| == n
    && (forall u :: 0 <= u < n ==> Verdicts(log)[u] == Expected(aus, ios, cfg, u))
  }

  class Pump {
    const cfg: Config
    const wire: Transport
    var fallback: Option<nat>
    var seqNo: nat
    var dequeued: nat

    constructor (config: Config)
      ensures fresh(wire) && cfg == config && dequeued == 0
      ensures forall aus, ios :: |aus| == |ios| ==> Valid(aus, ios)
    {
      cfg := config;
      wire := new Transport(config.name);
      fallback, seqNo, dequeued := None, 0, 0;
    }

    ghost predicate Agrees(aus: seq<AccessUnit>, ios: seq<Io>)
      reads this, wire
    {
      && dequeued <= |aus| == |ios|
      && wire.name == cfg.name
      && wire.Valid() && Settled(wire.log, cfg.name.Some?) && NeverClosed(wire.log)
      && Accounted(wire.log, cfg, aus, ios, dequeued)
      && seqNo == dequeued % TWO_TO_16
      && Live(wire.log) == (if fallback.Some? then {fallback.value} else {})
    }

    ghost predicate Valid(aus: seq<AccessUnit>, ios: seq<Io>)
      reads this, wire
    {
      Agrees(aus, ios) && (fallback.Some? <==> FallbackLive(aus, ios, cfg, dequeued))
    }

    ghost predicate IsTurn(aus: seq<AccessUnit>, ios: seq<Io>, au: AccessUnit, io: Io)
      reads this
    {
      dequeued < |aus| == |ios| && aus[dequeued] == au && ios[dequeued] == io
    }

    // The operation that decides this access unit, and seq++ on uint16.
    method Settle(ghost aus: seq<AccessUnit>, ghost ios: seq<Io>, op: Op)
      requires Agrees(aus, ios) && dequeued < |aus|
      requires op == Drop(dequeued) || op == Datagram(dequeued, seqNo)
            || (fallback.Some? && op == WriteFrame(fallback.value, dequeued))
      requires VerdictOf(op) == Expected(aus, ios, cfg, dequeued)
      requires if op.Datagram? then fallback.Some? <==> FallbackLive(aus, ios, cfg, dequeued)
               else fallback.Some? <==> op.WriteFrame?
      modifies this`seqNo, this`dequeued, wire`log
      ensures Valid(aus, ios) && dequeued == old(dequeued) + 1
    {
      Decide(aus, ios, op);
      seqNo, dequeued := (seqNo + 1) % TWO_TO_16, dequeued + 1;
    }

    method Decide(ghost aus: seq<AccessUnit>, ghost ios: seq<Io>, op: Op)
      requires Agrees(aus, ios) && dequeued < |aus|
      requires op == Drop(dequeued) || op == Datagram(dequeued, seqNo)
            || (fallback.Some? && op == WriteFrame(fallback.value, dequeued))
      requires VerdictOf(op) == Expected(aus, ios, cfg, dequeued)
      modifies wire`log
      ensures wire.Valid() && Settled(wire.log, cfg.name.Some?) && NeverClosed(wire.log)
      ensures Live(wire.log) == old(Live(wire.log))
      ensures Accounted(wire.log, cfg, aus, ios, dequeued + 1)
    {
      wire.Do(op);
    }

    method Abandon(ghost aus: seq<AccessUnit>, ghost ios: seq<Io>)
      requires Agrees(aus, ios) && fallback.Some?
      modifies this`fallback, wire`log
      ensures Agrees(aus, ios) && fallback.None?
    {
      wire.Do(Reset(fallback.value));
      fallback := None;
    }

    // A frame fails part-way on the fallback stream, which is reset.
    method Fail(ghost aus: seq<AccessUnit>, ghost ios: seq<Io>, sent: nat)
      requires Agrees(aus, ios) && fallback.Some?
      requires dequeued < |aus| && |aus[dequeued].bytes| <= MAX_FEED_PAYLOAD
      modifies this`fallback, wire`log
      ensures Agrees(aus, ios) && fallback.None?
    {
      ghost var before := wire.log;
      wire.Do(FailFrame(fallback.value, dequeued, sent));
      wire.Do(Reset(fallback.value));
      fallback := None;
      assert AddsStreamOps(before, wire.log.past);
      StreamOpsKeepNumbers(before, wire.log, aus);
    }

    method OpenFallback(ghost aus: seq<AccessUnit>, ghost ios: seq<Io>, io: Io)
      requires Agrees(aus, ios) && fallback.None?
      modifies this`fallback, wire
      ensures Agrees(aus, ios) && (fallback.Some? <==> OpenWorks(io, cfg.name))
    {
      ghost var before := wire.log;
      fallback := wire.Open(io);
      StreamOpsKeepNumbers(before, wire.log, aus);
    }

    // fallbackOrDrop
    method FallbackOrDrop(ghost aus: seq<AccessUnit>, ghost ios: seq<Io>, au: AccessUnit, io: Io)
      requires Valid(aus, ios) && IsTurn(aus, ios, au, io)
      requires Expected(aus, ios, cfg, dequeued) != Sent
      modifies this, wire
      ensures Valid(aus, ios) && dequeued == old(dequeued) + 1
    {
      if !cfg.hasFallback {
        NoFallbackLive(aus, ios, cfg, dequeued);
        Settle(aus, ios, Drop(dequeued));
        return;
      }
      if fallback.None? {
        OpenFallback(aus, ios, io);
        if fallback.None? {
          Settle(aus, ios, Drop(dequeued));
          return;
        }
      }
      if |au.bytes| > MAX_FEED_PAYLOAD {
        Abandon(aus, ios);
        Settle(aus, ios, Drop(dequeued));
      } else if io.write.WriteFails? {
        Fail(aus, ios, io.write.sent);
        Settle(aus, ios, Drop(dequeued));
      } else {
        Settle(aus, ios, WriteFrame(fallback.value, dequeued));
      }
    }

    // One turn of the loop in runDatagramOrStream.
    method Handle(ghost aus: seq<AccessUnit>, ghost ios: seq<Io>, trackId: byte, au: AccessUnit, io: Io)
      requires Valid(aus, ios) && IsTurn(aus, ios, au, io)
      modifies this, wire
      ensures Valid(aus, ios) && dequeued == old(dequeued) + 1
    {
      var encoded := EncodeDatagram(trackId, seqNo, au.bytes);
      if encoded.None? {
        FallbackOrDrop(aus, ios, au, io);
      } else if !io.datagramSent {
        FallbackOrDrop(aus, ios, au, io);
      } else {
        Settle(aus, ios, Datagram(dequeued, seqNo));
      }
    }

    // runDatagramOrStream on the access units dequeued before it ends.
    method Run(aus: seq<AccessUnit>, ios: seq<Io>, trackId: byte)
      requires |aus| == |ios| && Valid(aus, ios) && dequeued == 0
      modifies this, wire
      ensures Accounted(wire.log, cfg, aus, ios, |aus|)
      ensures forall u :: 0 <= u < |aus| ==> (Verdicts(wire.log)[u] == Sent <==> AsDatagram(aus[u], ios[u]))
      ensures Live(wire.log) == {} && ClosedOnlyAtEnd(wire.log)
    {
      for i := 0 to |aus|
        invariant Valid(aus, ios) && dequeued == i
      {
        Handle(aus, ios, trackId, aus[i], ios[i]);
      }
      if fallback.Some? {
        wire.Do(CloseStream(fallback.value));
      }
    }
  }

  lemma {:induction false} NoFallbackLive(aus: seq<AccessUnit>, ios: seq<Io>, cfg: Config, u: nat)
    requires u <= |aus| == |ios| && !cfg.hasFallback
    ensures !FallbackLive(aus, ios, cfg, u)
  {
    if u > 0 {
      NoFallbackLive(aus, ios, cfg, u - 1);
    }
  }
}
