/**
 * From the resumed queue to the wire: what a reconnected video client is sent.
 */
module ResumeDelivery {
  import opened Bytes
  import opened AccessUnits
  import opened Replay
  import opened Receivers
  import opened Resume
  import opened FeedWire
  import opened StreamLog
  import GopPump

  // Unit u of the queue is x, and it is written whole to a stream.
  ghost predicate WrittenAs(x: AccessUnit, queue: seq<AccessUnit>, log: Log, u: nat, id: nat) {
    u < |queue| && queue[u] == x && u in Units(log, id)
  }

  // A video session that resumes within the replay window, on a transport that
  // works: every access unit accepted after last-seen is written whole to some
  // stream, although the queue may start inside a GOP. The pump runs with leading
  // P-frames allowed, as the session sets it for a track with a last-seen Seq.
  lemma ResumedUnitsAreWritten(
      before: seq<AccessUnit>, during: seq<AccessUnit>, ring: seq<AccessUnit>, chanSize: nat, lastSeen: uint32,
      after: Rx, name: Option<seq<byte>>, ios: seq<Io>, log: Log, x: AccessUnit)
    requires StrictlyAscending(before + during) && IsWindow(ring, before + during)
    requires lastSeen < TWO_TO_32 - 1 && (forall y :: y in during ==> y.seqNo > lastSeen)
    requires Resumed(Parked(before, during, chanSize, false), ring, true, lastSeen, after)
    requires WindowReaches(ring, lastSeen)
    requires |ios| == |after.queue|
    requires name.Some? ==> |name.value| <= MAX_STREAM_HEADER
    requires forall k :: 0 <= k < |ios| ==>
               |after.queue[k].bytes| <= MAX_FEED_PAYLOAD && ios[k].open.Opens? && ios[k].write.Writes?
    requires GopPump.Discipline(log, name, after.queue, ios, |ios|, true)
    requires x in before + during && x.seqNo > lastSeen
    ensures exists u: nat, id: nat :: WrittenAs(x, after.queue, log, u, id)
  {
    GapFreeResume(before, during, ring, chanSize, false, lastSeen, after);
    assert x in Since(before + during, lastSeen + 1);
    assert x in after.queue;
    var u: nat :| u < |after.queue| && after.queue[u] == x;
    GopPump.HealthyDelivery(after.queue, ios, name, true, u);
    WrittenIsOnStream(log, u);
    var id: nat :| Outcomes(log)[u] in Units(log, id);
    assert WrittenAs(x, after.queue, log, u, id);
  }
}
