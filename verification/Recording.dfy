/**
 * Reading recordings: sequential replay (record/replayer.go) and the byte-offset
 * index (record/timeline.go), on files that may be cut anywhere by a crash.
 */
module Recording {
  import opened Bytes
  import opened AccessUnits
  import opened Framing
  import opened RecordFormat

  // What reading a log from its first frame gives: the frames, up to the end of
  // the log, a torn frame or a corrupt one.
  datatype LogRead = LogRead(frames: seq<Frame>, corrupt: bool)

  function Prepend(f: Frame, log: LogRead): LogRead {
    LogRead([f] + log.frames, log.corrupt)
  }

  function ReadLog(s: seq<byte>): LogRead
    decreases |s|
  {
    match DecodeFrame(s)
    case Got(f, rest) => Prepend(f, ReadLog(rest))
    case Corrupt => LogRead([], true)
    case _ => LogRead([], false)
  }

  // ---- Crash consistency ----

  // The first k of the frames end at or before byte m, and no more do.
  ghost predicate WholeBefore(frames: seq<Frame>, m: nat, k: nat) {
    && k <= |frames|
    && |Concat(Stored, frames[..k])| <= m
    && (k < |frames| ==> m < |Concat(Stored, frames[..k + 1])|)
  }

  lemma CutMarker(m: nat)
    requires m <= 4
    ensures ReadLog(EOF_MARKER[..m]) == LogRead([], false)
  {
    if m == 4 {
      assert EOF_MARKER[..4] == EOF_MARKER;
    }
  }

  lemma WholeBeforeTail(frames: seq<Frame>, m: nat, k: nat)
    requires frames != [] && WholeBefore(frames, m, k) && m >= |Stored(frames[0])|
    ensures k > 0 && WholeBefore(frames[1..], m - |Stored(frames[0])|, k - 1)
    ensures frames[..k] == [frames[0]] + frames[1..][..k - 1]
  {
    PrefixTail(frames, 1);
    if k > 0 {
      PrefixTail(frames, k);
    }
    if k < |frames| {
      PrefixTail(frames, k + 1);
    }
  }

  lemma PrefixTail(frames: seq<Frame>, k: nat)
    requires 0 < k <= |frames|
    ensures frames[..k] == [frames[0]] + frames[1..][..k - 1]
    ensures Concat(Stored, frames[..k]) == Stored(frames[0]) + Concat(Stored, frames[1..][..k - 1])
  {
    assert frames[..k][1..] == frames[1..][..k - 1];
  }

  // Any truncation of frames and EOF marker reads as exactly the frames that are
  // wholly before the cut, and never as corrupt.
  lemma {:induction false} TruncatedLog(frames: seq<Frame>, m: nat, k: nat)
    requires forall f :: f in frames ==> IsStorable(f)
    requires m <= |Concat(Stored, frames)| + 4 && WholeBefore(frames, m, k)
    ensures ReadLog((Concat(Stored, frames) + EOF_MARKER)[..m]) == LogRead(frames[..k], false)
    decreases |frames|
  {
    if frames == [] {
      assert Concat(Stored, frames) + EOF_MARKER == EOF_MARKER;
      CutMarker(m);
    } else {
      var first, tail := Stored(frames[0]), Concat(Stored, frames[1..]) + EOF_MARKER;
      assert Concat(Stored, frames) + EOF_MARKER == first + tail;
      CutAt(first, tail, m);
      assert frames[0] in frames;
      if m < |first| {
        TornFrame(frames[0], m);
        FirstIsCut(frames, m, k);
      } else {
        WholeBeforeTail(frames, m, k);
        TruncatedLog(frames[1..], m - |first|, k - 1);
        ReadFirst(frames[0], tail[..m - |first|]);
      }
    }
  }

  lemma ReadFirst(f: Frame, rest: seq<byte>)
    requires IsStorable(f)
    ensures ReadLog(Stored(f) + rest) == Prepend(f, ReadLog(rest))
  {
    StoredRoundTrip(f, rest);
  }

  lemma FirstIsCut(frames: seq<Frame>, m: nat, k: nat)
    requires frames != [] && WholeBefore(frames, m, k) && m < |Stored(frames[0])|
    ensures k == 0 && frames[..k] == []
  {
    if k > 0 {
      PrefixTail(frames, k);
    }
  }

  // How many frames end at or before byte m.
  function WholeCount(frames: seq<Frame>, m: nat): (k: nat)
    ensures k <= |frames|
  {
    if frames == [] || m < |Stored(frames[0])| then 0
    else 1 + WholeCount(frames[1..], m - |Stored(frames[0])|)
  }

  lemma {:induction false} WholeCountIs(frames: seq<Frame>, m: nat)
    ensures WholeBefore(frames, m, WholeCount(frames, m))
    decreases |frames|
  {
    var k := WholeCount(frames, m);
    if frames != [] {
      PrefixTail(frames, 1);
      if m >= |Stored(frames[0])| {
        WholeCountIs(frames[1..], m - |Stored(frames[0])|);
        PrefixTail(frames, k);
        if k < |frames| {
          PrefixTail(frames, k + 1);
        }
      }
    }
  }

  lemma CutRecording(frames: seq<Frame>, n: nat, k: nat)
    requires forall f :: f in frames ==> IsStorable(f)
    requires HEADER_LEN <= n <= |File(frames)| && WholeBefore(frames, n - HEADER_LEN, k)
    ensures var data := File(frames)[..n];
      && IsHeader(data[..HEADER_LEN])
      && ReadLog(data[HEADER_LEN..]) == LogRead(frames[..k], false)
  {
    var log := Concat(Stored, frames) + EOF_MARKER;
    SplitHeader(FileHeader(), log, n);
    HeaderIsValid();
    TruncatedLog(frames, n - HEADER_LEN, k);
  }

  lemma SplitHeader(h: seq<byte>, log: seq<byte>, n: nat)
    requires |h| <= n <= |h| + |log|
    ensures (h + log)[..n][..|h|] == h && (h + log)[..n][|h|..] == log[..n - |h|]
  {}

  // Crash-consistent recording: a recording of storable frames, cut anywhere
  // after its header, passes the header check and reads as exactly the frames
  // that end at or before the cut.
  lemma CrashConsistent(frames: seq<Frame>, n: nat)
    requires forall f :: f in frames ==> IsStorable(f)
    requires HEADER_LEN <= n <= |File(frames)|
    ensures var data, k := File(frames)[..n], WholeCount(frames, n - HEADER_LEN);
      && WholeBefore(frames, n - HEADER_LEN, k)
      && IsHeader(data[..HEADER_LEN])
      && ReadLog(data[HEADER_LEN..]) == LogRead(frames[..k], false)
  {
    WholeCountIs(frames, n - HEADER_LEN);
    CutRecording(frames, n, WholeCount(frames, n - HEADER_LEN));
  }

  lemma ReadsOneMore(good: seq<Frame>, tail: seq<byte>, log: LogRead)
    requires good != [] && IsStorable(good[0]) && ReadLog(Concat(Stored, good[1..]) + tail) == log
    ensures ReadLog(Concat(Stored, good) + tail) == Prepend(good[0], log)
  {
    var more := Concat(Stored, good[1..]) + tail;
    assert Concat(Stored, good) + tail == Stored(good[0]) + more;
    ReadFirst(good[0], more);
  }

  // One oversized frame makes the rest of the log unreadable: what came before
  // it is read, and then the log counts as corrupt, so no index is built.
  lemma OversizeSpoilsLog(good: seq<Frame>, f: Frame, rest: seq<byte>)
    requires forall g :: g in good ==> IsStorable(g)
    requires IsEncodable(f) && MAX_FRAME_LEN < |Body(f)| < TWO_TO_32 - 1
    ensures ReadLog(Concat(Stored, good) + (Stored(f) + rest)) == LogRead(good, true)
  {
    OversizeIsCorrupt(f, rest);
    ReadsUpTo(good, Stored(f) + rest);
  }

  lemma {:induction false} ReadsUpTo(good: seq<Frame>, tail: seq<byte>)
    requires (forall g :: g in good ==> IsStorable(g)) && DecodeFrame(tail) == Corrupt
    ensures ReadLog(Concat(Stored, good) + tail) == LogRead(good, true)
    decreases |good|
  {
    if good == [] {
      NothingBefore(tail);
    } else {
      assert good[0] in good;
      ReadsUpTo(good[1..], tail);
      ReadsOneMore(good, tail, LogRead(good[1..], true));
      assert [good[0]] + good[1..] == good;
    }
  }

  lemma NothingBefore(tail: seq<byte>)
    requires DecodeFrame(tail) == Corrupt
    ensures ReadLog(Concat(Stored, []) + tail) == LogRead([], true)
  {
    assert Concat(Stored, []) + tail == tail;
  }

  lemma HeaderIsValid()
    ensures IsHeader(FileHeader())
  {
    var h := FileHeader();
    assert h[..8] == FILE_MAGIC && h[8..] == BE(4, FORMAT_VERSION);
    Read32Exact(FORMAT_VERSION);
  }

  // ---- Replay and index ----

  function UnitOf(f: Frame): AccessUnit {
    AccessUnit(f.payload, f.keyframe, f.ptsMicros, f.seqNo, f.discontinuity, 0)
  }

  datatype Track = Track(name: seq<byte>, kind: seq<byte>)

  datatype Entry = Entry(
    track: Track,
    capturedAtMicros: int64,
    ptsMicros: uint64,
    seqNo: uint32,
    keyframe: bool,
    discontinuity: bool,
    payloadLen: nat,
    offset: nat)

  function EntryOf(f: Frame, offset: nat): Entry {
    Entry(
      Track(f.trackName, f.kind), f.capturedAtMicros, f.ptsMicros, f.seqNo, f.keyframe, f.discontinuity,
      |f.payload|, offset)
  }

  lemma RestIsSuffix(s: seq<byte>)
    ensures var d := DecodeFrame(s); d.Got? ==> |d.rest| < |s| && d.rest == s[|s| - |d.rest|..]
  {}

  ghost predicate FrameAt(data: seq<byte>, off: nat, f: Frame) {
    off <= |data| && DecodeFrame(data[off..]).Got? && DecodeFrame(data[off..]).frame == f
  }

  // A reader that counts the bytes consumed; n is the position in the file.
  class CountingReader {
    const data: seq<byte>
    var n: nat

    constructor (bytes: seq<byte>)
      ensures data == bytes && n == 0
    {
      data, n := bytes, 0;
    }

    method ReadHeader() returns (ok: bool)
      requires n == 0
      modifies this
      ensures ok <==> |data| >= HEADER_LEN && IsHeader(data[..HEADER_LEN])
      ensures ok ==> n == HEADER_LEN
    {
      if |data| < HEADER_LEN {
        return false;
      }
      n := HEADER_LEN;
      return IsHeader(data[..HEADER_LEN]);
    }

    // decodeFrame from the current position, which moves past the frame.
    method Next() returns (d: Decoded)
      requires n <= |data|
      modifies this
      ensures n <= |data|
      ensures !d.Got? ==> ReadLog(data[old(n)..]) == LogRead([], d.Corrupt?)
      ensures d.Got? ==> n > old(n) && FrameAt(data, old(n), d.frame)
      ensures d.Got? ==> ReadLog(data[old(n)..]) == Prepend(d.frame, ReadLog(data[n..]))
    {
      d := DecodeFrame(data[n..]);
      RestIsSuffix(data[n..]);
      if d.Got? {
        n := |data| - |d.rest|;
        assert data[n..] == d.rest;
      }
    }
  }

  // An entry describes frame f, and decoding at its offset gives f.
  ghost predicate IndexedAt(e: Entry, f: Frame, data: seq<byte>) {
    e == EntryOf(f, e.offset) && FrameAt(data, e.offset, f)
  }

  ghost predicate IsIndex(entries: seq<Entry>, frames: seq<Frame>, data: seq<byte>) {
    |entries| == |frames| && forall k :: 0 <= k < |entries| ==> IndexedAt(entries[k], frames[k], data)
  }

  lemma IndexAppend(entries: seq<Entry>, frames: seq<Frame>, data: seq<byte>, f: Frame, off: nat)
    requires IsIndex(entries, frames, data) && FrameAt(data, off, f)
    ensures IsIndex(entries + [EntryOf(f, off)], frames + [f], data)
  {
    assert IndexedAt(EntryOf(f, off), f, data);
  }

  // `all` is the frames already read followed by what reading on gives.
  ghost predicate ReadSoFar(all: LogRead, frames: seq<Frame>, rest: LogRead) {
    all == LogRead(frames + rest.frames, rest.corrupt)
  }

  lemma ReadOn(all: LogRead, frames: seq<Frame>, f: Frame, rest: LogRead)
    requires ReadSoFar(all, frames, Prepend(f, rest))
    ensures ReadSoFar(all, frames + [f], rest)
  {
    assert frames + ([f] + rest.frames) == frames + [f] + rest.frames;
  }

  // BuildTimeline: None for a bad header or a corrupt frame.
  method BuildTimeline(data: seq<byte>) returns (res: Option<seq<Entry>>)
    ensures res.Some? <==> |data| >= HEADER_LEN && IsHeader(data[..HEADER_LEN]) && !ReadLog(data[HEADER_LEN..]).corrupt
    ensures res.Some? ==> IsIndex(res.value, ReadLog(data[HEADER_LEN..]).frames, data)
  {
    var cr := new CountingReader(data);
    var ok := cr.ReadHeader();
    if !ok {
      return None;
    }
    res := IndexFrames(cr, ReadLog(data[HEADER_LEN..]));
  }

  method IndexFrames(cr: CountingReader, ghost all: LogRead) returns (res: Option<seq<Entry>>)
    requires cr.n <= |cr.data| && all == ReadLog(cr.data[cr.n..])
    modifies cr
    ensures res.None? <==> all.corrupt
    ensures res.Some? ==> IsIndex(res.value, all.frames, cr.data)
  {
    ghost var frames: seq<Frame> := [];
    var entries: seq<Entry> := [];
    while true
      invariant cr.n <= |cr.data|
      invariant IsIndex(entries, frames, cr.data)
      invariant ReadSoFar(all, frames, ReadLog(cr.data[cr.n..]))
      decreases |cr.data| - cr.n
    {
      var off := cr.n;
      var d := cr.Next();
      if !d.Got? {
        assert all.frames == frames;
        if d.Corrupt? {
          return None;
        }
        return Some(entries);
      }
      ReadOn(all, frames, d.frame, ReadLog(cr.data[cr.n..]));
      IndexAppend(entries, frames, cr.data, d.frame, off);
      entries, frames := entries + [EntryOf(d.frame, off)], frames + [d.frame];
    }
  }

  // ReadPayload: seek to the entry's offset and decode one frame.
  method ReadPayload(data: seq<byte>, e: Entry, ghost f: Frame) returns (au: Option<AccessUnit>)
    ensures IndexedAt(e, f, data) ==>
              au == Some(AccessUnit(f.payload, f.keyframe, f.ptsMicros, f.seqNo, f.discontinuity, 0))
    ensures au.Some? <==> e.offset <= |data| && DecodeFrame(data[e.offset..]).Got?
  {
    if e.offset > |data| {
      return None;
    }
    var d := DecodeFrame(data[e.offset..]);
    if d.Got? {
      au := Some(UnitOf(d.frame));
    } else {
      au := None;
    }
  }

  ghost predicate AreUnits(units: seq<AccessUnit>, frames: seq<Frame>) {
    |units| == |frames| && forall k :: 0 <= k < |units| ==>
      var f := frames[k];
      units[k] == AccessUnit(f.payload, f.keyframe, f.ptsMicros, f.seqNo, f.discontinuity, 0)
  }

  lemma UnitsAppend(units: seq<AccessUnit>, frames: seq<Frame>, f: Frame)
    requires AreUnits(units, frames)
    ensures AreUnits(units + [UnitOf(f)], frames + [f])
  {}

  // Sequential replay: the header check of Open, then every frame as an access
  // unit, in order. None for a bad header; ok is false if it stopped at a corrupt
  // frame.
  method Replay(data: seq<byte>) returns (units: Option<seq<AccessUnit>>, ok: bool)
    ensures units.Some? <==> |data| >= HEADER_LEN && IsHeader(data[..HEADER_LEN])
    ensures units.None? ==> !ok
    ensures units.Some? ==>
      ok == !ReadLog(data[HEADER_LEN..]).corrupt && AreUnits(units.value, ReadLog(data[HEADER_LEN..]).frames)
  {
    var cr := new CountingReader(data);
    var valid := cr.ReadHeader();
    if !valid {
      return None, false;
    }
    var us, good := ReplayFrom(cr, ReadLog(data[HEADER_LEN..]));
    return Some(us), good;
  }

  method ReplayFrom(cr: CountingReader, ghost all: LogRead) returns (units: seq<AccessUnit>, ok: bool)
    requires cr.n <= |cr.data| && all == ReadLog(cr.data[cr.n..])
    modifies cr
    ensures ok == !all.corrupt && AreUnits(units, all.frames)
  {
    units := [];
    ghost var frames: seq<Frame> := [];
    while true
      invariant cr.n <= |cr.data| && AreUnits(units, frames)
      invariant ReadSoFar(all, frames, ReadLog(cr.data[cr.n..]))
      decreases |cr.data| - cr.n
    {
      var d := cr.Next();
      if !d.Got? {
        assert all.frames == frames;
        return units, !d.Corrupt?;
      }
      ReadOn(all, frames, d.frame, ReadLog(cr.data[cr.n..]));
      UnitsAppend(units, frames, d.frame);
      units, frames := units + [UnitOf(d.frame)], frames + [d.frame];
    }
  }

  // ---- SeekSnapshot ----

  // e is a later state of its track than prev.
  predicate Later(e: Entry, prev: Entry) {
    e.capturedAtMicros > prev.capturedAtMicros
    || (e.capturedAtMicros == prev.capturedAtMicros && e.seqNo > prev.seqNo)
  }

  // For each track the latest entry at or before `micros`, the highest Seq among
  // those of one moment, and nothing for a track that has none.
  ghost predicate IsSnapshot(out: map<Track, Entry>, entries: seq<Entry>, micros: int) {
    && (forall t :: t in out ==> out[t] in entries && out[t].track == t && out[t].capturedAtMicros <= micros)
    && (forall e :: e in entries && e.capturedAtMicros <= micros ==>
          && e.track in out
          && e.capturedAtMicros <= out[e.track].capturedAtMicros
          && (e.capturedAtMicros == out[e.track].capturedAtMicros ==> e.seqNo <= out[e.track].seqNo))
  }

  method SeekSnapshot(entries: seq<Entry>, micros: int64) returns (out: map<Track, Entry>)
    ensures IsSnapshot(out, entries, micros)
  {
    out := map[];
    for i := 0 to |entries|
      invariant IsSnapshot(out, entries[..i], micros)
    {
      var e := entries[i];
      ghost var before := out;
      if e.capturedAtMicros <= micros {
        if e.track !in out || Later(e, out[e.track]) {
          out := out[e.track := e];
        }
      }
      SnapshotStep(before, entries[..i], e, micros, out);
      assert entries[..i + 1] == entries[..i] + [e];
    }
    assert entries[..|entries|] == entries;
  }

  lemma SnapshotStep(before: map<Track, Entry>, entries: seq<Entry>, e: Entry, micros: int, out: map<Track, Entry>)
    requires IsSnapshot(before, entries, micros)
    requires out == if e.capturedAtMicros <= micros && (e.track !in before || Later(e, before[e.track]))
                    then before[e.track := e] else before
    ensures IsSnapshot(out, entries + [e], micros)
  {}
}
