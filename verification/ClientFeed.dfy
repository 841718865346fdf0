/**
 * The receiving end of a feed stream: PeekStreamHeader (wire/frame.go) and
 * drainFeed (client/client.go), and what they recover of what a pump wrote.
 */
module ClientFeed {
  import opened Bytes
  import opened AccessUnits
  import opened Framing
  import opened FeedWire

  // "primary", the track of a stream without a header.
  const PRIMARY: seq<byte> := [0x70, 0x72, 0x69, 0x6d, 0x61, 0x72, 0x79]

  predicate ValidName(name: seq<byte>) {
    1 <= |name| <= MAX_STREAM_HEADER
  }

  datatype Peeked = Named(name: seq<byte>) | Legacy(firstByte: byte)

  lemma StreamHeaderLength(name: seq<byte>, s: seq<byte>)
    requires |name| < TWO_TO_24 && IsPrefix(StreamHeader(name), s)
    ensures FromBE(s[1..4]) == |name| && s[4..4 + |name|] == name && s[0] == TYPE_STREAM_HEADER
  {
    var h := StreamHeader(name);
    assert s[1..4] == h[1..4] == BE(3, |name|);
    assert s[4..4 + |name|] == h[4..] == name;
    assert s[0] == h[0];
    Read24(|name|);
  }

  lemma StreamHeaderRebuilt(s: seq<byte>, n: nat)
    requires |s| >= 4 + n && s[0] == TYPE_STREAM_HEADER && FromBE(s[1..4]) == n
    ensures s == StreamHeader(s[4..4 + n]) + s[4 + n..]
  {
    Rebuild24(s[1..4]);
    assert s == [s[0]] + s[1..4] + s[4..4 + n] + s[4 + n..];
  }

  // A stream starts with a whole, acceptable header.
  predicate HoldsHeader(s: seq<byte>) {
    && |s| >= 4 && s[0] == TYPE_STREAM_HEADER
    && 1 <= FromBE(s[1..4]) <= MAX_STREAM_HEADER
    && |s| >= 4 + FromBE(s[1..4])
  }

  method PeekStreamHeader(r: StreamReader) returns (res: Read<Peeked>)
    requires |r.first| <= 1
    modifies r
    ensures |r.first| <= 1
    ensures var s := old(r.Stream());
      && (res.Ok? <==> s != [] && (s[0] == TYPE_STREAM_HEADER ==> HoldsHeader(s)))
      && (res.Ok? && s[0] != TYPE_STREAM_HEADER ==> res.value == Legacy(s[0]) && r.Stream() == s[1..])
      && (res.Ok? && s[0] == TYPE_STREAM_HEADER ==>
            res.value.Named? && ValidName(res.value.name) && s == StreamHeader(res.value.name) + r.Stream())
  {
    ghost var s := r.Stream();
    var got := r.ReadFull(1);
    if !got.Ok? {
      return EndOfStream;
    }
    if got.value[0] != TYPE_STREAM_HEADER {
      return Ok(Legacy(got.value[0]));
    }
    var named := PeekName(r, s);
    match named
    case Ok(name) => return Ok(Named(name));
    case EndOfStream => return EndOfStream;
    case Truncated => return Truncated;
    case Oversize => return Oversize;
    case EmptyHeader => return EmptyHeader;
  }

  // The rest of a header, after its type byte.
  method PeekName(r: StreamReader, ghost s: seq<byte>) returns (res: Read<seq<byte>>)
    requires |r.first| <= 1 && s != [] && s[0] == TYPE_STREAM_HEADER && r.Stream() == s[1..]
    modifies r
    ensures |r.first| <= 1
    ensures res.Ok? <==> HoldsHeader(s)
    ensures res.Ok? ==> ValidName(res.value) && s == StreamHeader(res.value) + r.Stream()
  {
    var got := r.ReadFull(3);
    if !got.Ok? {
      return if got.EndOfStream? then EndOfStream else Truncated;
    }
    assert got.value == s[1..4];
    var length := FromBE(got.value);
    if length > MAX_STREAM_HEADER {
      return Oversize;
    }
    if length == 0 {
      return EmptyHeader;
    }
    got := r.ReadFull(length);
    if !got.Ok? {
      return if got.EndOfStream? then EndOfStream else Truncated;
    }
    StreamHeaderRebuilt(s, length);
    assert got.value == s[4..4 + length];
    return got;
  }

  // What draining the bytes s means: the track name, the whole frames, and a
  // leftover that holds no whole frame.
  ghost predicate Drains(s: seq<byte>, name: seq<byte>, frames: seq<FeedFrame>, leftover: seq<byte>) {
    && s != []
    && (forall f :: f in frames ==> f.Encodable())
    && !HoldsFrame(leftover)
    && (if s[0] == TYPE_STREAM_HEADER then ValidName(name) && s == StreamHeader(name) + (Concat(Encode, frames) + leftover)
        else name == PRIMARY && s == Concat(Encode, frames) + leftover)
  }

  // Frames until one cannot be read; `leftover` is what was left then.
  method ReadFrames(r: StreamReader) returns (frames: seq<FeedFrame>, ghost leftover: seq<byte>)
    requires |r.first| <= 1
    modifies r
    ensures |r.first| <= 1 && (forall f :: f in frames ==> f.Encodable())
    ensures !HoldsFrame(leftover) && old(r.Stream()) == Concat(Encode, frames) + leftover
  {
    frames, leftover := [], r.Stream();
    while true
      invariant |r.first| <= 1 && (forall f :: f in frames ==> f.Encodable())
      invariant leftover == r.Stream()
      invariant old(r.Stream()) == Concat(Encode, frames) + leftover
      decreases |leftover|
    {
      var res := ReadFeedFrame(r);
      if !res.Ok? {
        return;
      }
      NextFrame(frames, res.value, leftover, r.Stream());
      frames, leftover := frames + [res.value], r.Stream();
    }
  }

  lemma NextFrame(frames: seq<FeedFrame>, f: FeedFrame, leftover: seq<byte>, rest: seq<byte>)
    requires leftover == Encode(f) + rest
    ensures Concat(Encode, frames) + leftover == Concat(Encode, frames + [f]) + rest
    ensures |rest| < |leftover|
  {
    ConcatAppend(Encode, frames, f);
  }

  // drainFeed: the track a stream belongs to and its frames; None when the
  // stream is given up because it has no readable first byte or header.
  method DrainFeed(r: StreamReader) returns (out: Option<(seq<byte>, seq<FeedFrame>)>)
    requires |r.first| <= 1
    modifies r
    ensures var s := old(r.Stream());
      out.None? <==> s == [] || (s[0] == TYPE_STREAM_HEADER && !HoldsHeader(s))
    ensures out.Some? ==> exists leftover :: Drains(old(r.Stream()), out.value.0, out.value.1, leftover)
  {
    ghost var s := r.Stream();
    var peeked := PeekStreamHeader(r);
    if !peeked.Ok? {
      return None;
    }
    var name := PRIMARY;
    if peeked.value.Named? {
      name := peeked.value.name;
    } else {
      r.rest := r.first + r.rest;
      r.first := [peeked.value.firstByte];
    }
    ghost var body := r.Stream();
    assert if s[0] == TYPE_STREAM_HEADER then s == StreamHeader(name) + body else s == body;
    var frames, leftover := ReadFrames(r);
    assert Drains(s, name, frames, leftover);
    return Some((name, frames));
  }

  // ---- Whole streams ----

  function Prefix(name: Option<seq<byte>>): seq<byte> {
    if name.Some? then StreamHeader(name.value) else []
  }

  // What a sender puts on one stream.
  function Wire(name: Option<seq<byte>>, frames: seq<FeedFrame>): seq<byte> {
    Prefix(name) + Concat(Encode, frames)
  }

  // A proper prefix of one frame holds no whole frame.
  lemma CutFrame(f: FeedFrame, n: nat)
    requires f.Encodable() && n < |Encode(f)|
    ensures !HoldsFrame(Encode(f)[..n])
  {
    if n >= FEED_HEADER_LEN {
      assert Encode(f)[..n][..FEED_HEADER_LEN] == Encode(f)[..FEED_HEADER_LEN];
      assert IsPrefix(Encode(f), Encode(f));
      LengthFromHeader(f, Encode(f));
    }
  }

  // Round trip of whole streams, cut anywhere after the stream header: a client
  // recovers the track name ("primary" when absent) and exactly the frames that
  // arrived whole. What arrived of a further frame, n bytes of it, is a proper
  // part, empty when the stream ended cleanly.
  lemma WholeStreamRoundTrip(
      name: Option<seq<byte>>, frames: seq<FeedFrame>, next: FeedFrame, n: nat,
      name': seq<byte>, frames': seq<FeedFrame>, leftover: seq<byte>)
    requires name.Some? ==> ValidName(name.value)
    requires name.None? ==> (frames + [next])[0].typ != TYPE_STREAM_HEADER
    requires (forall f :: f in frames ==> f.Encodable()) && next.Encodable() && n < |Encode(next)|
    requires Drains(Wire(name, frames) + Encode(next)[..n], name', frames', leftover)
    ensures name' == (if name.Some? then name.value else PRIMARY)
    ensures frames' == frames && leftover == Encode(next)[..n]
  {
    var cut := Encode(next)[..n];
    var body := Concat(Encode, frames) + cut;
    Associate(Prefix(name), Concat(Encode, frames), cut);
    if name.None? && body != [] {
      FirstByte(frames, next, cut);
    }
    SameName(name, body, name', Concat(Encode, frames') + leftover);
    SameFrames(frames, next, n, frames', leftover);
  }

  lemma SameName(name: Option<seq<byte>>, body: seq<byte>, name': seq<byte>, body': seq<byte>)
    requires name.Some? ==> ValidName(name.value)
    requires name.None? ==> body == [] || body[0] != TYPE_STREAM_HEADER
    requires var s := Prefix(name) + body;
      && s != []
      && (if s[0] == TYPE_STREAM_HEADER then ValidName(name') && s == StreamHeader(name') + body'
          else name' == PRIMARY && s == body')
    ensures name' == (if name.Some? then name.value else PRIMARY) && body' == body
  {
    if name.Some? {
      HeadersUnique(Prefix(name) + body, name.value, body, name', body');
    } else {
      assert Prefix(name) + body == body;
    }
  }

  lemma SameFrames(frames: seq<FeedFrame>, next: FeedFrame, n: nat, frames': seq<FeedFrame>, leftover: seq<byte>)
    requires (forall f :: f in frames ==> f.Encodable()) && next.Encodable() && n < |Encode(next)|
    requires (forall f :: f in frames' ==> f.Encodable()) && !HoldsFrame(leftover)
    requires Concat(Encode, frames) + Encode(next)[..n] == Concat(Encode, frames') + leftover
    ensures frames' == frames && leftover == Encode(next)[..n]
  {
    CutFrame(next, n);
    FramesAreRecognisable();
    OneReading(Encode, IsEncodable, HoldsFrame, frames, frames', Encode(next)[..n], leftover);
  }

  lemma FirstByte(frames: seq<FeedFrame>, next: FeedFrame, cut: seq<byte>)
    requires IsPrefix(cut, Encode(next)) && Concat(Encode, frames) + cut != []
    ensures (Concat(Encode, frames) + cut)[0] == (frames + [next])[0].typ
  {
    if frames == [] {
      assert Concat(Encode, frames) + cut == cut;
      assert cut[0] == Encode(next)[0];
    } else {
      assert (Concat(Encode, frames) + cut)[0] == Encode(frames[0])[0];
    }
  }

  lemma HeadersUnique(s: seq<byte>, a: seq<byte>, ta: seq<byte>, b: seq<byte>, tb: seq<byte>)
    requires ValidName(a) && ValidName(b)
    requires s == StreamHeader(a) + ta && s == StreamHeader(b) + tb
    ensures a == b && ta == tb
  {
    assert IsPrefix(StreamHeader(a), s) && IsPrefix(StreamHeader(b), s);
    StreamHeaderLength(a, s);
    StreamHeaderLength(b, s);
    assert ta == s[4 + |a|..] && tb == s[4 + |b|..];
  }

  // Less than a header is not a header, and cannot be drained.
  lemma CutHeaderIsUnreadable(name: seq<byte>, s: seq<byte>)
    requires ValidName(name) && IsPrefix(s, StreamHeader(name)) && |s| < |StreamHeader(name)|
    ensures !HoldsHeader(s)
    ensures s != [] ==> s[0] == TYPE_STREAM_HEADER
    ensures forall name', frames', leftover :: !Drains(s, name', frames', leftover)
  {
    var h := StreamHeader(name);
    assert s != [] ==> s[0] == h[0];
    if |s| >= 4 {
      assert s[1..4] == h[1..4];
      StreamHeaderLength(name, h);
    }
    forall name', frames', leftover
      ensures !Drains(s, name', frames', leftover)
    {
      if Drains(s, name', frames', leftover) {
        DrainedHoldsHeader(s, name', Concat(Encode, frames') + leftover);
      }
    }
  }

  lemma DrainedHoldsHeader(s: seq<byte>, name: seq<byte>, body: seq<byte>)
    requires ValidName(name) && s == StreamHeader(name) + body
    ensures HoldsHeader(s)
  {
    assert IsPrefix(StreamHeader(name), s);
    StreamHeaderLength(name, s);
  }

  // The client at the end of a stream, start to finish: from any stream a sender
  // wrote, cut anywhere after its header, the client gets the track name and
  // exactly the frames that arrived whole. Only an empty unnamed stream gives
  // nothing.
  method DrainWritten(name: Option<seq<byte>>, frames: seq<FeedFrame>, next: FeedFrame, n: nat)
    returns (out: Option<(seq<byte>, seq<FeedFrame>)>)
    requires name.Some? ==> ValidName(name.value)
    requires name.None? ==> (frames + [next])[0].typ != TYPE_STREAM_HEADER
    requires (forall f :: f in frames ==> f.Encodable()) && next.Encodable() && n < |Encode(next)|
    ensures out ==
      if name.None? && frames == [] && n == 0 then None
      else Some((if name.Some? then name.value else PRIMARY, frames))
  {
    ghost var s := Wire(name, frames) + Encode(next)[..n];
    var r := new StreamReader(Wire(name, frames) + Encode(next)[..n]);
    assert r.Stream() == s;
    out := DrainFeed(r);
    WrittenIsReadable(name, frames, next, n);
    if out.Some? {
      ghost var leftover :| Drains(s, out.value.0, out.value.1, leftover);
      WholeStreamRoundTrip(name, frames, next, n, out.value.0, out.value.1, leftover);
    }
  }

  lemma WrittenIsReadable(name: Option<seq<byte>>, frames: seq<FeedFrame>, next: FeedFrame, n: nat)
    requires name.Some? ==> ValidName(name.value)
    requires name.None? ==> (frames + [next])[0].typ != TYPE_STREAM_HEADER
    requires n < |Encode(next)|
    ensures var s := Wire(name, frames) + Encode(next)[..n];
      && (s == [] <==> name.None? && frames == [] && n == 0)
      && (s != [] && s[0] == TYPE_STREAM_HEADER ==> HoldsHeader(s))
  {
    var cut := Encode(next)[..n];
    var body := Concat(Encode, frames) + cut;
    Associate(Prefix(name), Concat(Encode, frames), cut);
    if name.Some? {
      DrainedHoldsHeader(Prefix(name) + body, name.value, body);
    } else {
      assert Prefix(name) + body == body;
      LegacyStart(frames, next, cut);
    }
  }

  // An unnamed stream is empty only if nothing was written, and does not start
  // like a header.
  lemma LegacyStart(frames: seq<FeedFrame>, next: FeedFrame, cut: seq<byte>)
    requires IsPrefix(cut, Encode(next)) && (frames + [next])[0].typ != TYPE_STREAM_HEADER
    ensures var body := Concat(Encode, frames) + cut;
      && (body == [] <==> frames == [] && cut == [])
      && (body != [] ==> body[0] != TYPE_STREAM_HEADER)
  {
    if frames != [] {
      FirstItem(Encode, frames, cut);
      assert |Encode(frames[0])| >= FEED_HEADER_LEN;
    }
    if Concat(Encode, frames) + cut != [] {
      FirstByte(frames, next, cut);
    }
  }

  // ---- Access units on the wire ----

  function FrameFlags(keyframe: bool, discontinuity: bool, wall: uint64): byte {
    (if keyframe then 1 else 0) + (if discontinuity then 2 else 0) + (if wall != 0 then 4 else 0)
  }

  // The frame the stream-per-GOP pump writes for an access unit; wall is the
  // publish clock it stamps, 0 for none.
  function GopFrame(au: AccessUnit, wall: uint64): FeedFrame {
    FeedFrame(
      if au.keyframe then TYPE_KEYFRAME else TYPE_P_FRAME, au.ptsMicro, au.seqNo,
      FrameFlags(au.keyframe, au.discontinuity, wall), wall, au.bytes)
  }

  // The frame the low-latency and datagram-fallback pumps write.
  function SelfContainedFrame(au: AccessUnit, wall: uint64): FeedFrame {
    FeedFrame(TYPE_KEYFRAME, au.ptsMicro, au.seqNo, FrameFlags(true, au.discontinuity, wall), wall, au.bytes)
  }

  // The access unit the client makes of a frame.
  function ClientUnit(f: FeedFrame): AccessUnit {
    AccessUnit(f.payload, f.IsKeyframe(), f.ptsMicro, f.seqNo, HasBit(f.flags, FLAG_DISCONTINUITY), f.pubWallMicro)
  }

  // What the pumps hand to their encoder is the encoding of these frames.
  lemma PumpsWriteFrames(au: AccessUnit, wall: uint64)
    requires |au.bytes| <= MAX_FEED_PAYLOAD
    ensures var typ := if au.keyframe then TYPE_KEYFRAME else TYPE_P_FRAME;
      AppendFeedFrame([], typ, au.ptsMicro, au.seqNo, FrameFlags(au.keyframe, au.discontinuity, 0), wall, au.bytes)
      == Encode(GopFrame(au, wall))
    ensures
      AppendFeedFrame([], TYPE_KEYFRAME, au.ptsMicro, au.seqNo, FrameFlags(true, au.discontinuity, 0), wall, au.bytes)
      == Encode(SelfContainedFrame(au, wall))
  {
    PumpFlags(au.keyframe, au.discontinuity, wall);
    PumpFlags(true, au.discontinuity, wall);
    var typ := if au.keyframe then TYPE_KEYFRAME else TYPE_P_FRAME;
    var flags, flags' := FrameFlags(au.keyframe, au.discontinuity, 0), FrameFlags(true, au.discontinuity, 0);
    EncodersAgree([], typ, au.ptsMicro, au.seqNo, flags, wall, au.bytes);
    EncodersAgree([], TYPE_KEYFRAME, au.ptsMicro, au.seqNo, flags', wall, au.bytes);
    WritersWriteFrames(typ, au.ptsMicro, au.seqNo, flags, wall, au.bytes);
    WritersWriteFrames(TYPE_KEYFRAME, au.ptsMicro, au.seqNo, flags', wall, au.bytes);
  }

  lemma PumpFlags(keyframe: bool, discontinuity: bool, wall: uint64)
    ensures var flags := FrameFlags(keyframe, discontinuity, 0);
      && !HasBit(flags, FLAG_PUBLISH_WALL)
      && FrameFlags(keyframe, discontinuity, wall) == if wall == 0 then flags else SetBit(flags, FLAG_PUBLISH_WALL)
  {}

  // The client gets back the access unit the pump dequeued, with the stamped
  // wall clock; self-contained tracks deliver every unit as a keyframe.
  lemma ClientGetsUnit(au: AccessUnit, wall: uint64)
    ensures ClientUnit(GopFrame(au, wall)) == au.(pubWallMicro := wall)
    ensures ClientUnit(SelfContainedFrame(au, wall)) == au.(pubWallMicro := wall, keyframe := true)
    ensures |au.bytes| <= MAX_FEED_PAYLOAD ==> GopFrame(au, wall).Encodable() && SelfContainedFrame(au, wall).Encodable()
  {}

  // ---- The resume cursor ----

  // The highest Seq received on each track (observeSeq in client/client.go),
  // which the client sends as last-seen when it reconnects.
  class ResumeCursor {
    var lastSeen: map<seq<byte>, uint32>
    ghost var received: seq<(seq<byte>, uint32)>

    constructor ()
      ensures Valid() && received == []
    {
      lastSeen, received := map[], [];
    }

    // Each track's cursor is one of its received Seqs and none is higher; a
    // track without a cursor has received nothing.
    ghost predicate Valid()
      reads this
    {
      && (forall t :: t in lastSeen ==> (t, lastSeen[t]) in received)
      && (forall p :: p in received ==> p.0 in lastSeen && p.1 <= lastSeen[p.0])
    }

    method ObserveSeq(track: seq<byte>, seqNo: uint32)
      requires Valid()
      modifies this
      ensures Valid() && received == old(received) + [(track, seqNo)]
    {
      if track !in lastSeen || seqNo > lastSeen[track] {
        lastSeen := lastSeen[track := seqNo];
      }
      received := received + [(track, seqNo)];
    }
  }
}
