/**
 * The feed-stream format (wire/frame.go): an optional stream header naming the
 * track, then feed frames. Writers are functions to bytes; readers consume a
 * StreamReader.
 */
module FeedWire {
  import opened Bytes
  import opened Framing

  const TYPE_KEYFRAME: byte := 0x20
  const TYPE_P_FRAME: byte := 0x21
  const TYPE_STREAM_HEADER: byte := 0x23

  const FLAG_KEYFRAME: byte := 1
  const FLAG_DISCONTINUITY: byte := 2
  const FLAG_PUBLISH_WALL: byte := 4

  const MAX_STREAM_HEADER: nat := 1024
  const MAX_FEED_PAYLOAD: nat := 0xFF_FFFF
  const FEED_HEADER_LEN: nat := 17
  const WALL_EXT_LEN: nat := 8

  datatype FeedFrame = FeedFrame(
    typ: byte,
    ptsMicro: uint64,
    seqNo: uint32,
    flags: byte,
    pubWallMicro: uint64,
    payload: seq<byte>)
  {
    predicate HasWall() { HasBit(flags, FLAG_PUBLISH_WALL) }

    predicate IsKeyframe() { typ == TYPE_KEYFRAME || HasBit(flags, FLAG_KEYFRAME) }

    // What the format can carry: a 24-bit payload length, and a wall clock only
    // when flagged.
    predicate Encodable() {
      |payload| <= MAX_FEED_PAYLOAD && (!HasWall() ==> pubWallMicro == 0)
    }
  }

  // ---- The format ----

  function Header(typ: byte, length: nat, pts: uint64, seqNo: uint32, flags: byte): (h: seq<byte>)
    ensures |h| == FEED_HEADER_LEN
  {
    [typ] + BE(3, length) + BE(8, pts) + BE(4, seqNo) + [flags]
  }

  function Extension(f: FeedFrame): seq<byte> {
    if f.HasWall() then BE(8, f.pubWallMicro) else []
  }

  function Encode(f: FeedFrame): (s: seq<byte>)
    ensures |s| == FEED_HEADER_LEN + |Extension(f)| + |f.payload|
  {
    Header(f.typ, |f.payload|, f.ptsMicro, f.seqNo, f.flags) + Extension(f) + f.payload
  }

  // The bytes of WriteStreamHeader.
  function StreamHeader(name: seq<byte>): seq<byte> {
    [TYPE_STREAM_HEADER] + BE(3, |name|) + name
  }

  // ---- The three encoders of the source ----

  datatype Written = Bytes(bytes: seq<byte>) | TooLarge

  function WriteFeedFrame(typ: byte, pts: uint64, seqNo: uint32, flags: byte, payload: seq<byte>): Written {
    if |payload| > MAX_FEED_PAYLOAD then TooLarge
    else Bytes(Header(typ, |payload|, pts, seqNo, flags) + payload)
  }

  function SetBit(b: byte, bit: byte): byte
    requires bit == 1 || bit == 2 || bit == 4
  {
    if HasBit(b, bit) then b else b + bit
  }

  function WriteFeedFrameWall(
      typ: byte, pts: uint64, seqNo: uint32, flags: byte, wall: uint64, payload: seq<byte>): Written
  {
    if |payload| > MAX_FEED_PAYLOAD then TooLarge
    else Bytes(Header(typ, |payload|, pts, seqNo, SetBit(flags, FLAG_PUBLISH_WALL)) + BE(8, wall) + payload)
  }

  // appendFeedFrame of feed/pump.go.
  function AppendFeedFrame(
      dst: seq<byte>, typ: byte, pts: uint64, seqNo: uint32, flags: byte, wall: uint64, payload: seq<byte>): seq<byte>
  {
    var flags' := if wall != 0 then SetBit(flags, FLAG_PUBLISH_WALL) else flags;
    var dst' := dst + ([typ] + BE(3, |payload|) + BE(8, pts) + BE(4, seqNo) + [flags']);
    (if wall != 0 then dst' + BE(8, wall) else dst') + payload
  }

  lemma SetBitSets(b: byte, bit: byte)
    requires bit == 1 || bit == 2 || bit == 4
    ensures HasBit(SetBit(b, bit), bit)
  {}

  // WriteFeedFrameWall writes one frame for all arguments; WriteFeedFrame does
  // exactly when the caller's flags do not announce a wall clock, since it writes
  // none. Both refuse a payload the length field cannot express.
  lemma WritersWriteFrames(typ: byte, pts: uint64, seqNo: uint32, flags: byte, wall: uint64, payload: seq<byte>)
    ensures |payload| > MAX_FEED_PAYLOAD ==>
      && WriteFeedFrame(typ, pts, seqNo, flags, payload).TooLarge?
      && WriteFeedFrameWall(typ, pts, seqNo, flags, wall, payload).TooLarge?
    ensures |payload| <= MAX_FEED_PAYLOAD ==>
      var plain := FeedFrame(typ, pts, seqNo, flags, 0, payload);
      var walled := FeedFrame(typ, pts, seqNo, SetBit(flags, FLAG_PUBLISH_WALL), wall, payload);
      && plain.Encodable() && walled.Encodable()
      && WriteFeedFrameWall(typ, pts, seqNo, flags, wall, payload) == Bytes(Encode(walled))
      && (WriteFeedFrame(typ, pts, seqNo, flags, payload) == Bytes(Encode(plain)) <==> !HasBit(flags, FLAG_PUBLISH_WALL))
  {
    SetBitSets(flags, FLAG_PUBLISH_WALL);
    var plain := FeedFrame(typ, pts, seqNo, flags, 0, payload);
    if HasBit(flags, FLAG_PUBLISH_WALL) {
      assert |Encode(plain)| == FEED_HEADER_LEN + WALL_EXT_LEN + |payload|;
    }
  }

  // The pump's encoder appends exactly the bytes of WriteFeedFrame, or of
  // WriteFeedFrameWall when there is a wall clock, whatever the flags.
  lemma EncodersAgree(dst: seq<byte>, typ: byte, pts: uint64, seqNo: uint32, flags: byte, wall: uint64, payload: seq<byte>)
    requires |payload| <= MAX_FEED_PAYLOAD
    ensures Bytes(AppendFeedFrame([], typ, pts, seqNo, flags, wall, payload)) ==
      if wall == 0 then WriteFeedFrame(typ, pts, seqNo, flags, payload)
      else WriteFeedFrameWall(typ, pts, seqNo, flags, wall, payload)
    ensures AppendFeedFrame(dst, typ, pts, seqNo, flags, wall, payload)
         == dst + AppendFeedFrame([], typ, pts, seqNo, flags, wall, payload)
  {
    var h := Header(typ, |payload|, pts, seqNo, if wall != 0 then SetBit(flags, FLAG_PUBLISH_WALL) else flags);
    assert [] + h == h;
  }

  // ---- Reading back ----

  // The length of the frame that starts with header h.
  function FrameLength(h: seq<byte>): nat
    requires |h| == FEED_HEADER_LEN
  {
    FEED_HEADER_LEN + (if HasBit(h[16], FLAG_PUBLISH_WALL) then WALL_EXT_LEN else 0) + FromBE(h[1..4])
  }

  lemma HeaderFields(typ: byte, length: nat, pts: uint64, seqNo: uint32, flags: byte)
    requires length <= MAX_FEED_PAYLOAD
    ensures var h := Header(typ, length, pts, seqNo, flags);
      && h[0] == typ && h[16] == flags
      && FromBE(h[1..4]) == length && FromBE(h[4..12]) == pts && FromBE(h[12..16]) == seqNo
  {
    var h := Header(typ, length, pts, seqNo, flags);
    assert h[1..4] == BE(3, length);
    assert h[4..12] == BE(8, pts);
    assert h[12..16] == BE(4, seqNo);
    Read24(length);
    Read64(pts);
    Read32Exact(seqNo);
  }

  lemma HeaderRebuilt(h: seq<byte>)
    requires |h| == FEED_HEADER_LEN
    ensures FromBE(h[1..4]) <= MAX_FEED_PAYLOAD && FromBE(h[4..12]) < TWO_TO_64 && FromBE(h[12..16]) < TWO_TO_32
    ensures Header(h[0], FromBE(h[1..4]), FromBE(h[4..12]), FromBE(h[12..16]), h[16]) == h
  {
    Rebuild24(h[1..4]);
    Rebuild64(h[4..12]);
    Rebuild32(h[12..16]);
    assert h == [h[0]] + h[1..4] + h[4..12] + h[12..16] + [h[16]];
  }

  // A frame's own header says how long it is.
  lemma LengthFromHeader(f: FeedFrame, s: seq<byte>)
    requires f.Encodable() && IsPrefix(Encode(f), s)
    ensures FrameLength(s[..FEED_HEADER_LEN]) == |Encode(f)|
  {
    var h := Header(f.typ, |f.payload|, f.ptsMicro, f.seqNo, f.flags);
    assert s[..FEED_HEADER_LEN] == Encode(f)[..FEED_HEADER_LEN] == h;
    HeaderFields(f.typ, |f.payload|, f.ptsMicro, f.seqNo, f.flags);
  }

  // Two frames that start the same bytes are the same frame: the format is
  // uniquely decodable.
  lemma EncodeUnique(f: FeedFrame, g: FeedFrame, s: seq<byte>)
    requires f.Encodable() && g.Encodable() && IsPrefix(Encode(f), s) && IsPrefix(Encode(g), s)
    ensures f == g
  {
    LengthFromHeader(f, s);
    LengthFromHeader(g, s);
    assert Encode(f) == Encode(g);
    EncodeInjective(f, g);
  }

  lemma EncodeParts(f: FeedFrame)
    ensures var e, n := Encode(f), FEED_HEADER_LEN + |Extension(f)|;
      && e[..FEED_HEADER_LEN] == Header(f.typ, |f.payload|, f.ptsMicro, f.seqNo, f.flags)
      && e[FEED_HEADER_LEN..n] == Extension(f)
      && e[n..] == f.payload
  {}

  lemma EncodeInjective(f: FeedFrame, g: FeedFrame)
    requires f.Encodable() && g.Encodable() && Encode(f) == Encode(g)
    ensures f == g
  {
    EncodeParts(f);
    EncodeParts(g);
    HeaderInjective(f.typ, |f.payload|, f.ptsMicro, f.seqNo, f.flags, g.typ, |g.payload|, g.ptsMicro, g.seqNo, g.flags);
    assert f.HasWall() == g.HasWall();
    if f.HasWall() {
      WallInjective(f.pubWallMicro, g.pubWallMicro);
    }
  }

  lemma HeaderInjective(
      typ: byte, length: nat, pts: uint64, seqNo: uint32, flags: byte,
      typ': byte, length': nat, pts': uint64, seqNo': uint32, flags': byte)
    requires length <= MAX_FEED_PAYLOAD && length' <= MAX_FEED_PAYLOAD
    requires Header(typ, length, pts, seqNo, flags) == Header(typ', length', pts', seqNo', flags')
    ensures typ == typ' && length == length' && pts == pts' && seqNo == seqNo' && flags == flags'
  {
    HeaderFields(typ, length, pts, seqNo, flags);
    HeaderFields(typ', length', pts', seqNo', flags');
  }

  lemma WallInjective(a: uint64, b: uint64)
    requires BE(8, a) == BE(8, b)
    ensures a == b
  {
    Read64(a);
    Read64(b);
  }

  // ---- Readers ----

  datatype Read<+T> = Ok(value: T) | EndOfStream | Truncated | Oversize | EmptyHeader

  // An io.Reader over the bytes still to come. `first` is the byte a
  // peekedReader puts back in front of its stream.
  class StreamReader {
    var first: seq<byte>
    var rest: seq<byte>

    constructor (bytes: seq<byte>)
      ensures first == [] && rest == bytes
    {
      first, rest := [], bytes;
    }

    ghost function Stream(): seq<byte>
      reads this
    {
      first + rest
    }

    // Read: some bytes, at most n, and none only at the end of the stream. A
    // put-back byte is returned alone; otherwise the stream decides how many
    // bytes it hands out.
    method ReadSome(n: nat) returns (b: seq<byte>)
      requires |first| <= 1
      modifies this
      ensures |first| <= 1 && |b| <= n && old(Stream()) == b + Stream()
      ensures b == [] ==> n == 0 || old(Stream()) == []
    {
      if first != [] {
        if n == 0 {
          return [];
        }
        b, first := first, [];
        return;
      }
      var most := if n <= |rest| then n else |rest|;
      if most == 0 {
        return [];
      }
      var k :| 1 <= k <= most;
      b, rest := rest[..k], rest[k..];
    }

    // io.ReadFull: exactly n bytes, however the stream hands them out.
    method ReadFull(n: nat) returns (r: Read<seq<byte>>)
      requires |first| <= 1
      modifies this
      ensures |first| <= 1
      ensures |old(Stream())| >= n ==> r == Ok(old(Stream())[..n]) && Stream() == old(Stream())[n..]
      ensures |old(Stream())| < n ==> r == (if old(Stream()) == [] then EndOfStream else Truncated) && Stream() == []
    {
      var b: seq<byte> := [];
      while |b| < n
        invariant |first| <= 1 && |b| <= n && b + Stream() == old(Stream())
        decreases n - |b|
      {
        var more := ReadSome(n - |b|);
        if more == [] {
          return if b == [] then EndOfStream else Truncated;
        }
        b := b + more;
      }
      return Ok(b);
    }
  }

  // A stream holds a whole frame.
  predicate HoldsFrame(s: seq<byte>) {
    |s| >= FEED_HEADER_LEN && |s| >= FrameLength(s[..FEED_HEADER_LEN])
  }

  predicate IsEncodable(f: FeedFrame) {
    f.Encodable()
  }

  lemma FramesAreRecognisable()
    ensures Recognisable(Encode, IsEncodable, HoldsFrame)
  {
    forall f, g, s | IsEncodable(f) && IsEncodable(g) && IsPrefix(Encode(f), s) && IsPrefix(Encode(g), s)
      ensures f == g
    {
      EncodeUnique(f, g, s);
    }
    forall f, s | IsEncodable(f) && IsPrefix(Encode(f), s)
      ensures HoldsFrame(s)
    {
      LengthFromHeader(f, s);
    }
  }

  method ReadFeedFrame(r: StreamReader) returns (res: Read<FeedFrame>)
    requires |r.first| <= 1
    modifies r
    ensures |r.first| <= 1
    ensures res.Ok? <==> HoldsFrame(old(r.Stream()))
    ensures res.Ok? ==> res.value.Encodable() && old(r.Stream()) == Encode(res.value) + r.Stream()
  {
    var got := r.ReadFull(FEED_HEADER_LEN);
    if !got.Ok? {
      return if got.EndOfStream? then EndOfStream else Truncated;
    }
    var hdr := got.value;
    HeaderRebuilt(hdr);
    var length := FromBE(hdr[1..4]);
    if length > MAX_FEED_PAYLOAD {
      return Oversize;
    }
    var f := FeedFrame(hdr[0], FromBE(hdr[4..12]), FromBE(hdr[12..16]), hdr[16], 0, []);
    res := ReadBody(r, f, length);
  }

  // The wall clock, if flagged, and the payload.
  method ReadBody(r: StreamReader, f: FeedFrame, length: nat) returns (res: Read<FeedFrame>)
    requires |r.first| <= 1 && f.pubWallMicro == 0 && f.payload == []
    modifies r
    ensures |r.first| <= 1
    ensures res.Ok? <==> |old(r.Stream())| >= (if f.HasWall() then WALL_EXT_LEN else 0) + length
    ensures res.Ok? ==>
      && res.value == f.(pubWallMicro := res.value.pubWallMicro, payload := res.value.payload)
      && (!f.HasWall() ==> res.value.pubWallMicro == 0)
      && |res.value.payload| == length
      && old(r.Stream()) == Extension(res.value) + res.value.payload + r.Stream()
  {
    var walled := ReadWall(r, f);
    if !walled.Ok? {
      return walled;
    }
    var g := walled.value;
    if length > 0 {
      var body := r.ReadFull(length);
      if !body.Ok? {
        return if body.EndOfStream? then EndOfStream else Truncated;
      }
      g := g.(payload := body.value);
    }
    return Ok(g);
  }

  // The wall-clock extension, if flagged.
  method ReadWall(r: StreamReader, f: FeedFrame) returns (res: Read<FeedFrame>)
    requires |r.first| <= 1 && f.pubWallMicro == 0
    modifies r
    ensures |r.first| <= 1
    ensures res.Ok? <==> |old(r.Stream())| >= if f.HasWall() then WALL_EXT_LEN else 0
    ensures res.Ok? ==>
      && res.value == f.(pubWallMicro := res.value.pubWallMicro)
      && (!f.HasWall() ==> res.value.pubWallMicro == 0)
      && old(r.Stream()) == Extension(res.value) + r.Stream()
  {
    if !HasBit(f.flags, FLAG_PUBLISH_WALL) {
      return Ok(f);
    }
    var ext := r.ReadFull(WALL_EXT_LEN);
    if !ext.Ok? {
      return if ext.EndOfStream? then EndOfStream else Truncated;
    }
    Rebuild64(ext.value);
    return Ok(f.(pubWallMicro := FromBE(ext.value)));
  }
}
