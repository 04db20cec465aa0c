/** The wire format shared by the daemon, the KWin script's clients and the
    native host: a 4-byte native-order length, then that many payload bytes.

    `Split` is the reference reading of a byte stream; everything that decodes
    or encodes frames in this project is related to it. */
module Framing {
  newtype byte = b: int | 0 <= b < 256
  type Bytes = seq<byte>

  const HEADER_LEN := 4
  const MAX_MESSAGE_LEN := 1_000_000
  const WORD := 0x1_0000_0000

  /** The uint32 `n` as it lies in memory on a little-endian host. */
  function Header(n: nat): (h: Bytes)
    requires n < WORD
    ensures |h| == HEADER_LEN
  {
    [(n % 256) as byte, (n / 256 % 256) as byte, (n / 65536 % 256) as byte, (n / 16777216) as byte]
  }

  function HeaderValue(h: Bytes): (n: nat)
    requires |h| == HEADER_LEN
    ensures n < WORD
  {
    h[0] as int + 256 * h[1] as int + 65536 * h[2] as int + 16777216 * h[3] as int
  }

  /** Base 256, the lowest byte first. */
  function Weighed(h: Bytes): nat {
    if h == [] then 0 else h[0] as int + 256 * Weighed(h[1..])
  }

  /** The four bytes, weighed by their place, are the announced length. */
  lemma HeaderIsLittleEndian(n: nat)
    requires n < WORD
    ensures Weighed(Header(n)) == n
  {
    HeaderValueOfHeader(n);
    var h := Header(n);
    assert h[1..][1..] == h[2..] && h[2..][1..] == h[3..] && h[3..][1..] == [];
    assert Weighed(h[3..]) == h[3] as int;
    assert Weighed(h[2..]) == h[2] as int + 256 * h[3] as int;
    assert Weighed(h[1..]) == h[1] as int + 256 * (h[2] as int + 256 * h[3] as int);
  }

  lemma HeaderValueOfHeader(n: nat)
    requires n < WORD
    ensures HeaderValue(Header(n)) == n
  {
    assert n / 256 == n / 65536 * 256 + n / 256 % 256;
    assert n / 65536 == n / 16777216 * 256 + n / 65536 % 256;
  }

  lemma HeaderOfHeaderValue(h: Bytes)
    requires |h| == HEADER_LEN
    ensures Header(HeaderValue(h)) == h
  {
    var n := HeaderValue(h);
    assert n / 256 == h[1] as int + 256 * h[2] as int + 65536 * h[3] as int;
    assert n / 65536 == h[2] as int + 256 * h[3] as int;
    assert n / 16777216 == h[3] as int;
  }

  /** A payload the header can announce. */
  ghost predicate Announceable(p: Bytes) { |p| < WORD }

  ghost predicate AllAnnounceable(frames: seq<Bytes>) {
    forall p :: p in frames ==> Announceable(p)
  }

  function Frame(p: Bytes): (f: Bytes)
    requires Announceable(p)
  {
    Header(|p|) + p
  }

  /** Complete frames back to back. */
  ghost function Wire(frames: seq<Bytes>): Bytes
    requires AllAnnounceable(frames)
  {
    if frames == [] then [] else Frame(frames[0]) + Wire(frames[1..])
  }

  lemma {:induction false} WireAppend(fs: seq<Bytes>, gs: seq<Bytes>)
    requires AllAnnounceable(fs) && AllAnnounceable(gs)
    ensures AllAnnounceable(fs + gs)
    ensures Wire(fs + gs) == Wire(fs) + Wire(gs)
  {
    assert AllAnnounceable(fs + gs);
    if fs == [] {
      assert fs + gs == gs;
    } else {
      assert (fs + gs)[0] == fs[0] && (fs + gs)[1..] == fs[1..] + gs;
      WireAppend(fs[1..], gs);
    }
  }

  /** Does `s` begin with a whole frame? */
  predicate HasFrame(s: Bytes) {
    HEADER_LEN <= |s| && HEADER_LEN + HeaderValue(s[..HEADER_LEN]) <= |s|
  }

  /** The payload of the frame at the front of `s`, and where that frame ends. */
  function FrameEnd(s: Bytes): (e: nat)
    requires HasFrame(s)
    ensures HEADER_LEN <= e <= |s|
  {
    HEADER_LEN + HeaderValue(s[..HEADER_LEN])
  }

  datatype Parsed = Parsed(frames: seq<Bytes>, rest: Bytes)

  /** Cut off whole frames from the front for as long as there is one. */
  function Split(s: Bytes): (p: Parsed)
    decreases |s|
  {
    if !HasFrame(s) then Parsed([], s)
    else
      var e := FrameEnd(s);
      var tail := Split(s[e..]);
      Parsed([s[HEADER_LEN..e]] + tail.frames, tail.rest)
  }

  /** Nothing is lost, added or moved: the frames written out again, followed by
      the rest, are the stream, and the rest holds no further frame. */
  lemma {:induction false} SplitIsExact(s: Bytes)
    ensures AllAnnounceable(Split(s).frames)
    ensures Wire(Split(s).frames) + Split(s).rest == s
    ensures !HasFrame(Split(s).rest)
    decreases |s|
  {
    if HasFrame(s) {
      var e := FrameEnd(s);
      FrameAtFront(s);
      hide Frame, HasFrame, FrameEnd, Wire, AllAnnounceable;
      var payload, tail := s[HEADER_LEN..e], Split(s[e..]);
      SplitIsExact(s[e..]);
      WireCons(payload, tail.frames);
      assert Split(s) == Parsed([payload] + tail.frames, tail.rest);
      hide Split;
      Regroup(Frame(payload), Wire(tail.frames), tail.rest, s[e..]);
      assert s == s[..e] + s[e..];
    } else {
      assert Wire([]) + s == s;
    }
  }

  lemma FrameAtFront(s: Bytes)
    requires HasFrame(s)
    ensures var payload := s[HEADER_LEN..FrameEnd(s)];
            Announceable(payload) && Frame(payload) == s[..FrameEnd(s)]
  {
    HeaderOfHeaderValue(s[..HEADER_LEN]);
  }

  lemma WireCons(p: Bytes, frames: seq<Bytes>)
    requires Announceable(p) && AllAnnounceable(frames)
    ensures AllAnnounceable([p] + frames)
    ensures Wire([p] + frames) == Frame(p) + Wire(frames)
  {
    assert ([p] + frames)[1..] == frames;
  }

  /** A whole frame at the front is cut off. */
  lemma FrameIsSplitOff(p: Bytes, tail: Bytes)
    requires Announceable(p)
    ensures Split(Frame(p) + tail) == Parsed([p] + Split(tail).frames, Split(tail).rest)
  {
    var s := Frame(p) + tail;
    HeaderValueOfHeader(|p|);
    assert s[..HEADER_LEN] == Header(|p|);
    hide Header, HeaderValue;
    assert FrameEnd(s) == HEADER_LEN + |p|;
    assert s[HEADER_LEN..HEADER_LEN + |p|] == p;
    assert s[HEADER_LEN + |p|..] == tail;
  }

  /** ... and `Split` is the only such reading. */
  lemma {:induction false} SplitIsUnique(frames: seq<Bytes>, rest: Bytes)
    requires AllAnnounceable(frames)
    requires !HasFrame(rest)
    ensures Split(Wire(frames) + rest) == Parsed(frames, rest)
  {
    hide Header, HeaderValue, Frame;
    if frames == [] {
      assert Wire(frames) + rest == rest;
    } else {
      var p, tail := frames[0], Wire(frames[1..]) + rest;
      assert p in frames && AllAnnounceable(frames[1..]);
      Regroup(Frame(p), Wire(frames[1..]), rest, tail);
      FrameIsSplitOff(p, tail);
      SplitIsUnique(frames[1..], rest);
      assert frames == [p] + frames[1..];
    }
  }

  lemma Regroup(x: Bytes, a: Bytes, b: Bytes, ab: Bytes)
    requires a + b == ab
    ensures (x + a) + b == x + ab
  {
    assert (x + a) + b == x + (a + b);
  }

  /** Reading a stream in two pieces: the second piece continues where the rest
      of the first one stopped. */
  lemma SplitInPieces(a: Bytes, b: Bytes)
    ensures Split(a + b) ==
            Parsed(Split(a).frames + Split(Split(a).rest + b).frames, Split(Split(a).rest + b).rest)
  {
    var first := Split(a);
    var second := Split(first.rest + b);
    SplitIsExact(a);
    SplitIsExact(first.rest + b);
    WireAppend(first.frames, second.frames);
    SplitIsUnique(first.frames + second.frames, second.rest);
    Regroup(Wire(first.frames), first.rest, b, first.rest + b);
    Regroup(Wire(first.frames), Wire(second.frames), second.rest, first.rest + b);
  }

  /** What the decoder keeps: payloads of 1 .. 1,000,000 bytes. */
  predicate Storable(n: nat) { 0 < n <= MAX_MESSAGE_LEN }

  function Kept(frames: seq<Bytes>): (ms: seq<Bytes>)
    ensures |ms| <= |frames|
    ensures forall m :: m in ms <==> m in frames && Storable(|m|)
  {
    if frames == [] then []
    else
      var k := Kept(frames[1..]);
      if Storable(|frames[0]|) then [frames[0]] + k else k
  }

  lemma {:induction false} KeptAppend(fs: seq<Bytes>, gs: seq<Bytes>)
    ensures Kept(fs + gs) == Kept(fs) + Kept(gs)
  {
    if fs == [] {
      assert fs + gs == gs;
    } else {
      assert (fs + gs)[0] == fs[0] && (fs + gs)[1..] == fs[1..] + gs;
      KeptAppend(fs[1..], gs);
    }
  }

  /** What a stream decodes to: the kept messages in order, the number of frames
      thrown away, and the unfinished end. */
  datatype Decoded = Decoded(messages: seq<Bytes>, discarded: nat, rest: Bytes)

  function Decode(s: Bytes): (d: Decoded) {
    var p := Split(s);
    var k := Kept(p.frames);
    Decoded(k, |p.frames| - |k|, p.rest)
  }

  lemma DecodeInPieces(a: Bytes, b: Bytes)
    ensures var d := Decode(a); var e := Decode(d.rest + b);
            Decode(a + b) == Decoded(d.messages + e.messages, d.discarded + e.discarded, e.rest)
  {
    SplitInPieces(a, b);
    KeptAppend(Split(a).frames, Split(Split(a).rest + b).frames);
  }

  /** A stream of whole frames decodes to its storable payloads, with no rest. */
  lemma DecodeWire(frames: seq<Bytes>)
    requires AllAnnounceable(frames)
    ensures Decode(Wire(frames)) == Decoded(Kept(frames), |frames| - |Kept(frames)|, [])
  {
    assert Wire(frames) + [] == Wire(frames);
    SplitIsUnique(frames, []);
  }
}
