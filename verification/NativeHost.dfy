/** The Firefox native-messaging host: an independent implementation of the same
    framing, bridging two byte streams (native/kwin-api-host.py). */
module NativeHost {
  import opened Framing
  import opened TxQueue
  import FrameClient

  datatype Extracted = Whole(payload: Bytes, rest: Bytes) | Incomplete | TooLarge(n: nat)

  /** The first frame of `buf`, if it is all there; an oversized one is an error
      as soon as its header is. */
  function ExtractFrame(buf: Bytes): Extracted {
    if |buf| < HEADER_LEN then Incomplete
    else
      var n := HeaderValue(buf[..HEADER_LEN]);
      if n > MAX_MESSAGE_LEN then TooLarge(n)
      else if |buf| < HEADER_LEN + n then Incomplete
      else Whole(buf[HEADER_LEN..HEADER_LEN + n], buf[HEADER_LEN + n..])
  }

  predicate Oversized(buf: Bytes) {
    HEADER_LEN <= |buf| && MAX_MESSAGE_LEN < HeaderValue(buf[..HEADER_LEN])
  }

  ghost predicate Passable(frames: seq<Bytes>) {
    forall f :: f in frames ==> |f| <= MAX_MESSAGE_LEN
  }

  /** `stream` is cut into the forwarded `frames` and the remainder that was kept:
      up to the first oversized header, or as far as there are whole frames. */
  ghost predicate Cut(stream: Bytes, frames: seq<Bytes>, rest: Bytes, bad: bool) {
    && Passable(frames)
    && Wire(frames) + rest == stream
    && bad == Oversized(rest)
    && (!bad ==> !HasFrame(rest))
  }

  /** What `Whole` means: the payload's frame, then the rest, is the buffer. */
  lemma ExtractIsExact(buf: Bytes)
    ensures match ExtractFrame(buf)
            case Whole(p, rest) => |p| <= MAX_MESSAGE_LEN && Frame(p) + rest == buf && |rest| < |buf| && !Oversized(buf)
            case Incomplete => !HasFrame(buf) && !Oversized(buf)
            case TooLarge(n) => Oversized(buf)
  {
    if ExtractFrame(buf).Whole? {
      HeaderOfHeaderValue(buf[..HEADER_LEN]);
    }
  }

  /** A packed frame is extracted again, whatever follows it. */
  lemma ExtractUndoesPack(p: Bytes, rest: Bytes)
    requires |p| <= MAX_MESSAGE_LEN
    ensures ExtractFrame(Frame(p) + rest) == Whole(p, rest)
    ensures HasFrame(Frame(p) + rest) && !Oversized(Frame(p) + rest)
  {
    HeaderValueOfHeader(|p|);
    var s := Frame(p) + rest;
    assert s[..HEADER_LEN] == Header(|p|);
    assert s[HEADER_LEN..HEADER_LEN + |p|] == p;
    assert s[HEADER_LEN + |p|..] == rest;
  }

  lemma WireFront(frames: seq<Bytes>, rest: Bytes)
    requires Passable(frames) && frames != []
    ensures Wire(frames) + rest == Frame(frames[0]) + (Wire(frames[1..]) + rest)
  {
    Regroup(Frame(frames[0]), Wire(frames[1..]), rest, Wire(frames[1..]) + rest);
  }

  /** Frames that begin the wire of `sent` are the first of `sent`, and no header
      in it is oversized. */
  lemma {:induction false} CutOfWire(frames: seq<Bytes>, rest: Bytes, bad: bool, missing: Bytes, sent: seq<Bytes>)
    requires Passable(frames) && bad == Oversized(rest) && (!bad ==> !HasFrame(rest)) && Passable(sent)
    requires Wire(frames) + rest + missing == Wire(sent)
    ensures frames <= sent && !bad
    ensures missing == [] ==> frames == sent && rest == []
  {
    hide Header, HeaderValue;
    if frames == [] {
      assert Wire(frames) + rest == rest;
      if sent != [] {
        WireFront(sent, []);
        assert Wire(sent) + [] == Wire(sent);
        var more := Wire(sent[1..]) + [];
        ExtractUndoesPack(sent[0], more);
        assert rest + missing == Frame(sent[0]) + more;
        if HEADER_LEN <= |rest| {
          assert rest[..HEADER_LEN] == (rest + missing)[..HEADER_LEN];
        }
        assert missing == [] ==> rest + missing == rest;
      }
    } else {
      WireFront(frames, rest);
      ExtractUndoesPack(frames[0], Wire(frames[1..]) + rest);
      Regroup(Frame(frames[0]), Wire(frames[1..]) + rest, missing, Wire(frames[1..]) + rest + missing);
      ExtractUndoesPack(frames[0], Wire(frames[1..]) + rest + missing);
      assert sent != [];
      WireFront(sent, []);
      assert Wire(sent) + [] == Wire(sent) && Wire(sent[1..]) + [] == Wire(sent[1..]);
      ExtractUndoesPack(sent[0], Wire(sent[1..]));
      CutOfWire(frames[1..], rest, bad, missing, sent[1..]);
    }
  }

  /** There is one way to cut a stream: what is forwarded does not depend on the
      chunks it came in. */
  lemma {:induction false} CutIsUnique(s: Bytes, fs: seq<Bytes>, r: Bytes, b: bool, gs: seq<Bytes>, q: Bytes, c: bool)
    requires Cut(s, fs, r, b) && Cut(s, gs, q, c)
    ensures fs == gs && r == q && b == c
  {
    hide Header, HeaderValue;
    if fs == [] && gs == [] {
      assert Wire(fs) + r == r && Wire(gs) + q == q;
    } else if fs == [] {
      assert Wire(fs) + r == r;
      WireFront(gs, q);
      ExtractUndoesPack(gs[0], Wire(gs[1..]) + q);
      assert false;
    } else if gs == [] {
      assert Wire(gs) + q == q;
      WireFront(fs, r);
      ExtractUndoesPack(fs[0], Wire(fs[1..]) + r);
      assert false;
    } else {
      WireFront(fs, r);
      WireFront(gs, q);
      ExtractUndoesPack(fs[0], Wire(fs[1..]) + r);
      ExtractUndoesPack(gs[0], Wire(gs[1..]) + q);
      CutIsUnique(Wire(fs[1..]) + r, fs[1..], r, b, gs[1..], q, c);
    }
  }

  /** Extend the forwarded frames by one taken off the remainder. */
  lemma CutOneMore(stream: Bytes, frames: seq<Bytes>, buf: Bytes, p: Bytes, rest: Bytes)
    requires Passable(frames) && Wire(frames) + buf == stream
    requires |p| <= MAX_MESSAGE_LEN && Frame(p) + rest == buf
    ensures Passable(frames + [p]) && Wire(frames + [p]) == Wire(frames) + Frame(p)
    ensures Wire(frames + [p]) + rest == stream
  {
    WireCons(p, []);
    assert [p] + [] == [p] && Frame(p) + Wire([]) == Frame(p);
    WireAppend(frames, [p]);
    Regroup(Wire(frames), Frame(p), rest, buf);
  }

  /** One direction of the bridge. */
  class Direction {
    var pending: Bytes               // bytes awaiting framing
    var written: Bytes               // bytes passed on
    ghost var received: Bytes
    ghost var frames: seq<Bytes>

    ghost predicate Valid(bad: bool)
      reads this
    {
      Cut(received, frames, pending, bad) && written == Wire(frames)
    }

    constructor ()
      ensures Valid(false) && received == [] && written == []
    {
      pending, written, received, frames := [], [], [], [];
    }

    /** A chunk arrived: forward every frame that is now whole. True if an
        oversized header was met, after which the host exits with code 1. */
    method Feed(data: Bytes) returns (bad: bool)
      requires Valid(false)
      modifies this
      ensures Valid(bad) && received == old(received) + data && bad == Oversized(pending)
      ensures written + pending == received && old(written) <= written
      ensures old(frames) <= frames
    {
      Regroup(Wire(frames), pending, data, pending + data);
      received := received + data;
      pending := pending + data;
      while true
        invariant Passable(frames) && Wire(frames) + pending == received && written == Wire(frames)
        invariant old(written) <= written && old(frames) <= frames
        invariant received == old(received) + data
        decreases |pending|
      {
        ExtractIsExact(pending);
        match ExtractFrame(pending) {
          case TooLarge(_) => return true;
          case Incomplete => return false;
          case Whole(p, rest) =>
            CutOneMore(received, frames, pending, p, rest);
            pending := rest;
            written := written + Frame(p);
            frames := frames + [p];
        }
      }
    }
  }

  datatype Step = Continue | Exit(code: nat)

  /** The bridge: stdin to the daemon's socket and back. */
  class Bridge {
    const fromFirefox: Direction
    const fromDaemon: Direction

    constructor ()
      ensures fromFirefox.Valid(false) && fromDaemon.Valid(false)
      ensures fresh(fromFirefox) && fresh(fromDaemon) && fromFirefox != fromDaemon
    {
      fromFirefox := new Direction();
      fromDaemon := new Direction();
    }

    /** One chunk from either side; an empty one is the end of that stream. */
    method OnChunk(firefox: bool, data: Bytes) returns (step: Step)
      requires fromFirefox != fromDaemon && fromFirefox.Valid(false) && fromDaemon.Valid(false)
      modifies if firefox then fromFirefox else fromDaemon
      ensures var d := if firefox then fromFirefox else fromDaemon;
              d.received == old(d.received) + data && d.Valid(step == Exit(1))
      ensures step == if data == [] then Exit(0)
                      else if Oversized((if firefox then fromFirefox else fromDaemon).pending) then Exit(1)
                      else Continue
    {
      if data == [] {
        ghost var d := if firefox then fromFirefox else fromDaemon;
        assert d.received + data == d.received;
        return Exit(0);
      }
      var bad;
      if firefox {
        bad := fromFirefox.Feed(data);
      } else {
        bad := fromDaemon.Feed(data);
      }
      return if bad then Exit(1) else Continue;
    }
  }

  // ---- the three implementations together ------------------------------------------

  /** Whatever part of the daemon's transmit queue has been flushed, the host has
      extracted from it the first of the pushed messages, and all of them once
      everything is flushed; it never meets an oversized header. */
  lemma PushedMessagesComeOut(tx: TxBuffer, d: Direction, bad: bool)
    requires tx.Valid() && d.Valid(bad) && d.received == tx.sent
    ensures d.frames <= tx.accepted && !bad
    ensures tx.len == 0 ==> d.frames == tx.accepted && d.pending == []
  {
    hide Wire, Ring;
    CutOfWire(d.frames, d.pending, bad, tx.Contents(), tx.accepted);
  }

  ghost function NonEmpty(ms: seq<Bytes>): (ns: seq<Bytes>)
    ensures |ns| <= |ms|
  {
    if ms == [] then [] else (if ms[0] == [] then [] else [ms[0]]) + NonEmpty(ms[1..])
  }

  /** What the host forwards, the daemon's decoder turns into the same messages,
      except that it drops the empty ones. */
  lemma ForwardedMessagesDecode(frames: seq<Bytes>)
    requires Passable(frames)
    ensures Decode(Wire(frames)) == Decoded(NonEmpty(frames), |frames| - |NonEmpty(frames)|, [])
  {
    DecodeWire(frames);
    KeptOfPassable(frames);
  }

  lemma {:induction false} KeptOfPassable(frames: seq<Bytes>)
    requires Passable(frames)
    ensures Kept(frames) == NonEmpty(frames)
  {
    if frames != [] {
      assert frames[0] in frames;
      KeptOfPassable(frames[1..]);
    }
  }

  /** An emptied transmit queue has sent the wire of its messages. */
  lemma FlushedIsWire(tx: TxBuffer)
    requires tx.Valid() && tx.len == 0
    ensures Passable(tx.accepted) && tx.sent == Wire(tx.accepted)
  {
    assert tx.Contents() == [];
    assert tx.sent + [] == tx.sent;
  }

  /** A decoder that has consumed any part of such a wire has the first of the
      messages that were pushed, without the empty ones, in order; and all of them
      once it has consumed the whole. */
  lemma PushedMessagesArrive(pushed: seq<Bytes>, c: FrameClient.Client)
    requires Passable(pushed) && c.Valid() && c.sock.consumed <= Wire(pushed)
    ensures c.rx.History() <= NonEmpty(pushed)
    ensures c.discardedFrames <= |pushed| - |NonEmpty(pushed)|
    ensures c.sock.consumed == Wire(pushed) ==>
              c.rx.History() == NonEmpty(pushed) && c.discardedFrames == |pushed| - |NonEmpty(pushed)|
  {
    var got := c.sock.consumed;
    assert Wire(pushed) == got + Wire(pushed)[|got|..];
    DecodeInPieces(got, Wire(pushed)[|got|..]);
    ForwardedMessagesDecode(pushed);
    FrameClient.DecoderAgrees(c);
  }
}
