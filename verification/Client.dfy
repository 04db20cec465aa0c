/** The resumable frame decoder of one connection (daemon/src/proto/client.cpp). */
module FrameClient {
  import opened Framing
  import opened Kernel
  import opened RxQueue
  import opened TxQueue

  const DISCARD_CHUNK := 4096
  const DEFAULT_BUFFER_CAP := 16_000_000

  datatype ReadResult = Progress | Again | Paused | Eof | Error
  datatype Stage = ReadingHeader | ReadingPayload | Discarding

  datatype PushOutcome = Accepted | Refused(why: PushResult) | NotConnected
  const ENOTCONN := 107

  function MapReadResult(r: SysResult): ReadResult {
    match r
    case Count(n) => if n > 0 then Progress else Eof
    case Failed(EAGAIN) => Again
    case Failed(_) => Error
  }

  /** What the unfinished end of the consumed bytes must be, given the decoder's
      own state: nothing but the header so far, the header and the stored part of
      the payload, or the header and bytes that were thrown away. */
  ghost predicate RestIs(rest: Bytes, stage: Stage, header: Bytes, haveRead: nat, stored: Bytes) {
    && |header| == HEADER_LEN
    && match stage
       case ReadingHeader =>
         && haveRead <= HEADER_LEN && rest == header[..haveRead] && stored == []
         && (haveRead == HEADER_LEN ==> Storable(HeaderValue(header)))
       case ReadingPayload =>
         && Storable(HeaderValue(header)) && haveRead < HeaderValue(header)
         && |stored| == haveRead && rest == header + stored
       case Discarding =>
         && MAX_MESSAGE_LEN < HeaderValue(header) && haveRead < HeaderValue(header)
         && |rest| == HEADER_LEN + haveRead && rest[..HEADER_LEN] == header && stored == []
  }

  /** One frame is complete: the header just read announces nothing. */
  lemma EmptyFrame(header: Bytes)
    requires |header| == HEADER_LEN && HeaderValue(header) == 0
    ensures Decode(header) == Decoded([], 1, [])
  {
    assert header[..HEADER_LEN] == header;
    assert Split(header) == Parsed([[]], []) by { assert Split([]) == Parsed([], []); }
  }

  /** A frame with a payload is complete. */
  lemma WholeFrame(header: Bytes, payload: Bytes)
    requires |header| == HEADER_LEN && HeaderValue(header) == |payload|
    ensures Decode(header + payload) ==
            if Storable(|payload|) then Decoded([payload], 0, []) else Decoded([], 1, [])
  {
    HeaderOfHeaderValue(header);
    WireCons(payload, []);
    assert [payload] + [] == [payload] && Frame(payload) + Wire([]) == header + payload;
    DecodeWire([payload]);
    assert Kept([payload]) == if Storable(|payload|) then [payload] else [] by {
      assert [payload][1..] == [];
    }
  }

  /** Less than a frame decodes to nothing yet. */
  lemma PartialFrame(s: Bytes)
    requires !HasFrame(s)
    ensures Decode(s) == Decoded([], 0, s)
  {
  }

  class Client {
    const fd: int
    const sock: Socket
    const header: array<byte>    // the 4 bytes of msg_len_, filled from the wire
    const scratch: array<byte>   // swallows the payloads of oversized frames
    const rx: RxBuffer
    const tx: TxBuffer
    var stage: Stage
    var haveRead: nat            // bytes consumed in the current stage
    var rxPaused: bool
    var discardedFrames: nat

    constructor (fd: int, sock: Socket, rxCap: nat, txCap: nat)
      requires rxCap == 0 || 2 <= rxCap
      requires txCap == 0 || HEADER_LEN + 1 <= txCap
      requires sock.consumed == [] && sock.outgoing == []
      ensures Valid() && this.sock == sock && this.fd == fd
      ensures fresh(header) && fresh(scratch) && fresh(rx) && fresh(rx.data) && fresh(tx) && fresh(tx.data)
      ensures rx.data.Length == if rxCap == 0 then DEFAULT_BUFFER_CAP else rxCap
      ensures tx.data.Length == if txCap == 0 then DEFAULT_BUFFER_CAP else txCap
      ensures !rxPaused && !Deciding() && tx.len == 0 && rx.queue == rx.delivered == []
    {
      hide Wire, Splice, Decode, Ring, AllFit;
      this.fd, this.sock := fd, sock;
      header := new byte[HEADER_LEN];
      scratch := new byte[DISCARD_CHUNK];
      rx := new RxBuffer(if rxCap == 0 then DEFAULT_BUFFER_CAP else rxCap);
      tx := new TxBuffer(if txCap == 0 then DEFAULT_BUFFER_CAP else txCap);
      stage, haveRead, rxPaused, discardedFrames := ReadingHeader, 0, false, 0;
      new;
      PartialFrame([]);
    }

    ghost predicate Separate()
      reads this
    {
      && header.Length == HEADER_LEN && scratch.Length == DISCARD_CHUNK
      && header != scratch && header != rx.data && header != tx.data
      && scratch != rx.data && scratch != tx.data && rx.data != tx.data
    }

    function MsgLen(): nat
      requires header.Length == HEADER_LEN
      reads this, header
    {
      HeaderValue(header[..])
    }

    /** The header is in and its verdict is still open. */
    predicate Deciding()
      reads this
    {
      stage == ReadingHeader && haveRead == HEADER_LEN
    }

    /** What is left to do: a byte in the socket counts twice, because a header
        left undecided by a pause is settled without consuming anything. */
    ghost function Remaining(): nat
      reads this, sock
    {
      2 * |sock.incoming| + if Deciding() then 1 else 0
    }

    /** The received side agrees with the reference reading of all bytes consumed. */
    ghost predicate RxValid()
      requires Separate()
      reads this, sock, header, rx, rx.data
    {
      && rx.Valid()
      && Decode(sock.consumed).messages == rx.History()
      && Decode(sock.consumed).discarded == discardedFrames
      && RestIs(Decode(sock.consumed).rest, stage, header[..], haveRead, rx.Tail())
      && (stage == ReadingPayload ==> rx.len + (MsgLen() - haveRead) + 1 <= rx.data.Length)
      && (rxPaused ==> Deciding())
    }

    ghost predicate Valid()
      reads this, sock, header, rx, rx.data, tx, tx.data
    {
      && Separate()
      && RxValid()
      && tx.Valid()
      && tx.sent == sock.outgoing
    }

    /** read(2), retried while it is interrupted. */
    method ReadRetrying(buf: array<byte>, off: nat, want: nat) returns (n: SysResult)
      requires off + want <= buf.Length && 0 < want
      modifies sock`incoming, sock`consumed, sock`interrupts, sock`blockedReads, sock`failures, buf
      ensures old(sock.consumed) + old(sock.incoming) == sock.consumed + sock.incoming
      ensures buf[..off] == old(buf[..off])
      ensures n != Failed(EINTR)
      ensures sock.blockedReads >= old(sock.blockedReads) && sock.failures >= old(sock.failures)
      ensures n == Failed(EAGAIN) ==> sock.blockedReads > old(sock.blockedReads)
      ensures n.Failed? && n.errno.Hard? ==> sock.failures > old(sock.failures)
      ensures n.Failed? ==> sock.incoming == old(sock.incoming) && sock.consumed == old(sock.consumed)
      ensures n.Failed? ==> buf[..] == old(buf[..])
      ensures n.Count? ==> n.n <= want && n.n <= |old(sock.incoming)| && sock.incoming == old(sock.incoming)[n.n..]
      ensures n.Count? ==> sock.consumed == old(sock.consumed) + buf[off..off + n.n]
      ensures n == Count(0) ==> old(sock.incoming) == []
    {
      hide *;
      while true
        invariant sock.incoming == old(sock.incoming) && sock.consumed == old(sock.consumed)
        invariant sock.blockedReads == old(sock.blockedReads) && sock.failures == old(sock.failures)
        invariant buf[..] == old(buf[..])
        decreases sock.interrupts
      {
        assert buf[..off] == buf[..][..off];
        n := sock.Read(buf, off, want);
        if n != Failed(EINTR) {
          return;
        }
      }
    }

    /** The bytes `current` of an unfinished step are what the books are short of. */
    ghost predicate OwedBy(current: Bytes)
      reads this, sock, rx
    {
      var c := Decode(current);
      Decode(sock.consumed) == Decoded(rx.History() + c.messages, discardedFrames + c.discarded, c.rest)
    }

    /** Read more of the header. */
    method FillHeader() returns (r: ReadResult)
      requires Valid() && stage == ReadingHeader && haveRead < HEADER_LEN
      modifies `haveRead, sock`incoming, sock`consumed, sock`interrupts, sock`blockedReads, sock`failures, header
      ensures sock.blockedReads >= old(sock.blockedReads) && sock.failures >= old(sock.failures)
      ensures r == Again ==> sock.blockedReads > old(sock.blockedReads)
      ensures r == Error ==> sock.failures > old(sock.failures)
      ensures sock.consumed + sock.incoming == old(sock.consumed) + old(sock.incoming)
      ensures r != Progress ==> Valid() && r != Paused && sock.incoming == old(sock.incoming)
      ensures r != Progress ==> haveRead == old(haveRead) && (r == Eof ==> sock.incoming == [])
      ensures r == Progress ==> haveRead <= HEADER_LEN && |sock.incoming| < |old(sock.incoming)|
      ensures r == Progress ==> OwedBy(header[..haveRead])
    {
      hide Decode, Splice, Wire, Ring, AllFit, TxBuffer.Valid;
      var n := ReadRetrying(header, haveRead, HEADER_LEN - haveRead);
      assert header[..haveRead] == old(header[..haveRead]);
      r := MapReadResult(n);
      if r != Progress {
        assert n.Count? ==> header[haveRead..haveRead + n.n] == [];
        assert sock.consumed == old(sock.consumed);
        return;
      }
      ghost var more := header[haveRead..haveRead + n.n];
      assert header[..haveRead] + more == header[..haveRead + n.n];
      DecodeInPieces(old(sock.consumed), more);
      haveRead := haveRead + n.n;
    }

    /** The header is complete: what becomes of the frame? */
    method Decide() returns (r: ReadResult, again: bool)
      requires Separate() && rx.Valid() && stage == ReadingHeader && haveRead == HEADER_LEN && !rxPaused
      requires rx.len == rx.completeLen && OwedBy(header[..])
      modifies this
      ensures RxValid()
      ensures again == (MsgLen() == 0)
      ensures again ==> stage == ReadingHeader && haveRead == 0 && !rxPaused
      ensures 0 < MsgLen() <= MAX_MESSAGE_LEN && rx.CanFit(MsgLen()) ==>
                r == Progress && stage == ReadingPayload && !rxPaused
      ensures 0 < MsgLen() <= MAX_MESSAGE_LEN && !rx.CanFit(MsgLen()) ==> r == Paused && rxPaused
      ensures MAX_MESSAGE_LEN < MsgLen() ==> r == Progress && stage == Discarding && !rxPaused
    {
      hide Decode, Splice, Wire, Ring, AllFit;
      again, r := false, Progress;
      var msgLen := MsgLen();
      if msgLen == 0 {
        EmptyFrame(header[..]);
        discardedFrames := discardedFrames + 1;
        haveRead := 0;
        again := true;
        return;
      }
      PartialFrame(header[..]);
      if msgLen > MAX_MESSAGE_LEN {
        stage, haveRead := Discarding, 0;
        return;
      }
      if rx.CanFit(msgLen) {
        stage, haveRead := ReadingPayload, 0;
        return;
      }
      rxPaused := true;
      r := Paused;
    }

    method StepHeader() returns (r: ReadResult, again: bool)
      requires Valid() && stage == ReadingHeader && !rxPaused
      modifies this, sock`incoming, sock`consumed, sock`interrupts, sock`blockedReads, sock`failures, header
      ensures sock.blockedReads >= old(sock.blockedReads) && sock.failures >= old(sock.failures)
      ensures !again && r == Again ==> sock.blockedReads > old(sock.blockedReads)
      ensures !again && r == Error ==> sock.failures > old(sock.failures)
      ensures Valid()
      ensures sock.consumed + sock.incoming == old(sock.consumed) + old(sock.incoming)
      ensures again ==> stage == ReadingHeader && !rxPaused && haveRead == 0
      ensures again ==> |sock.incoming| < |old(sock.incoming)| && !old(Deciding())
      ensures !again ==> (r == Paused <==> rxPaused) && (rxPaused ==> !rx.CanFit(MsgLen()))
      ensures !again && r == Progress ==> Remaining() < old(Remaining())
      ensures !again && r == Eof ==> sock.incoming == []
      ensures old(Deciding()) ==> sock.incoming == old(sock.incoming) && header[..] == old(header[..])
      ensures !again && r != Paused ==> !Deciding()
      ensures old(Deciding() && rx.CanFit(MsgLen())) ==> r == Progress && stage == ReadingPayload
      ensures old(Deciding() && !rx.CanFit(MsgLen())) ==> r == Paused
    {
      hide Decode, Splice, Wire, Ring, AllFit, TxBuffer.Valid;
      again := false;
      if haveRead < HEADER_LEN {
        r := FillHeader();
        if r != Progress {
          return;
        }
        if haveRead < HEADER_LEN {
          PartialFrame(header[..haveRead]);
          return;
        }
        assert header[..haveRead] == header[..];
      } else {
        assert header[..haveRead] == header[..];
        PartialFrame(header[..]);
      }
      r, again := Decide();
    }

    static lemma PartsInUse(data: array<byte>, completeLen: nat, len: nat)
      requires completeLen <= len <= data.Length
      ensures data[..completeLen] == data[..len][..completeLen]
      ensures data[completeLen..len] == data[..len][completeLen..]
      ensures 0 < completeLen ==> data[0] == data[..len][0]
    {
    }

    /** Read behind the bytes in use, which stay as they are. */
    method ReadBehind(want: nat) returns (n: SysResult, ghost more: Bytes)
      requires rx.Valid() && rx.len + want <= rx.data.Length && 0 < want
      modifies sock`incoming, sock`consumed, sock`interrupts, sock`blockedReads, sock`failures, rx.data
      ensures rx.Valid() && rx.Tail() == old(rx.Tail())
      ensures sock.consumed + sock.incoming == old(sock.consumed) + old(sock.incoming)
      ensures sock.blockedReads >= old(sock.blockedReads) && sock.failures >= old(sock.failures)
      ensures n == Failed(EAGAIN) ==> sock.blockedReads > old(sock.blockedReads)
      ensures n.Failed? && n.errno.Hard? ==> sock.failures > old(sock.failures)
      ensures n != Failed(EINTR)
      ensures n.Count? ==> n.n <= want && sock.consumed == old(sock.consumed) + more && |more| == n.n
      ensures n.Count? ==> rx.data[rx.len..rx.len + n.n] == more && |sock.incoming| == |old(sock.incoming)| - n.n
      ensures !n.Count? || n.n == 0 ==> sock.consumed == old(sock.consumed) && sock.incoming == old(sock.incoming)
      ensures n == Count(0) ==> sock.incoming == []
    {
      hide Splice, AllFit;
      PartsInUse(rx.data, rx.completeLen, rx.len);
      n := ReadRetrying(rx.data, rx.len, want);
      PartsInUse(rx.data, rx.completeLen, rx.len);
      more := if n.Count? then rx.data[rx.len..rx.len + n.n] else [];
      assert sock.consumed == old(sock.consumed) + more;
    }

    /** Read more of the payload, straight into the receive buffer. */
    method FillPayload() returns (r: ReadResult)
      requires Valid() && stage == ReadingPayload
      modifies `haveRead, sock`incoming, sock`consumed, sock`interrupts, sock`blockedReads, sock`failures, rx`len,
               rx.data
      ensures sock.blockedReads >= old(sock.blockedReads) && sock.failures >= old(sock.failures)
      ensures r == Again ==> sock.blockedReads > old(sock.blockedReads)
      ensures r == Error ==> sock.failures > old(sock.failures)
      ensures sock.consumed + sock.incoming == old(sock.consumed) + old(sock.incoming)
      ensures rx.Valid() && r != Paused
      ensures r != Progress ==> Valid() && (r == Eof ==> sock.incoming == [])
      ensures r == Progress ==> |sock.incoming| < |old(sock.incoming)|
      ensures r == Progress ==> OwedBy(header[..] + rx.Tail())
      ensures r == Progress ==>
                haveRead == |rx.Tail()| <= MsgLen() && rx.len + (MsgLen() - haveRead) + 1 <= rx.data.Length
    {
      hide Decode, Splice, Wire, Ring, AllFit, TxBuffer.Valid;
      ghost var stored := rx.Tail();
      var n; ghost var more;
      n, more := ReadBehind(MsgLen() - haveRead);
      r := MapReadResult(n);
      if r != Progress {
        return;
      }
      DecodeInPieces(old(sock.consumed), more);
      Regroup(header[..], stored, more, stored + more);
      haveRead := haveRead + n.n;
      hide RxBuffer.Valid;
      rx.Advance(n.n);
    }

    method StepPayload() returns (r: ReadResult)
      requires Valid() && stage == ReadingPayload
      modifies this, sock`incoming, sock`consumed, sock`interrupts, sock`blockedReads, sock`failures, rx, rx.data
      ensures sock.blockedReads >= old(sock.blockedReads) && sock.failures >= old(sock.failures)
      ensures r == Again ==> sock.blockedReads > old(sock.blockedReads)
      ensures r == Error ==> sock.failures > old(sock.failures)
      ensures Valid() && !rxPaused && r != Paused && !Deciding()
      ensures sock.consumed + sock.incoming == old(sock.consumed) + old(sock.incoming)
      ensures rx.delivered == old(rx.delivered) && old(rx.queue) <= rx.queue
      ensures stage == ReadingPayload || rx.queue != []
      ensures r == Progress ==> |sock.incoming| < |old(sock.incoming)|
      ensures r == Eof ==> sock.incoming == []
    {
      hide Decode, Splice, Wire, Ring, AllFit, TxBuffer.Valid;
      r := FillPayload();
      if r != Progress {
        return;
      }
      if haveRead == MsgLen() {
        WholeFrame(header[..], rx.Tail());
        rx.MessageComplete();
        stage, haveRead := ReadingHeader, 0;
      } else {
        PartialFrame(header[..] + rx.Tail());
      }
    }

    /** Read more of an oversized payload into the scratch buffer. */
    method FillDiscard() returns (r: ReadResult, ghost thrown: Bytes)
      requires Valid() && stage == Discarding
      modifies `haveRead, sock`incoming, sock`consumed, sock`interrupts, sock`blockedReads, sock`failures, scratch
      ensures sock.blockedReads >= old(sock.blockedReads) && sock.failures >= old(sock.failures)
      ensures r == Again ==> sock.blockedReads > old(sock.blockedReads)
      ensures r == Error ==> sock.failures > old(sock.failures)
      ensures sock.consumed + sock.incoming == old(sock.consumed) + old(sock.incoming) && r != Paused
      ensures r != Progress ==> Valid() && (r == Eof ==> sock.incoming == [])
      ensures r == Progress ==> |sock.incoming| < |old(sock.incoming)|
      ensures r == Progress ==> haveRead == |thrown| <= MsgLen() && OwedBy(header[..] + thrown)
    {
      hide Decode, Splice, Wire, Ring, AllFit, TxBuffer.Valid;
      var remaining := MsgLen() - haveRead;
      var want := if remaining < DISCARD_CHUNK then remaining else DISCARD_CHUNK;
      ghost var before := Decode(sock.consumed).rest;
      var n := ReadRetrying(scratch, 0, want);
      r := MapReadResult(n);
      thrown := [];
      if r != Progress {
        assert n.Count? ==> scratch[0..n.n] == [];
        assert sock.consumed == old(sock.consumed);
        return;
      }
      ghost var more := scratch[0..n.n];
      DecodeInPieces(old(sock.consumed), more);
      thrown := before[HEADER_LEN..] + more;
      assert before + more == header[..] + thrown;
      haveRead := haveRead + n.n;
    }

    method StepDiscard() returns (r: ReadResult)
      requires Valid() && stage == Discarding
      modifies this, sock`incoming, sock`consumed, sock`interrupts, sock`blockedReads, sock`failures, scratch
      ensures Valid() && !rxPaused && r != Paused && !Deciding()
      ensures sock.blockedReads >= old(sock.blockedReads) && sock.failures >= old(sock.failures)
      ensures r == Again ==> sock.blockedReads > old(sock.blockedReads)
      ensures r == Error ==> sock.failures > old(sock.failures)
      ensures sock.consumed + sock.incoming == old(sock.consumed) + old(sock.incoming)
      ensures r == Progress ==> |sock.incoming| < |old(sock.incoming)|
      ensures r == Eof ==> sock.incoming == []
    {
      hide Decode, Splice, Wire, Ring, AllFit, TxBuffer.Valid;
      ghost var thrown: Bytes;
      r, thrown := FillDiscard();
      if r != Progress {
        return;
      }
      if haveRead == MsgLen() {
        WholeFrame(header[..], thrown);
        discardedFrames := discardedFrames + 1;
        stage, haveRead := ReadingHeader, 0;
      } else {
        assert (header[..] + thrown)[..HEADER_LEN] == header[..];
        PartialFrame(header[..] + thrown);
      }
    }

    /** One non-blocking read step. */
    method Read() returns (r: ReadResult)
      requires Valid()
      modifies this, sock`incoming, sock`consumed, sock`interrupts, sock`blockedReads, sock`failures, header,
               scratch, rx, rx.data
      ensures sock.blockedReads >= old(sock.blockedReads) && sock.failures >= old(sock.failures)
      ensures r == Again ==> sock.blockedReads > old(sock.blockedReads)
      ensures r == Error ==> fd < 0 || sock.failures > old(sock.failures)
      ensures Valid()
      ensures sock.consumed + sock.incoming == old(sock.consumed) + old(sock.incoming)
      ensures rx.delivered == old(rx.delivered) && old(rx.queue) <= rx.queue
      ensures fd < 0 ==> r == Error && sock.incoming == old(sock.incoming)
      ensures 0 <= fd ==> (r == Paused <==> rxPaused)
      ensures rxPaused && !old(rxPaused) ==> !rx.CanFit(MsgLen())
      ensures old(rxPaused) ==> unchanged(this) && unchanged(sock) && unchanged(header) && unchanged(rx)
      ensures r == Progress ==> Remaining() < old(Remaining())
      ensures r == Eof ==> sock.incoming == []
      ensures 0 <= fd && r != Paused ==> !Deciding()
      ensures old(Deciding()) ==> sock.incoming == old(sock.incoming) && header[..] == old(header[..])
      ensures old(Deciding()) ==> rx.queue == old(rx.queue)
      ensures old(stage) == ReadingPayload && !old(rxPaused) ==> stage == ReadingPayload || rx.queue != []
      ensures old(Deciding() && !rxPaused && rx.CanFit(MsgLen())) && 0 <= fd ==>
                r == Progress && stage == ReadingPayload
      ensures old(Deciding() && !rx.CanFit(MsgLen())) && 0 <= fd ==> r == Paused
    {
      hide Decode, Splice, Wire, Ring, AllFit, TxBuffer.Valid;
      if fd < 0 {
        return Error;
      }
      if rxPaused {
        return Paused;
      }
      while true
        invariant Valid() && !rxPaused
        invariant sock.consumed + sock.incoming == old(sock.consumed) + old(sock.incoming)
        invariant old(stage) == ReadingPayload ==> stage == ReadingPayload
        invariant old(Deciding()) ==> Deciding() && sock.incoming == old(sock.incoming) && header[..] == old(header[..])
        invariant |sock.incoming| == |old(sock.incoming)| ==> Deciding() == old(Deciding())
        invariant |sock.incoming| <= |old(sock.incoming)|
        invariant sock.blockedReads >= old(sock.blockedReads) && sock.failures >= old(sock.failures)
        invariant rx.len == old(rx.len) && rx.queue == old(rx.queue) && rx.delivered == old(rx.delivered)
        decreases |sock.incoming|
      {
        match stage {
          case ReadingHeader =>
            var again;
            r, again := StepHeader();
            if !again {
              return;
            }
          case ReadingPayload =>
            r := StepPayload();
            return;
          case Discarding =>
            r := StepDiscard();
            return;
        }
      }
    }

    /** Lift the pause; the next `Read` decides again about the pending frame. */
    method RxResume()
      requires Valid()
      modifies `rxPaused
      ensures Valid() && !rxPaused
    {
      rxPaused := false;
    }

    /** Queue one message for the peer; a client without a socket says so. */
    method Push(msg: Bytes) returns (r: PushOutcome)
      requires Valid()
      modifies tx, tx.data
      ensures Valid() && tx.sent == old(tx.sent)
      ensures r == if fd < 0 then NotConnected
                   else if |msg| > MAX_MESSAGE_LEN then Refused(TooLong)
                   else if old(tx.len) + HEADER_LEN + |msg| > tx.data.Length then Refused(NoRoom)
                   else Accepted
      ensures tx.accepted == if r == Accepted then old(tx.accepted) + [msg] else old(tx.accepted)
      ensures tx.len == if r == Accepted then old(tx.len) + HEADER_LEN + |msg| else old(tx.len)
    {
      hide Decode, Splice, Wire, Ring, AllFit;
      if fd < 0 {
        return NotConnected;
      }
      var p := tx.Push(msg);
      return if p == Queued then Accepted else Refused(p);
    }

    method Flush() returns (r: FlushResult)
      requires Valid()
      modifies tx, sock`outgoing, sock`interrupts, sock`blockedSends, sock`failures
      ensures Valid() && tx.accepted == old(tx.accepted)
      ensures old(tx.sent) <= tx.sent
      ensures r.Written? ==> tx.len == 0 || sock.blockedSends > old(sock.blockedSends)
      ensures sock.failures >= old(sock.failures) && (r.Broken? ==> fd < 0 || sock.failures > old(sock.failures))
    {
      hide Decode, Splice, Wire, Ring, AllFit;
      if fd < 0 {
        return Broken(Hard(ENOTCONN));
      }
      r := tx.Flush(sock);
    }
  }

  /** In every reachable state, and so however the stream was split into reads:
      what was drained and what is queued is what the consumed bytes decode to,
      and a pause stands exactly behind the 4 bytes of a legal header. */
  lemma DecoderAgrees(c: Client)
    requires c.Valid()
    ensures Decode(c.sock.consumed).messages == c.rx.delivered + c.rx.queue
    ensures Decode(c.sock.consumed).discarded == c.discardedFrames
    ensures c.rxPaused ==> Decode(c.sock.consumed).rest == c.header[..] && Storable(c.MsgLen())
  {
    hide Decode, Splice, Wire, Ring, AllFit;
    assert c.Deciding() ==> c.header[..HEADER_LEN] == c.header[..];
  }

  /** The rest of a payload being read, and its ',', always have their room; outside
      a payload nothing is in flight. */
  lemma RoomIsReserved(c: Client)
    requires c.Valid()
    ensures 1 <= c.rx.completeLen <= c.rx.len <= c.rx.data.Length
    ensures c.stage != ReadingPayload ==> c.rx.len == c.rx.completeLen
    ensures c.stage == ReadingPayload ==>
              c.haveRead < c.MsgLen() && c.rx.len + (c.MsgLen() - c.haveRead) + 1 <= c.rx.data.Length
  {
    hide Decode, Splice, Wire, Ring, AllFit;
  }
}
