/** One connected client: socket callbacks, D-Bus calls and backpressure
    (daemon/src/client_session.cpp, daemon/src/client_dbus_object.cpp). */
module Session {
  import opened Framing
  import opened Kernel
  import opened RxQueue
  import opened TxQueue
  import opened FrameClient
  import opened DBusPoll

  const TOO_LONG := "message exceeds 1 MB"
  const NO_ROOM := "write buffer full"

  /** The readiness bits of one epoll event. */
  datatype Revents = Revents(readable: bool, writable: bool, hangup: bool)

  class ClientSession {
    const client: Client
    const dbus: PollObject
    var rxPaused: bool
    var discardedSeen: nat
    var enabled: bool               // the io source, and the events it asks for
    var wantsIn: bool
    var wantsOut: bool

    /** The parts fit together; holds even on the way to closing. */
    ghost predicate Valid()
      reads this, client, client.sock, client.header, client.rx, client.rx.data, client.tx, client.tx.data,
            dbus, dbus.queue, dbus.poll, dbus.bus
    {
      && client.Valid() && 0 <= client.fd
      && dbus.queue == client.rx && dbus.Replying()
    }

    predicate Listening()
      reads this
    {
      enabled && wantsIn
    }

    predicate Flushing()
      reads this
    {
      enabled && wantsOut
    }

    /** The pause is known on both sides and has its reason; nothing waits to be
        delivered that could be. */
    ghost predicate InStep()
      reads this, client, client.sock, client.header, client.rx, client.rx.data, client.tx, client.tx.data,
            dbus, dbus.queue, dbus.poll, dbus.bus
    {
      && Valid()
      && dbus.Settled()
      && rxPaused == client.rxPaused
      && (rxPaused ==> !client.rx.CanFit(client.MsgLen()))
    }

    /** What holds whenever the event loop is idle. A decision that is open but not
        suspended is one that a batch has just made worth trying again. */
    ghost predicate Idle()
      reads this, client, client.sock, client.header, client.rx, client.rx.data, client.tx, client.tx.data,
            dbus, dbus.queue, dbus.poll, dbus.bus
    {
      && InStep()
      && (Listening() <==> !rxPaused)
      && (Flushing() <==> client.tx.len > 0)
      && (client.Deciding() && !rxPaused ==> client.rx.queue == [] && client.rx.delivered != [])
    }

    constructor (fd: nat, sock: Socket, rxCap: nat, txCap: nat)
      requires rxCap == 0 || 2 <= rxCap
      requires txCap == 0 || HEADER_LEN + 1 <= txCap
      requires sock.consumed == [] && sock.outgoing == []
      ensures Idle() && client.sock == sock && dbus.bus.batches == []
      ensures client.rx.data.Length == (if rxCap == 0 then DEFAULT_BUFFER_CAP else rxCap) && client.rx.queue == []
      ensures client.tx.data.Length == (if txCap == 0 then DEFAULT_BUFFER_CAP else txCap) && client.tx.len == 0
      ensures fresh(client) && fresh(client.header) && fresh(client.scratch)
      ensures fresh(client.rx) && fresh(client.rx.data) && fresh(client.tx) && fresh(client.tx.data)
      ensures fresh(dbus) && fresh(dbus.poll) && fresh(dbus.bus)
    {
      hide TxBuffer.Valid, Bus.Valid, AllFit, Decode, Splice, Wire, Ring;
      var c := new Client(fd, sock, rxCap, txCap);
      client := c;
      dbus := new PollObject(c.rx);
      rxPaused, discardedSeen := false, 0;
      enabled, wantsIn, wantsOut := true, true, false;
    }

    method UpdateIoEvents()
      modifies `enabled, `wantsIn, `wantsOut
      ensures Listening() <==> !rxPaused
      ensures Flushing() <==> client.tx.len > 0
    {
      var events := (!rxPaused, client.tx.len > 0);
      if events == (false, false) {
        enabled := false;
      } else {
        enabled := true;
        wantsIn, wantsOut := events.0, events.1;
      }
    }

    /** The queue was drained: resume reading if it was suspended. */
    method OnRxDrained()
      requires client.Valid()
      modifies `rxPaused, `enabled, `wantsIn, `wantsOut, client`rxPaused
      ensures client.Valid() && !rxPaused
      ensures old(rxPaused) ==> !client.rxPaused && (Listening() <==> !rxPaused) && (Flushing() <==> client.tx.len > 0)
      ensures !old(rxPaused) ==> client.rxPaused == old(client.rxPaused) && enabled == old(enabled)
                                 && wantsIn == old(wantsIn) && wantsOut == old(wantsOut)
    {
      hide Decode, Splice, Wire, Ring, AllFit, RestIs;
      if rxPaused {
        rxPaused := false;
        client.RxResume();
        UpdateIoEvents();
      }
    }

    /** Read until the socket would block, the buffer is full or the peer is gone.
        Terminates because every step of progress leaves less to do. */
    method DrainSocket() returns (close: bool)
      requires Idle()
      modifies `rxPaused, client, client.header, client.scratch, client.rx, client.rx.data,
               client.sock`incoming, client.sock`consumed, client.sock`interrupts,
               client.sock`blockedReads, client.sock`failures
      ensures Valid() && rxPaused == client.rxPaused
      ensures rxPaused ==> !client.rx.CanFit(client.MsgLen())
      ensures client.sock.consumed + client.sock.incoming == old(client.sock.consumed + client.sock.incoming)
      ensures client.rx.delivered == old(client.rx.delivered)
      ensures client.sock.failures >= old(client.sock.failures)
      ensures close ==> client.sock.incoming == [] || client.sock.failures > old(client.sock.failures)
      ensures !close ==> rxPaused || client.sock.blockedReads > old(client.sock.blockedReads)
      ensures !close && !rxPaused ==> !client.Deciding()
      ensures old(Retrying() && !client.rx.CanFit(client.MsgLen())) ==> !close && rxPaused && client.rx.queue == []
      ensures old(Retrying() && client.rx.CanFit(client.MsgLen())) ==> !rxPaused || client.rx.queue != []
      ensures old(rxPaused) ==>
                && !close && rxPaused && client.sock.consumed == old(client.sock.consumed)
                && client.sock.incoming == old(client.sock.incoming)
                && client.rx.queue == old(client.rx.queue) && client.header[..] == old(client.header[..])
    {
      hide TxBuffer.Valid, RxBuffer.Valid, Bus.Valid, Flat, Decode, Splice, Wire, Ring, AllFit;
      close := false;
      while true
        invariant Valid() && client.rxPaused == rxPaused
        invariant rxPaused ==> !client.rx.CanFit(client.MsgLen())
        invariant client.sock.consumed + client.sock.incoming == old(client.sock.consumed + client.sock.incoming)
        invariant client.rx.delivered == old(client.rx.delivered)
        invariant client.sock.blockedReads >= old(client.sock.blockedReads)
        invariant client.sock.failures >= old(client.sock.failures)
        invariant old(rxPaused) ==>
                    && rxPaused && client.sock.consumed == old(client.sock.consumed)
                    && client.sock.incoming == old(client.sock.incoming)
                    && client.rx.queue == old(client.rx.queue) && client.header[..] == old(client.header[..])
        invariant old(Retrying() && !client.rx.CanFit(client.MsgLen())) ==>
                    Retrying() && !client.rx.CanFit(client.MsgLen())
        invariant old(Retrying() && client.rx.CanFit(client.MsgLen())) ==>
                    (client.Deciding() && !rxPaused && client.rx.CanFit(client.MsgLen()))
                    || client.stage == ReadingPayload || client.rx.queue != []
        decreases client.Remaining()
      {
        var r := client.Read();
        match r {
          case Progress =>
          case Again =>
            break;
          case Paused =>
            rxPaused := true;
            break;
          case Eof =>
            close := true;
            break;
          case Error =>
            close := true;
            break;
        }
      }
    }

    /** Messages may have arrived: answer a held poll, and read on if that made room. */
    method OnRxMessages()
      requires Valid() && rxPaused == client.rxPaused
      requires rxPaused ==> !client.rx.CanFit(client.MsgLen())
      modifies `rxPaused, `enabled, `wantsIn, `wantsOut, client`rxPaused, dbus.queue, dbus.queue.data, dbus.poll,
               dbus.bus
      ensures InStep()
      ensures dbus.bus.asked == old(dbus.bus.asked) && dbus.OnlyDelivered()
      ensures old(dbus.poll.Pending() && client.rx.queue != []) ==>
                !dbus.poll.Pending() && dbus.bus.batches == old(dbus.bus.batches) + [old(client.rx.queue)]
      ensures client.rx.delivered == old(client.rx.delivered) || dbus.bus.batches != old(dbus.bus.batches)
      ensures rxPaused || !old(rxPaused) || dbus.bus.batches != old(dbus.bus.batches)
      ensures old(client.rx.queue) == [] ==> rxPaused == old(rxPaused) && client.rx.queue == []
      ensures rxPaused ==> client.rx.queue == old(client.rx.queue)
      ensures old(rxPaused) && !rxPaused ==> client.rx.delivered != [] && client.rx.queue == []
      ensures !old(rxPaused) ==> !rxPaused
    {
      hide TxBuffer.Valid, Decode, Splice, Wire, Ring, AllFit, Flat, Replied, JsonArray;
      var drained := dbus.MaybeReplyPendingPoll();
      if drained {
        OnRxDrained();
      }
    }

    /** The readable half of a socket event. */
    method HandleReadable() returns (close: bool)
      requires Idle()
      modifies `rxPaused, `discardedSeen, `enabled, `wantsIn, `wantsOut, client, client.header, client.scratch,
               client.rx, client.rx.data, dbus.poll, dbus.bus,
               client.sock`incoming, client.sock`consumed, client.sock`interrupts,
               client.sock`blockedReads, client.sock`failures
      ensures InStep()
      ensures client.sock.consumed + client.sock.incoming == old(client.sock.consumed + client.sock.incoming)
      ensures dbus.bus.asked == old(dbus.bus.asked) && dbus.OnlyDelivered()
      ensures client.sock.failures >= old(client.sock.failures)
      ensures !close ==> rxPaused || client.sock.blockedReads > old(client.sock.blockedReads)
                         || dbus.bus.batches != old(dbus.bus.batches)
      ensures client.discardedFrames <= discardedSeen
      ensures close ==> client.sock.incoming == [] || client.sock.failures > old(client.sock.failures)
      ensures !close ==> client.Deciding() || client.sock.blockedReads > old(client.sock.blockedReads)
      ensures !close && client.Deciding() && !rxPaused ==> client.rx.queue == [] && client.rx.delivered != []
      ensures old(Retrying() && !client.rx.CanFit(client.MsgLen())) ==> !close && Wedged()
      ensures old(Retrying() && client.rx.CanFit(client.MsgLen())) ==> !Wedged()
      ensures old(Wedged()) ==> client.sock.consumed == old(client.sock.consumed) && Wedged()
    {
      hide TxBuffer.Valid, Decode, Splice, Wire, Ring, AllFit, Flat, Replied, JsonArray, RestIs;
      close := DrainSocket();
      OnRxMessages();
      if client.discardedFrames > discardedSeen {
        discardedSeen := client.discardedFrames;  // and a line in the log
      }
    }

    /** The writable half of a socket event. */
    method HandleWritable() returns (close: bool)
      requires InStep()
      modifies client.tx, client.sock`outgoing, client.sock`interrupts, client.sock`blockedSends, client.sock`failures
      ensures InStep()
      ensures client.tx.accepted == old(client.tx.accepted) && old(client.tx.sent) <= client.tx.sent
      ensures client.sock.failures >= old(client.sock.failures)
      ensures close ==> client.sock.failures > old(client.sock.failures)
      ensures !close ==> client.tx.len == 0 || client.sock.blockedSends > old(client.sock.blockedSends)
    {
      hide Decode, Splice, Wire, Ring, AllFit, Flat, Replied, JsonArray, RestIs;
      var n := client.Flush();
      close := n.Broken?;
    }

    /** One socket event. True if the connection must be closed. */
    method HandleIo(revents: Revents) returns (close: bool)
      requires Idle()
      modifies this, client, client.sock, client.header, client.scratch, client.rx, client.rx.data,
               client.tx, dbus.poll, dbus.bus
      ensures Valid() && (!close ==> Idle())
      ensures client.sock.consumed + client.sock.incoming == old(client.sock.consumed + client.sock.incoming)
      ensures client.tx.accepted == old(client.tx.accepted) && old(client.tx.sent) <= client.tx.sent
      ensures dbus.bus.asked == old(dbus.bus.asked) && dbus.OnlyDelivered()
      ensures revents.readable && !close ==>
                client.Deciding() || client.sock.blockedReads > old(client.sock.blockedReads)
      ensures revents.readable && !close ==>
                rxPaused || client.sock.blockedReads > old(client.sock.blockedReads)
                || dbus.bus.batches != old(dbus.bus.batches)
      ensures !revents.readable ==> client.sock.consumed == old(client.sock.consumed) && rxPaused == old(rxPaused)
      ensures !revents.writable ==> client.tx.sent == old(client.tx.sent)
      ensures revents.writable && !close ==>
                client.tx.len == 0 || client.sock.blockedSends > old(client.sock.blockedSends)
      ensures revents.hangup && client.tx.len == 0 ==> close
      ensures close ==>
                (revents.readable && client.sock.incoming == [])
                || client.sock.failures > old(client.sock.failures)
                || (revents.hangup && client.tx.len == 0)
      ensures old(Retrying()) && revents.readable && !close ==>
                (Wedged() <==> old(client.MsgLen()) + 2 > client.rx.data.Length)
      ensures old(Wedged()) ==> client.sock.consumed == old(client.sock.consumed) && Wedged()
    {
      hide Decode, Splice, Wire, Ring, AllFit, Flat, Replied, JsonArray, RestIs, Client.RxValid, TxBuffer.Valid,
           Bus.Valid, RxBuffer.Valid;
      close := false;
      if Retrying() {
        EmptyBufferTakes(client);
      }
      if revents.readable {
        close := HandleReadable();
      }
      if revents.writable && !close {
        close := HandleWritable();
      }
      if revents.hangup && client.tx.len == 0 {
        close := true;
      }
      if !close {
        UpdateIoEvents();
      }
    }

    /** poll(timeout) on /cli{id}. */
    method HandlePoll(timeout: int) returns (v: Verdict)
      requires Idle()
      modifies `rxPaused, `enabled, `wantsIn, `wantsOut, client`rxPaused, dbus.queue, dbus.queue.data, dbus.poll,
               dbus.bus
      ensures Idle() && dbus.Treated(v, timeout)
      ensures v == Batch ==> client.rx.queue == [] && !rxPaused
      ensures v != Batch ==> client.rx.queue == old(client.rx.queue) && rxPaused == old(rxPaused)
      ensures old(rxPaused) && v == Batch ==>
                Retrying() && (client.rx.CanFit(client.MsgLen()) <==> client.MsgLen() + 2 <= client.rx.data.Length)
      ensures old(rxPaused) && 0 <= timeout <= MAX_POLL_TIMEOUT_MS && MAX_MESSAGE_LEN + 2 <= client.rx.data.Length ==>
                v == Batch && Listening() && client.rx.CanFit(client.MsgLen())
      ensures old(Wedged()) ==> Wedged() && v != Batch
    {
      hide TxBuffer.Valid, Decode, Splice, Wire, Ring, AllFit, Flat, Replied, JsonArray;
      v := dbus.HandlePollRequest(timeout);
      if v == Batch {
        OnRxDrained();
      }
    }

    /** The timeout of the held poll expired. */
    method HandleTimeout()
      requires Idle() && dbus.poll.timer
      modifies dbus.poll, dbus.bus
      ensures Idle() && !dbus.poll.Pending() && dbus.bus.asked == old(dbus.bus.asked)
      ensures dbus.bus.replies == old(dbus.bus.replies) + [Answer(old(dbus.poll.msg).value, JsonArray([]))]
      ensures old(Wedged()) ==> Wedged()
    {
      hide TxBuffer.Valid, Decode, Splice, Wire, Ring, AllFit, Flat, Replied, JsonArray, RestIs;
      dbus.OnTimeout();
    }

    /** push(msg) on /cli{id}: the empty reply means queued. */
    method HandlePush(msg: Bytes) returns (reply: string)
      requires Idle()
      modifies `enabled, `wantsIn, `wantsOut, client.tx, client.tx.data
      ensures Idle() && client.tx.sent == old(client.tx.sent)
      ensures reply == "" <==>
                |msg| <= MAX_MESSAGE_LEN && old(client.tx.len) + HEADER_LEN + |msg| <= client.tx.data.Length
      ensures reply != "" ==> reply == if |msg| > MAX_MESSAGE_LEN then TOO_LONG else NO_ROOM
      ensures client.tx.accepted == old(client.tx.accepted) + if reply == "" then [msg] else []
      ensures old(Wedged()) ==> Wedged()
    {
      hide TxBuffer.Valid, Client.RxValid, Bus.Valid, AllFit, Decode, Splice, Wire, Ring, Flat, Replied, JsonArray,
           RestIs;
      var r := client.Push(msg);
      match r {
        case Accepted =>
          UpdateIoEvents();
          reply := "";
        case Refused(TooLong) => reply := TOO_LONG;
        case Refused(_) => reply := NO_ROOM;
        case NotConnected => reply := "client gone";
      }
    }

    /** Nothing is queued, and the next readable event decides again about the
        frame whose header is in. */
    ghost predicate Retrying()
      reads this, client, client.rx
    {
      client.Deciding() && !rxPaused && client.rx.queue == []
    }

    /** Reading is suspended and there is nothing a poll could drain. */
    ghost predicate Wedged()
      reads this, client, client.rx
    {
      rxPaused && client.rx.queue == []
    }
  }

  /** One connection from the event loop's side: whatever callbacks come, in
      whatever order, the books stay balanced. */
  method Serve(s: ClientSession, rounds: nat) returns (closed: bool)
    requires s.Idle()
    modifies s, s.client, s.client.sock, s.client.header, s.client.scratch, s.client.rx, s.client.rx.data,
             s.client.tx, s.client.tx.data, s.dbus.poll, s.dbus.bus
    ensures s.Valid() && (!closed ==> s.Idle())
    ensures s.client.sock.consumed + s.client.sock.incoming == old(s.client.sock.consumed + s.client.sock.incoming)
    ensures Flat(s.dbus.bus.batches) + s.client.rx.queue == Decode(s.client.sock.consumed).messages
    ensures s.client.sock.outgoing + s.client.tx.Contents() == Wire(s.client.tx.accepted)
    ensures old(s.Wedged()) ==> s.client.sock.consumed == old(s.client.sock.consumed)
  {
    hide Bus.Valid, RxBuffer.Valid, AllFit, Decode, Splice, Wire, Ring, Flat, Replied, JsonArray, RestIs;
    closed := false;
    var left := rounds;
    while left > 0 && !closed
      invariant s.Valid() && (!closed ==> s.Idle())
      invariant s.client.sock.consumed + s.client.sock.incoming == old(s.client.sock.consumed + s.client.sock.incoming)
      invariant old(s.Wedged()) ==> s.client.sock.consumed == old(s.client.sock.consumed) && (!closed ==> s.Wedged())
    {
      left := left - 1;
      var which: nat := *;
      if which == 0 {
        var revents: Revents := *;
        closed := s.HandleIo(revents);
      } else if which == 1 {
        var timeout: int := *;
        var v := s.HandlePoll(timeout);
      } else if which == 2 {
        if s.dbus.poll.timer {
          s.HandleTimeout();
        }
      } else {
        var msg: Bytes := *;
        var reply := s.HandlePush(msg);
      }
    }
  }

  /** A suspended reader is waiting for a poll that will find messages and will be
      answered at once - unless the frame is too long for the whole buffer. */
  lemma SuspendedMeansPollable(s: ClientSession)
    requires s.Idle() && s.rxPaused
    ensures s.client.MsgLen() + 2 <= s.client.rx.data.Length ==> s.client.rx.queue != [] && !s.dbus.poll.Pending()
    ensures s.Wedged() ==> s.client.MsgLen() + 2 > s.client.rx.data.Length
  {
  }

  /** With nothing queued, the frame being decided fits exactly if the whole buffer
      could hold it. The smallest configurable capacity, 64, refuses 63 bytes. */
  lemma EmptyBufferTakes(c: Client)
    requires c.Valid() && c.Deciding() && c.rx.queue == []
    ensures c.rx.CanFit(c.MsgLen()) <==> c.MsgLen() + 2 <= c.rx.data.Length
    ensures c.rx.data.Length == 64 && c.MsgLen() == 63 ==> !c.rx.CanFit(c.MsgLen())
  {
    hide Decode, Splice, Wire, Ring, AllFit;
  }

  /** What the bytes behind a storable header decode to, at a border of frames. */
  lemma DecodeBehindHeader(before: Bytes, n: nat, x: Bytes)
    requires Decode(before).rest == [] && Storable(n)
    ensures var d := Decode(before + (Header(n) + x)); var i := |Decode(before).messages|;
            if |x| < n then d.rest == Header(n) + x else i < |d.messages| && d.messages[i] == x[..n]
  {
    hide Split, Wire, Kept;
    var frame := Header(n) + x;
    DecodeInPieces(before, frame);
    assert [] + frame == frame;
    HeaderValueOfHeader(n);
    assert frame[..HEADER_LEN] == Header(n);
    if |x| < n {
      PartialFrame(frame);
    } else {
      assert frame == (Header(n) + x[..n]) + x[n..];
      DecodeInPieces(Header(n) + x[..n], x[n..]);
      WholeFrame(Header(n), x[..n]);
    }
  }

  /** A byte behind the header of a storable frame is read only if the frame fits
      the emptied buffer. */
  lemma ReadBehindFits(c: Client, before: Bytes, n: nat, x: Bytes)
    requires c.Valid() && Decode(before).rest == [] && Storable(n) && x != []
    requires c.sock.consumed == before + (Header(n) + x)
    ensures n + 2 <= c.rx.data.Length
  {
    hide Decode, Wire, Splice, Ring, TxBuffer.Valid;
    DecodeBehindHeader(before, n, x);
    HeaderValueOfHeader(n);
    var d := Decode(c.sock.consumed);
    if |x| < n {
      assert d.rest[..HEADER_LEN] == Header(n);
      assert (c.header[..] + c.rx.Tail())[..HEADER_LEN] == c.header[..];
    } else {
      assert (c.rx.delivered + c.rx.queue)[|Decode(before).messages|] == x[..n];
    }
  }

  /** At the header of a frame that does not fit, the decision about it is open. */
  lemma AtHeader(c: Client, before: Bytes, n: nat)
    requires c.Valid() && Decode(before).rest == [] && Storable(n) && n + 2 > c.rx.data.Length
    requires c.sock.consumed == before + Header(n)
    ensures c.Deciding() && c.MsgLen() == n
    ensures before == [] ==> c.rx.delivered == c.rx.queue == []
  {
    hide Wire, Splice, Ring, AllFit, TxBuffer.Valid, Split, Kept;
    DecodeInPieces(before, Header(n));
    assert [] + Header(n) == Header(n);
    HeaderValueOfHeader(n);
    assert Header(n)[..HEADER_LEN] == Header(n);
    PartialFrame(Header(n));
    PartialFrame([]);
    assert Decode(c.sock.consumed).rest == Header(n);
    assert before == [] ==> |c.rx.delivered + c.rx.queue| == 0;
    assert c.header[..HEADER_LEN] == c.header[..];
  }

  /** A frame that is longer than the buffer stops its connection for good: in no
      state of any run is a byte read behind its header. Once the header is in, the
      session is suspended, or about to be; if it is the first frame, it is wedged. */
  lemma OverlongFrameBlocks(s: ClientSession, before: Bytes, n: nat, behind: Bytes)
    requires s.Valid() && Decode(before).rest == [] && Storable(n) && n + 2 > s.client.rx.data.Length
    requires s.client.sock.consumed + s.client.sock.incoming == before + Header(n) + behind
    ensures |s.client.sock.consumed| <= |before| + HEADER_LEN
    ensures |s.client.sock.consumed| == |before| + HEADER_LEN ==> s.client.Deciding() && s.client.MsgLen() == n
    ensures s.Idle() && |s.client.sock.consumed| == |before| + HEADER_LEN ==> s.rxPaused || s.Retrying()
    ensures s.Idle() && |s.client.sock.consumed| == HEADER_LEN && before == [] ==> s.Wedged()
  {
    hide Wire, Splice, Ring, Flat, Replied, JsonArray, Bus.Valid, TxBuffer.Valid, AllFit, Decode, RestIs,
         Client.Valid;
    var got := s.client.sock.consumed;
    var all := before + Header(n) + behind;
    assert got == all[..|got|];
    if |got| > |before| + HEADER_LEN {
      var x := got[|before| + HEADER_LEN..];
      assert got == before + (Header(n) + x);
      ReadBehindFits(s.client, before, n, x);
      assert false;
    } else if |got| == |before| + HEADER_LEN {
      assert got == before + Header(n);
      AtHeader(s.client, before, n);
      SuspendedWithoutBatch(s);
    }
  }

  /** With no batch delivered yet, an open decision is a suspension, and nothing is
      queued if nothing has come. */
  lemma SuspendedWithoutBatch(s: ClientSession)
    ensures s.Idle() && s.client.Deciding() ==> s.rxPaused || s.Retrying()
    ensures s.Idle() && s.client.Deciding() && s.client.rx.delivered == [] ==> s.rxPaused
  {
    hide Decode, Splice, Wire, Ring, Flat, Replied, JsonArray, RestIs, AllFit;
  }

  /** Within the first header nothing is decided. */
  lemma DecidingMeansHeader(c: Client)
    requires c.Valid() && c.Deciding()
    ensures HEADER_LEN <= |c.sock.consumed|
  {
    hide Wire, Splice, Ring, AllFit, TxBuffer.Valid, Kept;
  }

  /** The smallest configurable buffer, 64 bytes, meets a frame of 63: unless the
      socket fails or would block within the header, one readable event wedges it. */
  method SmallestBufferWedges(fd: nat, sock: Socket, ghost behind: Bytes) returns (s: ClientSession, closed: bool)
    requires sock.consumed == [] && sock.outgoing == [] && sock.incoming == Header(63) + behind
    modifies sock
    ensures s.Valid() && s.client.sock == sock && |sock.consumed| <= HEADER_LEN
    ensures closed ==> sock.failures > old(sock.failures) || behind == []
    ensures !closed ==> s.Wedged() || sock.blockedReads > old(sock.blockedReads)
  {
    hide Decode, Splice, Wire, Ring, Flat, Replied, JsonArray, RestIs, AllFit;
    s := new ClientSession(fd, sock, 64, 0);
    closed := s.HandleIo(Revents(true, false, false));
    PartialFrame([]);
    assert [] + Header(63) == Header(63);
    OverlongFrameBlocks(s, [], 63, behind);
    if s.client.Deciding() {
      DecidingMeansHeader(s.client);
    }
  }

  /** The buffer sizes with which no legal frame can wedge a session. The default
      of 16,000,000 bytes is one. */
  lemma SafeCapacity(capacity: nat)
    ensures (forall n: nat :: Storable(n) ==> n + 2 <= capacity) <==> MAX_MESSAGE_LEN + 2 <= capacity
  {
    assert Storable(MAX_MESSAGE_LEN);
  }
}
