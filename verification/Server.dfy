/** The daemon's client registry, its control messages, and the script's copy of
    the registry (daemon/src/server.cpp, daemon/src/daemon_dbus_object.cpp,
    kwinscript/src/clients.ts). */
module Registry {
  import opened Framing
  import opened RxQueue
  import opened JsonText
  import opened DBusPoll

  datatype ControlEvent = Connected(id: nat) | Disconnected(id: nat)

  /** The set of client ids after `events`, from `ids` on. */
  ghost function Follow(ids: set<nat>, events: seq<ControlEvent>): set<nat> {
    if events == [] then ids
    else
      var before := Follow(ids, events[..|events| - 1]);
      match events[|events| - 1]
      case Connected(id) => before + {id}
      case Disconnected(id) => before - {id}
  }

  lemma FollowSnoc(ids: set<nat>, events: seq<ControlEvent>, e: ControlEvent)
    ensures Follow(ids, events + [e])
              == if e.Connected? then Follow(ids, events) + {e.id} else Follow(ids, events) - {e.id}
  {
    assert (events + [e])[..|events|] == events;
  }

  lemma Added<T>(was: seq<T>, since: seq<T>, more: seq<T>)
    ensures (was + since) + more == was + (since + more) && (since + more)[..|since|] == since
    ensures was <= was + since && (was + since)[|was|..] == since
  {
  }

  lemma DropKey<K, V>(m: map<K, V>, k: K)
    ensures (m - {k}).Keys == m.Keys - {k} && |m - {k}| <= |m|
  {
    assert |(m - {k}).Keys| <= |m.Keys|;
  }

  lemma {:induction false} FollowAppend(ids: set<nat>, a: seq<ControlEvent>, b: seq<ControlEvent>)
    ensures Follow(ids, a + b) == Follow(Follow(ids, a), b)
  {
    if b == [] {
      assert a + b == a;
    } else {
      assert (a + b)[..|a + b| - 1] == a + b[..|b| - 1];
      FollowAppend(ids, a, b[..|b| - 1]);
    }
  }

  // ---- the text of a control message ------------------------------------------

  function Decimal(n: nat): (d: Bytes)
    ensures d != [] && forall c :: c in d ==> 0x30 <= c <= 0x39
  {
    if n < 10 then [(0x30 + n) as byte] else Decimal(n / 10) + [(0x30 + n % 10) as byte]
  }

  function Power10(k: nat): nat {
    if k == 0 then 1 else 10 * Power10(k - 1)
  }

  lemma {:induction false} DecimalLength(n: nat, k: nat)
    requires 0 < k
    ensures |Decimal(n)| <= k <==> n < Power10(k)
  {
    if n >= 10 && k > 1 {
      DecimalLength(n / 10, k - 1);
    } else if n >= 10 {
      assert Power10(1) == 10 * Power10(0);
    } else {
      Power10Positive(k - 1);
    }
  }

  lemma {:induction false} Power10Positive(k: nat)
    ensures 1 <= Power10(k)
  {
    if k > 0 {
      Power10Positive(k - 1);
    }
  }

  function EventName(e: ControlEvent): Bytes {
    match e
    case Connected(_) => Ascii("client_connected")
    case Disconnected(_) => Ascii("client_disconnected")
  }

  function MessageText(name: Bytes, id: nat): Bytes {
    Ascii("{\"event\":\"") + name + Ascii("\",\"id\":") + Decimal(id) + Ascii("}")
  }

  function ControlMessage(e: ControlEvent): Bytes { MessageText(EventName(e), e.id) }

  lemma ControlLength(e: ControlEvent)
    ensures |ControlMessage(e)| == |EventName(e)| + |Decimal(e.id)| + 18
    ensures |EventName(e)| == if e.Connected? then 16 else 19
  {
    assert |Ascii("{\"event\":\"")| == 10 && |Ascii("\",\"id\":")| == 7;
  }

  ghost function Texts(events: seq<ControlEvent>): (ts: seq<Bytes>)
    ensures |ts| == |events| && forall i :: 0 <= i < |ts| ==> ts[i] == ControlMessage(events[i])
  {
    seq(|events|, i requires 0 <= i < |events| => ControlMessage(events[i]))
  }

  /** An object of two members without blanks, the first a string. */
  ghost function TwoMemberObject(k1: Bytes, s: Bytes, k2: Bytes, n: Bytes): Value {
    Object(More(Key([], k1, []), Padded([], Text(s), []), One(Key([], k2, []), Padded([], Scalar(n), []))))
  }

  ghost function AsJson(e: ControlEvent): Padded {
    Padded([], TwoMemberObject(Ascii("event"), EventName(e), Ascii("id"), Decimal(e.id)), [])
  }

  lemma {:induction false} InsideLetters(s: Bytes)
    requires forall i :: 0 <= i < |s| ==> s[i] != QUOTE && s[i] != BACKSLASH
    ensures Inside(s)
  {
    if s != [] {
      InsideLetters(s[1..]);
    }
  }

  lemma BareKey(i: Bytes)
    ensures WrittenKey(Key([], i, [])) == [QUOTE] + i + [QUOTE, COLON]
  {
  }

  lemma BareValue(v: Value)
    ensures WrittenPadded(Padded([], v, [])) == Written(v)
  {
  }

  lemma TwoMembers(k1: Bytes, s: Bytes, k2: Bytes, n: Bytes)
    ensures Written(TwoMemberObject(k1, s, k2, n))
         == ([LBRACE, QUOTE] + k1 + [QUOTE, COLON, QUOTE]) + s + ([QUOTE, COMMA, QUOTE] + k2 + [QUOTE, COLON])
            + n + [RBRACE]
  {
    BareKey(k1);
    BareKey(k2);
    BareValue(Text(s));
    BareValue(Scalar(n));
    hide WrittenKey, WrittenPadded;
    var last := One(Key([], k2, []), Padded([], Scalar(n), []));
    assert WrittenList(last) == [QUOTE] + k2 + [QUOTE, COLON] + n;
  }

  lemma MessageParts()
    ensures Ascii("{\"event\":\"") == [LBRACE, QUOTE] + Ascii("event") + [QUOTE, COLON, QUOTE]
    ensures Ascii("\",\"id\":") == [QUOTE, COMMA, QUOTE] + Ascii("id") + [QUOTE, COLON]
    ensures Ascii("}") == [RBRACE]
    ensures Inside(Ascii("event")) && Inside(Ascii("id"))
  {
    LettersFit("event");
    LettersFit("id");
  }

  lemma TwoMembersFit(k1: Bytes, s: Bytes, k2: Bytes, n: Bytes)
    requires Inside(k1) && Inside(s) && Inside(k2) && n != [] && Plain(n)
    ensures WellFormed(TwoMemberObject(k1, s, k2, n))
  {
    assert WellFormedPadded(Padded([], Text(s), []));
    assert WellFormedPadded(Padded([], Scalar(n), []));
    assert WellFormedList(One(Key([], k2, []), Padded([], Scalar(n), [])));
  }

  lemma ControlIsWritten(e: ControlEvent)
    ensures WrittenPadded(AsJson(e)) == ControlMessage(e)
  {
    hide Ascii, Decimal, EventName, Inside, Written, WrittenPadded, WrittenList, WellFormed;
    MessageParts();
    BareValue(AsJson(e).value);
    TwoMembers(Ascii("event"), EventName(e), Ascii("id"), Decimal(e.id));
  }

  lemma LettersFit(s: string)
    requires forall c :: c in s ==> c == '_' || 'a' <= c <= 'z'
    ensures Inside(Ascii(s))
  {
    forall i | 0 <= i < |s| ensures Ascii(s)[i] != QUOTE && Ascii(s)[i] != BACKSLASH {
      assert s[i] in s;
    }
    InsideLetters(Ascii(s));
  }

  lemma EventNameFits(e: ControlEvent)
    ensures Inside(EventName(e))
  {
    hide Ascii, Inside;
    LettersFit("client_connected");
    LettersFit("client_disconnected");
  }

  lemma ControlFits(e: ControlEvent)
    ensures WellFormedPadded(AsJson(e))
  {
    EventNameFits(e);
    MessageParts();
    assert Plain(Decimal(e.id)) && Blank([]);
    hide Ascii, Decimal, EventName, Inside, Plain, Blank, WellFormed;
    TwoMembersFit(Ascii("event"), EventName(e), Ascii("id"), Decimal(e.id));
  }

  // ---- the bounded control queue -------------------------------------------------

  const CONTROL_QUEUE_CAP := 131_072
  const WORD64 := 0x1_0000_0000_0000_0000

  /** How many control messages always fit. */
  const CONTROL_BOUND := 2_259

  lemma IdLength(id: nat)
    requires id < WORD64
    ensures |Decimal(id)| <= 20
  {
    DecimalLength(id, 20);
    assert Power10(10) == 10_000_000_000;
    assert Power10(15) == 1_000_000_000_000_000;
    assert Power10(20) == 100_000_000_000_000_000_000;
  }

  lemma TextsSnoc(events: seq<ControlEvent>, e: ControlEvent)
    ensures Texts(events + [e]) == Texts(events) + [ControlMessage(e)]
  {
    hide ControlMessage;
  }

  /** The longest message is a disconnect with a 20-digit id. */
  lemma MessageLength(e: ControlEvent)
    requires e.id < WORD64
    ensures |ControlMessage(e)| <= 57
    ensures e.Disconnected? && Power10(19) <= e.id ==> |ControlMessage(e)| == 57
  {
    hide Power10;
    ControlLength(e);
    hide ControlMessage, EventName, Decimal, Ascii;
    IdLength(e.id);
    DecimalLength(e.id, 19);
  }

  lemma SpliceGrows(events: seq<ControlEvent>)
    requires events != []
    ensures var n := |events| - 1;
            |Splice(Texts(events))| == |Splice(Texts(events[..n]))| + |ControlMessage(events[n])| + 1
  {
    hide ControlMessage;
    assert Texts(events)[..|events| - 1] == Texts(events[..|events| - 1]);
  }

  lemma {:induction false} SpliceOfTexts(events: seq<ControlEvent>)
    requires forall e :: e in events ==> e.id < WORD64
    ensures |Splice(Texts(events))| <= 1 + 58 * |events|
  {
    hide ControlMessage;
    if events != [] {
      SpliceGrows(events);
      assert events[|events| - 1] in events;
      MessageLength(events[|events| - 1]);
      hide Splice, Texts;
      SpliceOfTexts(events[..|events| - 1]);
    }
  }

  // ---- the server ------------------------------------------------------------------

  /** The listening socket: connections in its backlog, signals still to come. */
  class Listener {
    var backlog: nat
    var interrupts: nat
    ghost var handed: seq<nat>   // the connections handed out so far
    ghost var ended: nat         // how often there was none to hand out

    method Accept() returns (r: AcceptResult)
      modifies this
      ensures backlog <= old(backlog) && interrupts <= old(interrupts)
      ensures r.Connection? ==> backlog < old(backlog)
      ensures handed == if r.Connection? then old(handed) + [r.fd] else old(handed)
      ensures ended == old(ended) + if r.WouldBlock? || r.Failed? then 1 else 0
      ensures r.Interrupted? ==> interrupts < old(interrupts)
    {
      if * {
        if 0 < interrupts {
          interrupts := interrupts - 1;
          return Interrupted;
        }
      }
      if * {
        ended := ended + 1;
        return Failed;
      }
      if 0 < backlog {
        backlog := backlog - 1;
        var fd: nat := *;
        handed := handed + [fd];
        return Connection(fd);
      }
      ended := ended + 1;
      return WouldBlock;
    }
  }

  datatype AcceptResult = Connection(fd: nat) | Interrupted | WouldBlock | Failed

  /** `part` is what is left of `whole` after dropping some events. */
  ghost predicate Thinned(part: seq<ControlEvent>, whole: seq<ControlEvent>) {
    if whole == [] then part == []
    else
      Thinned(part, whole[..|whole| - 1])
      || (part != [] && part[|part| - 1] == whole[|whole| - 1] && Thinned(part[..|part| - 1], whole[..|whole| - 1]))
  }

  /** Connections get ever higher ids, below `next`; none is announced twice. */
  ghost predicate IdsRise(events: seq<ControlEvent>, next: nat) {
    && (forall i :: 0 <= i < |events| ==> 1 <= events[i].id < next)
    && (forall i, j :: 0 <= i < j < |events| && events[i].Connected? && events[j].Connected? ==>
          events[i].id < events[j].id)
  }

  /** What became of the connections `fds`, which came in since `next` was the next
      id and `before` the sessions: the first got the ids from `next` on, in order,
      and are registered with them unless their setup failed; the others found the
      server full and were closed. */
  ghost predicate Placed(fds: seq<nat>, next: nat, before: map<nat, nat>, closed: seq<nat>, s: Server)
    reads s
  {
    && PlacedUpTo(fds, next, before, s.nextId, s.sessions, s.failed)
    && closed == fds[s.nextId - next..]
    && (closed != [] ==> |s.sessions| == s.maxClients)
  }

  ghost predicate PlacedUpTo(fds: seq<nat>, next: nat, before: map<nat, nat>,
                             upTo: nat, sessions: map<nat, nat>, failed: set<nat>)
  {
    && next <= upTo <= next + |fds|
    && (forall id :: id in before ==> id in sessions && sessions[id] == before[id])
    && (forall id :: id in sessions && id !in before ==> next <= id < upTo && sessions[id] == fds[id - next])
    && (forall id :: next <= id < upTo ==> (id in sessions <==> id !in failed))
  }

  /** One more connection came in; nothing was done about it yet. */
  lemma PlacedBefore(fds: seq<nat>, fd: nat, next: nat, before: map<nat, nat>,
                     upTo: nat, sessions: map<nat, nat>, failed: set<nat>)
    requires PlacedUpTo(fds, next, before, upTo, sessions, failed)
    ensures PlacedUpTo(fds + [fd], next, before, upTo, sessions, failed)
  {
  }

  /** ... and now it has got the next id. */
  lemma PlacedNext(fds: seq<nat>, next: nat, before: map<nat, nat>,
                   upTo: nat, sessions: map<nat, nat>, failed: set<nat>, now: map<nat, nat>, failedNow: set<nat>)
    requires PlacedUpTo(fds, next, before, upTo, sessions, failed) && upTo < next + |fds|
    requires upTo !in sessions && upTo !in failed && upTo !in before
    requires failedNow == failed || failedNow == failed + {upTo}
    requires now == if upTo in failedNow then sessions else sessions[upTo := fds[upTo - next]]
    ensures PlacedUpTo(fds, next, before, upTo + 1, now, failedNow)
  {
  }

  /** The connects announced for the ids from `a` up to `b`: of all whose session
      could be set up, in order. */
  ghost function Joins(a: nat, b: nat, failed: set<nat>): seq<ControlEvent>
    requires a <= b
  {
    if a == b then [] else Joins(a, b - 1, failed) + if b - 1 in failed then [] else [Connected(b - 1)]
  }

  lemma {:induction false} JoinsOnlySee(a: nat, b: nat, failed: set<nat>, id: nat)
    requires a <= b <= id
    ensures Joins(a, b, failed + {id}) == Joins(a, b, failed)
  {
    if a < b {
      JoinsOnlySee(a, b - 1, failed, id);
    }
  }

  class Server {
    const maxClients: nat
    const daemon: PollObject
    var nextId: nat
    var sessions: map<nat, nat>            // client id -> its socket
    ghost var emitted: seq<ControlEvent>   // every connect and disconnect
    ghost var kept: seq<ControlEvent>      // those the control queue had room for
    ghost var rejected: seq<nat>           // connections closed because of the limit
    ghost var failed: set<nat>             // ids whose session could not be set up

    /** The control queue and the history of events agree. */
    ghost predicate Books()
      reads `emitted, `kept, `nextId, daemon, daemon.queue, daemon.queue.data, daemon.poll, daemon.bus
    {
      && daemon.Valid() && daemon.Settled()
      && daemon.queue.data.Length == CONTROL_QUEUE_CAP && daemon.queue.len == daemon.queue.completeLen
      && daemon.queue.History() == Texts(kept)
      && Thinned(kept, emitted) && |kept| <= |emitted| && (|kept| == |emitted| ==> kept == emitted)
      && 1 <= nextId && IdsRise(emitted, nextId) && IdsRise(kept, nextId)
    }

    /** ... and so do the events and the sessions. */
    ghost predicate Valid()
      reads `emitted, `kept, `nextId, `sessions, `failed,
            daemon, daemon.queue, daemon.queue.data, daemon.poll, daemon.bus
    {
      && Books()
      && (forall id :: id in failed ==> id < nextId)
      && Follow({}, emitted) == sessions.Keys
      && (forall id :: id in sessions ==> 1 <= id < nextId)
      && |sessions| <= maxClients
    }

    constructor (maxClients: int)
      ensures Valid() && sessions == map[] && emitted == [] && failed == {}
      ensures this.maxClients == if maxClients > 0 then maxClients else 64
      ensures fresh(daemon) && fresh(daemon.queue) && fresh(daemon.queue.data) && fresh(daemon.poll)
                && fresh(daemon.bus)
    {
      hide Splice;
      this.maxClients := if maxClients > 0 then maxClients else 64;
      var queue := new RxBuffer(CONTROL_QUEUE_CAP);
      daemon := new PollObject(queue);
      nextId, sessions, emitted, kept, rejected, failed := 1, map[], [], [], [], {};
      new;
      assert Texts([]) == [];
    }

    /** Append a payload to the control queue, or drop it if there is no room, and
        answer a held poll at once. */
    method EnqueueControl(payload: Bytes) returns (ok: bool)
      requires daemon.Valid() && daemon.Settled() && daemon.queue.len == daemon.queue.completeLen
      modifies daemon.queue, daemon.queue.data, daemon.poll, daemon.bus
      ensures daemon.Valid() && daemon.Settled() && daemon.queue.len == daemon.queue.completeLen
      ensures ok == old(daemon.queue.CanFit(|payload|))
      ensures daemon.queue.History() == old(daemon.queue.History()) + if ok then [payload] else []
      ensures daemon.OnlyDelivered()
      ensures ok && old(daemon.poll.Pending()) ==>
                !daemon.poll.Pending() && daemon.queue.queue == [] && daemon.bus.asked == old(daemon.bus.asked)
                && daemon.bus.replies == old(daemon.bus.replies)
                                         + [Answer(old(daemon.poll.msg).value, JsonArray([payload]))]
      ensures ok && !old(daemon.poll.Pending()) ==> daemon.queue.queue == old(daemon.queue.queue) + [payload]
      ensures !ok ==> daemon.queue.queue == old(daemon.queue.queue)
      ensures !(ok && old(daemon.poll.Pending())) ==> unchanged(daemon.poll) && unchanged(daemon.bus)
    {
      hide Splice, Flat, Replied, JsonArray, Bus.Valid;
      assert daemon.queue.Tail() + payload == payload;
      ok := daemon.queue.Append(payload);
      if ok {
        assert daemon.queue.Tail() == [];
        assert daemon.poll.Pending() ==> daemon.queue.queue == [payload];
        var drained := daemon.MaybeReplyPendingPoll();
      }
    }

    /** The message for an event is queued iff there is room for it, and there is room
        if fewer than 2,259 are queued and the ids have at most 20 digits. */
    twostate predicate Queued(new e: ControlEvent)
      reads `kept, `nextId, daemon, daemon.queue, daemon.poll, daemon.bus
    {
      && daemon.bus.asked == old(daemon.bus.asked) && daemon.OnlyDelivered()
      && kept == old(kept) + (if old(daemon.queue.CanFit(|ControlMessage(e)|)) then [e] else [])
      && |daemon.queue.queue| <= |old(daemon.queue.queue)| + 1
      && (nextId <= WORD64 && |old(daemon.queue.queue)| < CONTROL_BOUND ==> kept == old(kept) + [e])
    }

    /** Queue the message for one event. */
    method QueueControl(e: ControlEvent)
      requires Books() && 1 <= e.id < nextId
      requires e.Connected? ==> e.id == nextId - 1 && IdsRise(emitted, e.id) && IdsRise(kept, e.id)
      modifies `emitted, `kept, daemon.queue, daemon.queue.data, daemon.poll, daemon.bus
      ensures Books() && emitted == old(emitted) + [e]
      ensures Queued(e)
    {
      hide Splice, Decimal, EventName, Ascii, Flat, Replied, JsonArray, Power10, ControlMessage, Thinned, Follow,
           IdsRise, Texts, Bus.Valid, RxBuffer.Valid, PollObject.OnlyDelivered;
      if nextId <= WORD64 {
        QueueHasRoom(e);
      }
      Extended(kept, emitted, e);
      RisesWith(emitted, e, nextId);
      RisesWith(kept, e, nextId);
      var ok := EnqueueControl(ControlMessage(e));
      emitted := emitted + [e];
      if ok {
        TextsSnoc(kept, e);
        kept := kept + [e];
      }
    }

    /** With fewer than 2,259 messages queued there is room for one more. */
    lemma QueueHasRoom(e: ControlEvent)
      requires Books() && nextId <= WORD64 && 1 <= e.id < nextId
      ensures |daemon.queue.queue| < CONTROL_BOUND ==> daemon.queue.CanFit(|ControlMessage(e)|)
    {
      var d := |daemon.queue.delivered|;
      var waiting := kept[d..];
      assert daemon.queue.queue == daemon.queue.History()[d..] == Texts(waiting);
      SpliceOfTexts(waiting);
      IdLength(e.id);
      ControlLength(e);
    }

    lemma Limited()
      requires Valid()
      ensures |sessions| <= maxClients && (forall id :: id in sessions ==> id < nextId)
      ensures nextId !in failed && nextId !in sessions
    {
    }

    lemma NoneYet()
      requires Valid()
      ensures Placed([], nextId, sessions, [], this) && Announced(nextId, emitted, kept, |daemon.queue.queue|)
    {
    }

    /** All the connects since `next`, those in `was` having happened before, are in
        the books; and none was dropped if the control queue, then with `queued`
        messages, was sure to have the room. */
    ghost predicate Announced(next: nat, was: seq<ControlEvent>, wasKept: seq<ControlEvent>, queued: nat)
      reads `nextId, `emitted, `kept, `failed, daemon, daemon.queue
    {
      && next <= nextId
      && emitted == was + Joins(next, nextId, failed)
      && |daemon.queue.queue| <= queued + (nextId - next)
      && (queued + (nextId - next) <= CONTROL_BOUND && nextId <= WORD64 ==>
            kept == wasKept + Joins(next, nextId, failed))
    }

    /** Take every connection waiting on the listening socket. */
    method AcceptClients(listener: Listener)
      requires Valid()
      modifies `nextId, `sessions, `emitted, `kept, `rejected, `failed, listener,
               daemon.queue, daemon.queue.data, daemon.poll, daemon.bus
      ensures Valid() && listener.ended == old(listener.ended) + 1
      ensures old(listener.handed) <= listener.handed && old(rejected) <= rejected
      ensures Placed(listener.handed[|old(listener.handed)|..], old(nextId), old(sessions),
                     rejected[|old(rejected)|..], this)
      ensures Announced(old(nextId), old(emitted), old(kept), |old(daemon.queue.queue)|)
    {
      hide *;
      Limited();
      NoneYet();
      ghost var fds: seq<nat>, closed: seq<nat> := [], [];
      while true
        invariant Valid()
        invariant listener.ended == old(listener.ended)
        invariant listener.handed == old(listener.handed) + fds && rejected == old(rejected) + closed
        invariant Placed(fds, old(nextId), old(sessions), closed, this)
        invariant Announced(old(nextId), old(emitted), old(kept), |old(daemon.queue.queue)|)
        decreases listener.backlog, listener.interrupts
      {
        var r := listener.Accept();
        match r {
          case WouldBlock =>
            break;
          case Interrupted =>
          case Failed =>
            break;
          case Connection(fd) =>
            Added(old(listener.handed), fds, [fd]);
            fds := fds + [fd];
            ghost var more := Place(fd, fds, old(nextId), old(sessions), closed, old(emitted), old(kept),
                                    |old(daemon.queue.queue)|);
            Added(old(rejected), closed, more);
            closed := closed + more;
        }
      }
      Added(old(listener.handed), fds, []);
      Added(old(rejected), closed, []);
    }

    /** Admit one more connection, or close it because the limit is reached. */
    method Place(fd: nat, ghost fds: seq<nat>, ghost next: nat, ghost before: map<nat, nat>, ghost closed: seq<nat>,
                 ghost was: seq<ControlEvent>, ghost wasKept: seq<ControlEvent>, ghost queued: nat)
      returns (ghost more: seq<nat>)
      requires Valid() && fds != [] && fds[|fds| - 1] == fd
      requires Placed(fds[..|fds| - 1], next, before, closed, this) && forall id :: id in before ==> id < next
      requires Announced(next, was, wasKept, queued)
      modifies `nextId, `sessions, `emitted, `kept, `rejected, `failed,
               daemon.queue, daemon.queue.data, daemon.poll, daemon.bus
      ensures Valid() && Placed(fds, next, before, closed + more, this)
      ensures Announced(next, was, wasKept, queued)
      ensures rejected == old(rejected) + more
    {
      hide Server.Valid, Announced, Joins, PlacedUpTo;
      Limited();
      ghost var (id, atFirst, failedFirst) := (nextId, sessions, failed);
      assert fds == fds[..|fds| - 1] + [fd];
      PlacedRange(fds[..|fds| - 1], next, before);
      PlacedBefore(fds[..|fds| - 1], fd, next, before, id, sessions, failed);
      more := [];
      assert closed + more == closed;
      if |sessions| < maxClients {
        assert id == next + |fds| - 1;
        Announce(fd, next, was, wasKept, queued);
        PlacedNext(fds, next, before, id, atFirst, failedFirst, sessions, failed);
      } else {
        rejected := rejected + [fd];  // the connection is closed
        more := [fd];
      }
    }

    lemma PlacedRange(fds: seq<nat>, next: nat, before: map<nat, nat>)
      requires PlacedUpTo(fds, next, before, nextId, sessions, failed)
      ensures next <= nextId <= next + |fds|
    {
    }

    /** Admit a connection and keep the books of what was announced. */
    method Announce(fd: nat, ghost next: nat, ghost was: seq<ControlEvent>, ghost wasKept: seq<ControlEvent>,
                    ghost queued: nat)
      requires Valid() && |sessions| < maxClients && Announced(next, was, wasKept, queued)
      modifies `nextId, `sessions, `emitted, `kept, `failed, daemon.queue, daemon.queue.data, daemon.poll, daemon.bus
      ensures Valid() && nextId == old(nextId) + 1 && Announced(next, was, wasKept, queued)
      ensures failed == old(failed) || failed == old(failed) + {old(nextId)}
      ensures sessions == if old(nextId) in failed then old(sessions) else old(sessions)[old(nextId) := fd]
    {
      hide Server.Valid, Books, ControlMessage, PollObject.OnlyDelivered, RxBuffer.CanFit;
      JoinsOnlySee(next, nextId, failed, nextId);
      Admit(fd);
    }

    /** The session of a new connection: sockets, bus object and event source may
        fail to be set up. */
    method SetUp(id: nat) returns (ok: bool)
      modifies `failed
      ensures failed == if ok then old(failed) else old(failed) + {id}
    {
      if * {
        failed := failed + {id};
        return false;
      }
      return true;
    }

    /** Give a connection the next id and, unless its session cannot be set up,
        register and announce it. */
    method Admit(fd: nat)
      requires Valid() && |sessions| < maxClients
      modifies `nextId, `sessions, `emitted, `kept, `failed, daemon.queue, daemon.queue.data, daemon.poll, daemon.bus
      ensures Valid() && nextId == old(nextId) + 1
      ensures failed == old(failed) || failed == old(failed) + {old(nextId)}
      ensures old(nextId) in failed ==>
                sessions == old(sessions) && emitted == old(emitted) && kept == old(kept) && unchanged(daemon.queue)
      ensures old(nextId) !in failed ==>
                sessions == old(sessions)[old(nextId) := fd] && emitted == old(emitted) + [Connected(old(nextId))]
      ensures old(nextId) !in failed ==> Queued(Connected(old(nextId)))
    {
      hide Splice, Decimal, EventName, Ascii, Flat, Replied, JsonArray, Texts, Thinned, ControlMessage, IdsRise,
           Bus.Valid, RxBuffer.Valid, Follow;
      RisesOn(emitted, nextId);
      RisesOn(kept, nextId);
      var id := nextId;
      nextId := nextId + 1;
      var ok := SetUp(id);
      if !ok {
        return;
      }
      FollowSnoc({}, emitted, Connected(id));
      sessions := sessions[id := fd];
      QueueControl(Connected(id));
    }

    /** A session ended. */
    method OnClientDisconnected(id: nat)
      requires Valid()
      modifies `sessions, `emitted, `kept, daemon.queue, daemon.queue.data, daemon.poll, daemon.bus
      ensures Valid() && sessions == old(sessions) - {id}
      ensures emitted == old(emitted) + if id in old(sessions) then [Disconnected(id)] else []
      ensures if id in old(sessions) then Queued(Disconnected(id)) else kept == old(kept) && unchanged(daemon.queue)
    {
      hide Splice, Decimal, EventName, Ascii, Flat, Replied, JsonArray, Texts, Thinned, ControlMessage, Bus.Valid,
           RxBuffer.Valid, PollObject.Valid, PollObject.OnlyDelivered, Queued, Books, IdsRise, Follow;
      if id !in sessions {
        assert sessions == sessions - {id};
        return;
      }
      FollowSnoc({}, emitted, Disconnected(id));
      DropKey(sessions, id);
      QueueControl(Disconnected(id));
      sessions := sessions - {id};
    }

    /** poll(timeout) on /daemon. */
    method HandlePoll(timeout: int) returns (v: Verdict)
      requires Valid()
      modifies daemon.queue, daemon.queue.data, daemon.poll, daemon.bus
      ensures Valid()
      ensures daemon.Treated(v, timeout)
    {
      hide Splice, Decimal, EventName, Ascii, Flat, Replied, JsonArray, Texts, Thinned, ControlMessage, IdsRise;
      v := daemon.HandlePollRequest(timeout);
    }
  }

  lemma RisesOn(events: seq<ControlEvent>, next: nat)
    requires IdsRise(events, next)
    ensures IdsRise(events, next + 1)
  {
  }

  lemma RisesWith(events: seq<ControlEvent>, e: ControlEvent, next: nat)
    requires IdsRise(events, next) && 1 <= e.id < next
    requires e.Connected? ==> IdsRise(events, e.id)
    ensures IdsRise(events + [e], next)
  {
  }

  lemma Extended(part: seq<ControlEvent>, whole: seq<ControlEvent>, e: ControlEvent)
    requires Thinned(part, whole) && |part| <= |whole|
    ensures Thinned(part, whole + [e]) && Thinned(part + [e], whole + [e])
  {
    assert (whole + [e])[..|whole|] == whole;
    assert (part + [e])[..|part|] == part;
  }

  lemma DeliveredOrQueued(s: Server)
    requires s.Valid()
    ensures Flat(s.daemon.bus.batches) + s.daemon.queue.queue == Texts(s.kept)
    ensures |s.kept| == |s.emitted| ==> s.kept == s.emitted
    ensures Follow({}, s.emitted) == s.sessions.Keys
  {
    hide Splice, Flat, Texts, Thinned, IdsRise, Follow, Bus.Valid, RxBuffer.Valid;
  }

  /** Even when messages are dropped, those delivered and those queued are in the
      order of the events, and none is made up; ids only rise, and there are never
      more sessions than allowed. */
  lemma EventsKeepTheirOrder(s: Server)
    requires s.Valid()
    ensures exists kept :: Thinned(kept, s.emitted) && Flat(s.daemon.bus.batches) + s.daemon.queue.queue == Texts(kept)
    ensures IdsRise(s.emitted, s.nextId) && |s.sessions| <= s.maxClients
    ensures forall id :: id in s.sessions <==> id in Follow({}, s.emitted)
  {
    hide Splice, ControlMessage, Bus.Valid, RxBuffer.Valid, Texts, Flat, Thinned, Follow, IdsRise;
    assert Thinned(s.kept, s.emitted);
  }

  /** The bound is exact: 2,259 disconnect messages with 20-digit ids fill the
      control queue so far that another one is refused. */
  lemma {:induction false} BoundIsExact(events: seq<ControlEvent>)
    requires forall e :: e in events ==> e.Disconnected? && Power10(19) <= e.id < WORD64
    ensures |Splice(Texts(events))| == 1 + 58 * |events|
    ensures |Splice(Texts(events))| + 58 <= CONTROL_QUEUE_CAP <==> |events| < CONTROL_BOUND
  {
    hide ControlMessage, Power10;
    if events != [] {
      SpliceGrows(events);
      assert events[|events| - 1] in events;
      MessageLength(events[|events| - 1]);
      hide Splice, Texts;
      BoundIsExact(events[..|events| - 1]);
    }
  }
}
