/** The script's side of the registry: it reads the control messages out of the poll
    replies and keeps its own set of clients (kwinscript/src/clients.ts). */
module ScriptClients {
  import opened DBusPoll
  import opened Framing
  import opened JsonText
  import opened Options
  import opened Registry
  import opened RxQueue

  // ---- reading one message --------------------------------------------------------

  function ReadDecimal(d: Bytes): int {
    if d == [] then 0 else 10 * ReadDecimal(d[..|d| - 1]) + (d[|d| - 1] as int - 0x30)
  }

  predicate Digits(d: Bytes) {
    d != [] && forall c :: c in d ==> 0x30 <= c <= 0x39
  }

  lemma {:induction false} ReadDecimalIsNat(d: Bytes)
    requires forall c :: c in d ==> 0x30 <= c <= 0x39
    ensures 0 <= ReadDecimal(d)
  {
    if d != [] {
      var front := d[..|d| - 1];
      assert d[|d| - 1] in d && forall c :: c in front ==> c in d;
      ReadDecimalIsNat(front);
    }
  }

  function ReadNumber(d: Bytes): Option<nat> {
    if Digits(d) then ReadDecimalIsNat(d); Some(ReadDecimal(d)) else None
  }

  lemma {:induction false} DecimalReadsBack(n: nat)
    ensures ReadDecimal(Decimal(n)) == n
  {
    if n < 10 {
      assert Decimal(n)[..0] == [];
    } else {
      assert Decimal(n)[..|Decimal(n)| - 1] == Decimal(n / 10);
      DecimalReadsBack(n / 10);
    }
  }

  const CONNECTED := "client_connected"
  const DISCONNECTED := "client_disconnected"

  /** The event a message stands for: an object whose `event` is one of two texts and
      whose `id` is a number. The script ignores everything else. */
  function ReadEvent(t: Bytes): Option<ControlEvent> {
    if |t| < 2 || t[0] != LBRACE || t[|t| - 1] != RBRACE then None
    else
      match (ValueOf(Elements(t), Ascii("event")), ValueOf(Elements(t), Ascii("id")))
      case (Some(name), Some(number)) =>
        if ReadNumber(number).None? then None
        else if ReadLiteral(name) == Some(Ascii(CONNECTED)) then Some(Connected(ReadNumber(number).value))
        else if ReadLiteral(name) == Some(Ascii(DISCONNECTED)) then Some(Disconnected(ReadNumber(number).value))
        else None
      case _ => None
  }

  predicate Lower(s: string) {
    forall c :: c in s ==> c == '_' || 'a' <= c <= 'z'
  }

  lemma {:induction false} EscapedLetters(s: Bytes)
    requires forall i :: 0 <= i < |s| ==> s[i] != QUOTE && s[i] != BACKSLASH && 0x20 <= s[i]
    ensures Escaped(s) == s
  {
    if s != [] {
      var front, c := s[..|s| - 1], s[|s| - 1];
      assert EscapedByte(c) == [c] && s == front + [c];
      hide EscapedByte;
      EscapedLetters(front);
    }
  }

  /** A literal of letters is read as those letters. */
  lemma LettersRead(s: string)
    requires Lower(s)
    ensures ReadLiteral([QUOTE] + Ascii(s) + [QUOTE]) == Some(Ascii(s))
  {
    var a := Ascii(s);
    forall i | 0 <= i < |a| ensures a[i] != QUOTE && a[i] != BACKSLASH && 0x20 <= a[i] {
      assert s[i] in s;
    }
    EscapedLetters(a);
    assert Clean(a);
    LiteralRoundTrip(a);
  }

  lemma NamesDiffer()
    ensures Lower(CONNECTED) && Lower(DISCONNECTED) && Ascii(CONNECTED) != Ascii(DISCONNECTED)
    ensures Ascii("event")[|Ascii("id")|] != QUOTE && |Ascii("event")| > |Ascii("id")|
  {
    assert |Ascii(CONNECTED)| == 16 && |Ascii(DISCONNECTED)| == 19;
    assert Ascii("event")[2] == 'e' as byte;
  }

  lemma MessageMembers(name: Bytes, id: nat)
    ensures MessageText(name, id)
         == [LBRACE] + ([QUOTE] + Ascii("event") + [QUOTE, COLON] + Written(Text(name))) + [COMMA]
            + ([QUOTE] + Ascii("id") + [QUOTE, COLON] + Written(Scalar(Decimal(id)))) + [RBRACE]
  {
    MessageParts();
    hide Ascii, Decimal, Inside;
    assert Written(Text(name)) == [QUOTE] + name + [QUOTE] && Written(Scalar(Decimal(id))) == Decimal(id);
  }

  /** From a message in the daemon's form the script reads the event that its name
      and id stand for; a message with any other name is nothing to it. */
  lemma MessageRead(name: string, id: nat)
    requires Lower(name)
    ensures ReadEvent(MessageText(Ascii(name), id)) ==
            if Ascii(name) == Ascii(CONNECTED) then Some(Connected(id))
            else if Ascii(name) == Ascii(DISCONNECTED) then Some(Disconnected(id))
            else None
  {
    hide Ascii, Elements, ValueOf, ReadLiteral, Inside, ReadDecimal, Lower;
    var t := MessageText(Ascii(name), id);
    MessageMembers(Ascii(name), id);
    MessageParts();
    NamesDiffer();
    LowerFits(name);
    LettersRead(name);
    DecimalReadsBack(id);
    assert Plain(Decimal(id)) && Digits(Decimal(id));
    hide Decimal, Plain, Digits, MessageText;
    TwoMembersRead(t, Ascii("event"), Text(Ascii(name)), Ascii("id"), Scalar(Decimal(id)));
    assert t[0] == LBRACE && t[|t| - 1] == RBRACE;
  }

  lemma LowerFits(s: string)
    requires Lower(s)
    ensures Inside(Ascii(s))
  {
    LettersFit(s);
  }

  /** The script reads from each message the event the daemon wrote into it. */
  lemma EventReadsBack(e: ControlEvent)
    ensures ReadEvent(ControlMessage(e)) == Some(e)
  {
    hide Ascii, ReadEvent, MessageText;
    NamesDiffer();
    MessageRead(CONNECTED, e.id);
    MessageRead(DISCONNECTED, e.id);
  }

  /** Different event lists have different texts. */
  lemma TextsDistinguish(a: seq<ControlEvent>, b: seq<ControlEvent>)
    requires Texts(a) == Texts(b)
    ensures a == b
  {
    hide ControlMessage, ReadEvent;
    assert |a| == |Texts(a)| == |b|;
    forall i | 0 <= i < |a| ensures a[i] == b[i] {
      EventReadsBack(a[i]);
      EventReadsBack(b[i]);
      assert Texts(a)[i] == Texts(b)[i];
    }
  }

  /** Control messages are JSON objects, so the script's parse of a poll reply
      yields exactly the messages that were queued. */
  lemma ControlBatchComesBack(events: seq<ControlEvent>)
    ensures Elements(JsonArray(Texts(events))) == Texts(events)
    ensures forall i :: 0 <= i < |events| ==> ReadEvent(Texts(events)[i]) == Some(events[i])
  {
    hide Elements, JsonArray, ControlMessage, ReadEvent;
    var ps := seq(|events|, i requires 0 <= i < |events| => AsJson(events[i]));
    forall i | 0 <= i < |events|
      ensures WellFormedPadded(ps[i]) && Texts(events)[i] == WrittenPadded(ps[i])
      ensures ReadEvent(Texts(events)[i]) == Some(events[i])
    {
      ControlFits(events[i]);
      ControlIsWritten(events[i]);
      EventReadsBack(events[i]);
    }
    JsonPayloadsComeBack(ps, Texts(events));
  }

  // ---- the script's registry -----------------------------------------------------------

  /** The client ids after one message, several messages, one reply, all replies. */
  ghost function HeardOne(ids: set<nat>, message: Bytes): set<nat> {
    match ReadEvent(message)
    case None => ids
    case Some(Connected(id)) => ids + {id}
    case Some(Disconnected(id)) => ids - {id}
  }

  ghost function Heard(ids: set<nat>, messages: seq<Bytes>): set<nat> {
    if messages == [] then ids
    else HeardOne(Heard(ids, messages[..|messages| - 1]), messages[|messages| - 1])
  }

  /** A reply that is no array is an error text, which the script only logs. */
  ghost function HeardIn(ids: set<nat>, reply: Bytes): set<nat> {
    if |reply| < 2 || reply[0] != OPEN then ids else Heard(ids, Elements(reply))
  }

  ghost function HeardAll(ids: set<nat>, replies: seq<Answer>): set<nat> {
    if replies == [] then ids
    else HeardIn(HeardAll(ids, replies[..|replies| - 1]), replies[|replies| - 1].text)
  }

  class Script {
    var connections: set<nat>

    constructor ()
      ensures connections == {}
    {
      connections := {};
    }

    method OnClientConnected(id: nat)
      modifies this
      ensures connections == old(connections) + {id}
    {
      if id in connections {
        return;
      }
      connections := connections + {id};
    }

    method OnClientDisconnected(id: nat)
      modifies this
      ensures connections == old(connections) - {id}
    {
      if id !in connections {
        return;
      }
      connections := connections - {id};
    }

    /** The reply to one poll of /daemon. */
    method OnReply(reply: Bytes)
      modifies this
      ensures connections == HeardIn(old(connections), reply)
    {
      hide ReadEvent, Elements;
      if |reply| < 2 || reply[0] != OPEN {
        return;
      }
      var messages := Elements(reply);
      for i := 0 to |messages|
        invariant connections == Heard(old(connections), messages[..i])
      {
        match ReadEvent(messages[i]) {
          case None =>
          case Some(Connected(id)) =>
            OnClientConnected(id);
          case Some(Disconnected(id)) =>
            OnClientDisconnected(id);
        }
        assert messages[..i + 1][..i] == messages[..i];
      }
      assert messages[..|messages|] == messages;
    }
  }

  lemma {:induction false} HeardIsFollowed(ids: set<nat>, events: seq<ControlEvent>)
    ensures Heard(ids, Texts(events)) == Follow(ids, events)
  {
    hide ReadEvent, ControlMessage;
    if events != [] {
      var front, e := events[..|events| - 1], events[|events| - 1];
      assert Texts(events)[..|events| - 1] == Texts(front);
      HeardIsFollowed(ids, front);
      EventReadsBack(e);
    } else {
      assert Texts(events) == [];
    }
  }

  /** A reply that carries the messages of some events tells the script of just those. */
  lemma ReplyIsFollowed(ids: set<nat>, text: Bytes, events: seq<ControlEvent>)
    requires SpellsOut(text, Texts(events))
    ensures HeardIn(ids, text) == Follow(ids, events)
  {
    hide Elements, Texts, ReadEvent, Join;
    if text == JsonArray(Texts(events)) {
      ControlBatchComesBack(events);
      HeardIsFollowed(ids, events);
      assert text[0] == OPEN;
    }
  }

  lemma TextsSplit(events: seq<ControlEvent>, a: seq<Bytes>, b: seq<Bytes>)
    requires Texts(events) == a + b
    ensures |a| <= |events| && Texts(events[..|a|]) == a && Texts(events[|a|..]) == b
  {
    hide ControlMessage;
    assert |events| == |a| + |b|;
    forall i | 0 <= i < |a| ensures Texts(events[..|a|])[i] == a[i] {
      assert Texts(events)[i] == a[i];
    }
    forall i | 0 <= i < |b| ensures Texts(events[|a|..])[i] == b[i] {
      assert Texts(events)[|a| + i] == b[i];
    }
    assert Texts(events[..|a|]) == a && Texts(events[|a|..]) == b;
  }

  ghost predicate AllSpelledOut(replies: seq<Answer>, batches: seq<seq<Bytes>>) {
    |replies| == |batches| && forall i :: 0 <= i < |replies| ==> SpellsOut(replies[i].text, batches[i])
  }

  /** The last reply, and what there was before it. */
  lemma LastReply(replies: seq<Answer>, batches: seq<seq<Bytes>>)
    requires AllSpelledOut(replies, batches) && replies != []
    ensures var n := |replies| - 1;
            |batches| == n + 1 && AllSpelledOut(replies[..n], batches[..n]) && SpellsOut(replies[n].text, batches[n])
            && Flat(batches) == Flat(batches[..n]) + batches[n]
            && HeardAll({}, replies) == HeardIn(HeardAll({}, replies[..n]), replies[n].text)
  {
    hide SpellsOut, HeardIn;
  }

  lemma NothingTold(replies: seq<Answer>, batches: seq<seq<Bytes>>, events: seq<ControlEvent>)
    requires AllSpelledOut(replies, batches) && Flat(batches) == Texts(events) && replies == []
    ensures HeardAll({}, replies) == Follow({}, events) == {}
  {
    assert |Texts(events)| == 0;
  }

  lemma {:induction false} RepliesAreFollowed(replies: seq<Answer>, batches: seq<seq<Bytes>>, events: seq<ControlEvent>)
    requires AllSpelledOut(replies, batches) && Flat(batches) == Texts(events)
    ensures HeardAll({}, replies) == Follow({}, events)
    decreases |replies|
  {
    hide *;
    if replies == [] {
      NothingTold(replies, batches, events);
    } else {
      var n := |replies| - 1;
      LastReply(replies, batches);
      var told := Flat(batches[..n]);
      TextsSplit(events, told, batches[n]);
      RepliesAreFollowed(replies[..n], batches[..n], events[..|told|]);
      ReplyIsFollowed(Follow({}, events[..|told|]), replies[n].text, events[|told|..]);
      FollowAppend({}, events[..|told|], events[|told|..]);
      assert events == events[..|told|] + events[|told|..];
    }
  }

  /** The script has read the texts of the poll replies so far, as they are. Once it
      also reads what is still queued, it knows exactly the daemon's sessions -
      provided no message was dropped. */
  lemma RegistriesAgree(s: Server, script: set<nat>)
    requires s.Valid() && |s.kept| == |s.emitted|
    requires script == HeardAll({}, s.daemon.bus.replies)
    ensures HeardIn(script, JsonArray(s.daemon.queue.queue)) == s.sessions.Keys
  {
    hide Server.Valid, Texts, Flat, Follow, Thinned, HeardAll, HeardIn, SpellsOut, AllSpelledOut;
    var told := Flat(s.daemon.bus.batches);
    DeliveredOrQueued(s);
    RepliesSpelledOut(s);
    TextsSplit(s.kept, told, s.daemon.queue.queue);
    RepliesAreFollowed(s.daemon.bus.replies, s.daemon.bus.batches, s.kept[..|told|]);
    assert SpellsOut(JsonArray(s.daemon.queue.queue), s.daemon.queue.queue) by { ArraySpellsOut(s.daemon.queue.queue); }
    ReplyIsFollowed(script, JsonArray(s.daemon.queue.queue), s.kept[|told|..]);
    FollowAppend({}, s.kept[..|told|], s.kept[|told|..]);
    assert s.kept == s.kept[..|told|] + s.kept[|told|..];
  }

  lemma ArraySpellsOut(batch: seq<Bytes>)
    ensures SpellsOut(JsonArray(batch), batch)
  {
  }

  lemma RepliesSpelledOut(s: Server)
    requires s.Valid()
    ensures AllSpelledOut(s.daemon.bus.replies, s.daemon.bus.batches)
  {
    hide SpellsOut, Texts, Flat, Thinned, IdsRise, Follow, RxBuffer.Valid, Replied;
  }
}
