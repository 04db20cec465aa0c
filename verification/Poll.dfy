/** The deferred-reply side of a D-Bus object that serves poll()
    (daemon/src/poll_waiter.cpp, daemon/src/dbus_util.cpp). */
module DBusPoll {
  import opened Framing
  import opened JsonText
  import opened Options
  import opened RxQueue

  const MAX_POLL_TIMEOUT_MS := 25_000

  datatype Answer = Answer(request: nat, text: Bytes)

  ghost function Replied(replies: seq<Answer>, request: nat): nat {
    if replies == [] then 0
    else Replied(replies[..|replies| - 1], request) + if replies[|replies| - 1].request == request then 1 else 0
  }

  ghost function Flat(batches: seq<seq<Bytes>>): seq<Bytes> {
    if batches == [] then [] else Flat(batches[..|batches| - 1]) + batches[|batches| - 1]
  }

  /** The bus as one object sees it: poll requests arrive numbered 0, 1, 2, ...
      and replies leave. A reply carries a batch of payloads, or none of them. */
  class Bus {
    var asked: nat
    var replies: seq<Answer>
    ghost var batches: seq<seq<Bytes>>   // the payloads handed over by each reply
    ghost var open: set<nat>             // requests not answered yet

    ghost predicate Valid()
      reads this
    {
      && |batches| == |replies|
      && (forall i :: 0 <= i < |replies| ==> SpellsOut(replies[i].text, batches[i]))
      && (forall k :: k in open ==> k < asked)
      && (forall k: nat :: Replied(replies, k) == if k < asked && k !in open then 1 else 0)
    }

    constructor ()
      ensures Valid() && asked == 0 && replies == [] && batches == [] && open == {}
    {
      asked, replies, batches, open := 0, [], [], {};
    }

    method Ask() returns (request: nat)
      requires Valid()
      modifies this
      ensures Valid() && request == old(asked) && asked == request + 1 && open == old(open) + {request}
      ensures request !in old(open) && replies == old(replies) && batches == old(batches)
    {
      request := asked;
      asked := asked + 1;
      open := open + {request};
    }

    method Return(request: nat, text: Bytes, ghost batch: seq<Bytes>)
      requires Valid() && request in open && SpellsOut(text, batch)
      modifies this
      ensures Valid() && asked == old(asked) && open == old(open) - {request}
      ensures replies == old(replies) + [Answer(request, text)] && batches == old(batches) + [batch]
      ensures Flat(batches) == Flat(old(batches)) + batch
    {
      replies := replies + [Answer(request, text)];
      batches := batches + [batch];
      open := open - {request};
      assert replies[..|replies| - 1] == old(replies);
      assert batches[..|batches| - 1] == old(batches);
    }
  }

  /** A reply text is the array of its batch, or an error literal without one. The
      script tells the two apart by the first byte. */
  ghost predicate SpellsOut(text: Bytes, batch: seq<Bytes>) {
    text == JsonArray(batch) || (batch == [] && 2 <= |text| && text[0] == QUOTE)
  }

  lemma EmptyArray()
    ensures JsonArray([]) == [OPEN, CLOSE]
  {
  }

  datatype ArmResult = Armed | Invalid | Busy | NoTimer

  class PollWaiter {
    var msg: Option<nat>      // the request being held, if any
    var timer: bool           // its timeout is running
    ghost var refusals: nat   // how often the event loop had no timer

    ghost predicate Valid()
      reads this
    {
      timer <==> msg.Some?
    }

    constructor ()
      ensures Valid() && !Pending() && refusals == 0
    {
      msg, timer, refusals := None, false, 0;
    }

    predicate Pending()
      reads this
    {
      msg.Some?
    }

    /** sd_event_add_time: the event loop may be out of timers. */
    method AddTimer() returns (ok: bool)
      modifies `timer, `refusals
      ensures timer == (ok || old(timer)) && refusals == old(refusals) + if ok then 0 else 1
    {
      if * {
        refusals := refusals + 1;
        return false;
      }
      timer := true;
      return true;
    }

    /** Hold `request` and start its timeout, unless there is no timer to be had. */
    method Arm(request: nat, timeoutMs: int) returns (r: ArmResult)
      requires Valid()
      modifies this
      ensures Valid()
      ensures (r == Invalid <==> timeoutMs <= 0) && (r == Busy <==> 0 < timeoutMs && old(Pending()))
      ensures msg == if r == Armed then Some(request) else old(msg)
      ensures refusals == old(refusals) + if r == NoTimer then 1 else 0
    {
      if timeoutMs <= 0 {
        return Invalid;
      }
      if Pending() {
        return Busy;
      }
      msg := Some(request);
      var ok := AddTimer();
      if !ok {
        Cancel();
        return NoTimer;
      }
      return Armed;
    }

    method Reply(bus: Bus, payload: Bytes, ghost batch: seq<Bytes>)
      requires Valid() && bus.Valid() && SpellsOut(payload, batch)
      requires Pending() ==> msg.value in bus.open
      modifies `msg, `timer, bus
      ensures Valid() && bus.Valid() && !Pending() && bus.asked == old(bus.asked)
      ensures !old(Pending()) ==>
                bus.replies == old(bus.replies) && bus.batches == old(bus.batches) && bus.open == old(bus.open)
      ensures old(Pending()) ==> bus.replies == old(bus.replies) + [Answer(old(msg).value, payload)]
      ensures old(Pending()) ==> bus.open == old(bus.open) - {old(msg).value}
      ensures old(Pending()) ==> bus.batches == old(bus.batches) + [batch]
      ensures old(Pending()) ==> Flat(bus.batches) == Flat(old(bus.batches)) + batch
    {
      if msg.None? {
        return;
      }
      var request := msg.value;
      msg := None;
      timer := false;
      bus.Return(request, payload, batch);
    }

    /** Drop the request without a reply. */
    method Cancel()
      modifies `msg, `timer
      ensures Valid() && !Pending()
    {
      timer := false;
      msg := None;
    }
  }

  datatype Verdict = Rejected | Batch | EmptyNow | Held

  const OUT_OF_RANGE := "error: timeout out of range (0..25000)"
  const ALREADY_PENDING := "error: a poll is already pending"
  const NO_TIMER := "error: cannot arm poll timer"

  /** The poll() half of a D-Bus object: its queue, its waiter and its bus. */
  class PollObject {
    const queue: RxBuffer
    const poll: PollWaiter
    const bus: Bus

    /** Everything drained from the queue has been handed over by the replies, in
        order; the only request without a reply is the one the waiter holds. */
    ghost predicate Valid()
      reads this, queue, queue.data, poll, bus
    {
      && queue.Valid() && Replying()
    }

    /** `Valid` without the queue's own part. */
    ghost predicate Replying()
      reads this, queue, poll, bus
    {
      && poll.Valid() && bus.Valid()
      && Flat(bus.batches) == queue.delivered
      && bus.open == (if poll.Pending() then {poll.msg.value} else {})
    }

    /** Between two callbacks a held poll means there is nothing to deliver. */
    ghost predicate Settled()
      reads this, queue, poll
    {
      poll.Pending() ==> queue.queue == []
    }

    constructor (queue: RxBuffer)
      requires queue.Valid() && queue.delivered == []
      ensures Valid() && this.queue == queue && fresh(poll) && fresh(bus)
      ensures !poll.Pending() && bus.replies == [] && bus.batches == []
    {
      this.queue := queue;
      poll := new PollWaiter();
      bus := new Bus();
    }

    /** Copy the queued messages out as one array text and drop them. */
    method DrainQueue() returns (text: Bytes)
      requires queue.Valid()
      modifies queue, queue.data
      ensures queue.Valid() && queue.queue == [] && queue.completeLen == 1
      ensures text == JsonArray(old(queue.queue)) && queue.delivered == old(queue.History())
      ensures queue.Tail() == old(queue.Tail())
    {
      text := queue.Poll();
      queue.Drain();
    }

    /** What one poll request has led to, by section 3.2 of the protocol. Whatever is
        not held is answered at once, the oldest reason to do so first. */
    twostate predicate Treated(new v: Verdict, new timeout: int)
      reads this, queue, poll, bus
    {
      && bus.asked == old(bus.asked) + 1
      && (v == Held ==> poll.msg == Some(old(bus.asked)) && bus.replies == old(bus.replies))
      && (v != Held ==> poll.msg == old(poll.msg))
      && queue.queue == (if v == Batch then [] else old(queue.queue))
      && if timeout < 0 || MAX_POLL_TIMEOUT_MS < timeout then v == Rejected && RepliedNow(Quoted(Ascii(OUT_OF_RANGE)))
         else if old(poll.Pending()) then v == Rejected && RepliedNow(Quoted(Ascii(ALREADY_PENDING)))
         else if old(queue.queue) != [] then v == Batch && RepliedNow(JsonArray(old(queue.queue)))
         else if timeout == 0 then v == EmptyNow && RepliedNow(JsonArray([]))
         else v == Held || (v == Rejected && poll.refusals > old(poll.refusals) && RepliedNow(Quoted(Ascii(NO_TIMER))))
    }

    /** The request that has just come in, and no other, has been answered. */
    twostate predicate RepliedNow(new text: Bytes)
      reads this, bus
    {
      bus.replies == old(bus.replies) + [Answer(old(bus.asked), text)]
    }

    /** No reply has been sent but, perhaps, one to the held poll: messages. */
    twostate predicate OnlyDelivered()
      reads this, poll, bus
    {
      || (bus.replies == old(bus.replies) && bus.batches == old(bus.batches) && poll.msg == old(poll.msg))
      || (old(poll.Pending()) && !poll.Pending() && bus.batches != [] && bus.batches[|bus.batches| - 1] != []
          && bus.batches == old(bus.batches) + [bus.batches[|bus.batches| - 1]]
          && bus.replies == old(bus.replies)
                            + [Answer(old(poll.msg).value, JsonArray(bus.batches[|bus.batches| - 1]))])
    }

    /** Answer a held poll with the whole batch, if there is one and there are
        messages. The caller runs its drained-hook when the result is true. */
    method MaybeReplyPendingPoll() returns (drained: bool)
      requires Valid()
      modifies queue, queue.data, poll, bus
      ensures Valid() && Settled()
      ensures drained == (old(poll.Pending()) && old(queue.queue) != []) && bus.asked == old(bus.asked)
      ensures queue.Tail() == old(queue.Tail()) && queue.History() == old(queue.History())
      ensures drained ==> !poll.Pending() && queue.queue == [] && queue.completeLen == 1
      ensures drained ==> bus.replies == old(bus.replies) + [Answer(old(poll.msg).value, JsonArray(old(queue.queue)))]
      ensures drained ==> bus.batches == old(bus.batches) + [old(queue.queue)]
      ensures !drained ==> unchanged(queue) && unchanged(queue.data) && unchanged(poll) && unchanged(bus)
    {
      hide Splice, JsonArray, Replied, Flat, Bus.Valid;
      if !poll.Pending() || queue.messages == 0 {
        return false;
      }
      ghost var batch := queue.queue;
      var text := DrainQueue();
      poll.Reply(bus, text, batch);
      return true;
    }

    method ReplyError(request: nat, why: string)
      requires Owing(request)
      modifies bus
      ensures Replying()
      ensures bus.asked == old(bus.asked)
      ensures bus.replies == old(bus.replies) + [Answer(request, Quoted(Ascii(why)))]
    {
      hide Splice, Quoted, Ascii, JsonArray, Replied, Flat;
      var text := JsonString(Ascii(why));
      bus.Return(request, text, []);
    }

    /** `request` has come in and has no reply yet. */
    ghost predicate Owing(request: nat)
      reads this, queue, poll, bus
    {
      && poll.Valid() && bus.Valid()
      && Flat(bus.batches) == queue.delivered
      && (poll.Pending() ==> poll.msg.value != request)
      && bus.open == {request} + (if poll.Pending() then {poll.msg.value} else {})
    }

    /** One poll(timeout) call. Replies at once if the timeout is out of range, a
        poll is already held, messages are queued or the timeout is 0; otherwise
        the request is held, unless there is no timer to be had. */
    method HandlePollRequest(timeout: int) returns (v: Verdict)
      requires Valid() && Settled()
      modifies queue, queue.data, poll, bus
      ensures Valid() && Settled() && Treated(v, timeout)
      ensures queue.Tail() == old(queue.Tail()) && queue.History() == old(queue.History())
      ensures if v == Batch then queue.queue == [] && queue.completeLen == 1
              else unchanged(queue) && unchanged(queue.data)
    {
      hide Splice, Quoted, Ascii, JsonArray, Replied, Flat, Bus.Valid;
      var request := bus.Ask();
      v := Rejected;
      if timeout < 0 || timeout > MAX_POLL_TIMEOUT_MS {
        ReplyError(request, OUT_OF_RANGE);
      } else if poll.Pending() {
        ReplyError(request, ALREADY_PENDING);
      } else if queue.messages > 0 {
        v := Batch;
        ghost var batch := queue.queue;
        var text := DrainQueue();
        bus.Return(request, text, batch);
      } else if timeout == 0 {
        v := EmptyNow;
        EmptyArray();
        bus.Return(request, [OPEN, CLOSE], []);
      } else {
        var r := poll.Arm(request, timeout);
        if r == Armed {
          v := Held;
        } else {
          ReplyError(request, NO_TIMER);
        }
      }
    }

    /** The timeout of the held poll expired: an empty array. */
    method OnTimeout()
      requires Valid() && poll.timer
      modifies poll, bus
      ensures Valid() && Settled() && !poll.Pending()
      ensures bus.replies == old(bus.replies) + [Answer(old(poll.msg).value, JsonArray([]))]
      ensures bus.asked == old(bus.asked)
    {
      EmptyArray();
      poll.Reply(bus, [OPEN, CLOSE], []);
    }
  }

  /** Every request but the one being held has exactly one reply, that one has none
      and its timer runs; and the batches replied, then the queue, are all messages
      ever completed, in order. */
  lemma EachRequestOnce(p: PollObject, request: nat)
    requires p.Valid()
    ensures Replied(p.bus.replies, request) == if request < p.bus.asked && p.poll.msg != Some(request) then 1 else 0
    ensures p.poll.timer <==> p.poll.Pending()
    ensures Flat(p.bus.batches) + p.queue.queue == p.queue.History()
    ensures forall i :: 0 <= i < |p.bus.replies| ==>
              (p.bus.replies[i].text[0] == OPEN && p.bus.replies[i].text == JsonArray(p.bus.batches[i]))
              || (p.bus.replies[i].text[0] == QUOTE && p.bus.batches[i] == [])
  {
    hide Replied, Flat, Splice, Join;
    forall i | 0 <= i < |p.bus.replies|
      ensures (p.bus.replies[i].text[0] == OPEN && p.bus.replies[i].text == JsonArray(p.bus.batches[i]))
           || (p.bus.replies[i].text[0] == QUOTE && p.bus.batches[i] == [])
    {
      assert SpellsOut(p.bus.replies[i].text, p.bus.batches[i]);
    }
  }
}
