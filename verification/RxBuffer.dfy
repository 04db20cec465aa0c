/** The receive queue: payloads spliced into the text of a JSON array while they
    arrive (daemon/src/proto/rx_buffer.cpp). */
module RxQueue {
  import opened Framing

  const OPEN: byte := 0x5B   // '['
  const COMMA: byte := 0x2C  // ','
  const CLOSE: byte := 0x5D  // ']'

  /** What lies in the buffer: '[' and then every payload followed by ','. */
  ghost function Splice(q: seq<Bytes>): (s: Bytes)
    ensures |q| < |s| && s[0] == OPEN
  {
    if q == [] then [OPEN] else Splice(q[..|q| - 1]) + q[|q| - 1] + [COMMA]
  }

  ghost function Join(q: seq<Bytes>): Bytes {
    if q == [] then []
    else if |q| == 1 then q[0]
    else q[0] + [COMMA] + Join(q[1..])
  }

  /** What a poll is promised: the payloads, verbatim, as the elements of one array. */
  ghost function JsonArray(q: seq<Bytes>): Bytes { [OPEN] + Join(q) + [CLOSE] }

  lemma {:induction false} JoinSnoc(q: seq<Bytes>, m: Bytes)
    requires q != []
    ensures Join(q + [m]) == Join(q) + [COMMA] + m
  {
    assert (q + [m])[0] == q[0] && (q + [m])[1..] == q[1..] + [m];
    if |q| > 1 {
      JoinSnoc(q[1..], m);
    } else {
      assert q[1..] + [m] == [m];
    }
  }

  /** Turning the last ',' of the splice into ']' gives exactly the promised array. */
  lemma SpliceToArray(q: seq<Bytes>)
    requires q != []
    ensures Splice(q)[|Splice(q)| - 1] == COMMA
    ensures Splice(q)[..|Splice(q)| - 1] + [CLOSE] == JsonArray(q)
  {
    SpliceIsJoin(q);
    assert Splice(q)[..|Splice(q)| - 1] == [OPEN] + Join(q);
  }

  lemma {:induction false} SpliceIsJoin(q: seq<Bytes>)
    requires q != []
    ensures Splice(q) == [OPEN] + Join(q) + [COMMA]
  {
    var front, m := q[..|q| - 1], q[|q| - 1];
    if front == [] {
      assert q == [m];
    } else {
      assert q == front + [m];
      SpliceIsJoin(front);
      JoinSnoc(front, m);
      assert [OPEN] + Join(front) + [COMMA] + m + [COMMA] == [OPEN] + (Join(front) + [COMMA] + m) + [COMMA];
    }
  }

  lemma SpliceSnoc(q: seq<Bytes>, m: Bytes)
    ensures Splice(q + [m]) == Splice(q) + m + [COMMA]
  {
    assert (q + [m])[..|q|] == q;
  }

  /** Every payload fits, alone, a buffer of this capacity: '[', payload, ','. */
  ghost predicate AllFit(ms: seq<Bytes>, capacity: nat) {
    forall i :: 0 <= i < |ms| ==> |ms[i]| + 2 <= capacity
  }

  lemma FitSnoc(q: seq<Bytes>, m: Bytes, capacity: nat)
    requires AllFit(q, capacity) && |m| + 2 <= capacity
    ensures AllFit(q + [m], capacity)
  {
  }

  class RxBuffer {
    const data: array<byte>
    var len: nat           // bytes used
    var completeLen: nat   // end of the complete-message prefix
    var messages: nat      // complete messages queued
    ghost var queue: seq<Bytes>      // those messages
    ghost var delivered: seq<Bytes>  // everything drained so far

    /** The shape that survives `Poll`, whose write to the last ',' breaks the splice. */
    ghost predicate Drainable()
      reads this, data
    {
      && messages == |queue|
      && messages < completeLen <= len <= data.Length
      && data[0] == OPEN
      && (messages == 0 ==> completeLen == 1)
      && AllFit(delivered, data.Length) && AllFit(queue, data.Length)
    }

    ghost predicate Valid()
      reads this, data
    {
      && Drainable()
      && data[..completeLen] == Splice(queue)
    }

    /** Bytes of a payload that is still streaming in. */
    ghost function Tail(): Bytes
      requires Drainable()
      reads this, data
    {
      data[completeLen..len]
    }

    /** Every message ever completed, in order. */
    ghost function History(): seq<Bytes>
      reads this
    {
      delivered + queue
    }

    constructor (capacity: nat)
      requires 2 <= capacity  // smaller ones are refused with an exception
      ensures Valid() && fresh(data) && data.Length == capacity
      ensures len == completeLen == 1 && queue == [] && delivered == []
    {
      data := new byte[capacity];
      len, completeLen, messages := 1, 1, 0;
      queue, delivered := [], [];
      new;
      data[0] := OPEN;
    }

    predicate CanFit(payloadLen: nat)
      reads this
    {
      len + payloadLen + 1 <= data.Length
    }

    /** memcpy to the end of the used bytes. */
    method CopyIn(payload: Bytes)
      requires Valid() && len + |payload| <= data.Length
      modifies `len, data
      ensures Valid() && len == old(len) + |payload| && Tail() == old(Tail()) + payload
    {
      hide AllFit, Splice;
      forall i | 0 <= i < |payload| {
        data[len + i] := payload[i];
      }
      assert data[..completeLen] == old(data[..completeLen]);
      assert data[completeLen..len] == old(data[completeLen..len]);
      assert data[len..len + |payload|] == payload;
      len := len + |payload|;
      assert Tail() == data[completeLen..old(len)] + data[old(len)..len];
    }

    /** Copy one whole payload in, or refuse it and change nothing. (It is only
        called with no payload in flight; one that were would be glued to it.) */
    method Append(payload: Bytes) returns (ok: bool)
      requires Valid()
      modifies this, data
      ensures Valid() && delivered == old(delivered)
      ensures ok == (old(len) + |payload| + 1 <= data.Length)
      ensures ok ==> queue == old(queue) + [old(Tail()) + payload] && len == completeLen == old(len) + |payload| + 1
      ensures !ok ==> queue == old(queue) && len == old(len) && completeLen == old(completeLen)
      ensures !ok ==> data[..] == old(data[..])
    {
      if !CanFit(|payload|) {
        return false;
      }
      hide AllFit, Splice;
      CopyIn(payload);
      MessageComplete();
      return true;
    }

    /** Account for `n` bytes written straight into the buffer at its tail. */
    method Advance(n: nat)
      requires Valid() && len + n <= data.Length
      modifies `len
      ensures Valid() && len == old(len) + n
      ensures Tail() == old(Tail()) + data[old(len)..len]
    {
      len := len + n;
    }

    /** Seal the in-flight payload with ','. */
    method MessageComplete()
      requires Valid() && len < data.Length
      modifies this, data
      ensures Valid() && len == completeLen == old(len) + 1 && delivered == old(delivered)
      ensures queue == old(queue) + [old(Tail())]
    {
      hide AllFit, Splice;
      ghost var m := Tail();
      FitSnoc(queue, m, data.Length);
      data[len] := COMMA;
      assert data[..len + 1] == data[..completeLen] + m + [COMMA];
      SpliceSnoc(queue, m);
      len := len + 1;
      completeLen := len;
      messages := messages + 1;
      queue := queue + [m];
    }

    /** The queued messages as one JSON array text. Overwrites the last ',' in
        place, so nothing but `Drain` may follow when messages are queued. */
    method Poll() returns (text: Bytes)
      requires Valid()
      modifies data
      ensures text == JsonArray(queue)
      ensures Drainable() && Tail() == old(Tail())
      ensures queue == [] ==> Valid()
    {
      if messages == 0 {
        text := [OPEN, CLOSE];
        return;
      }
      SpliceToArray(queue);
      data[completeLen - 1] := CLOSE;
      text := data[..completeLen];
      assert text == Splice(queue)[..completeLen - 1] + [CLOSE];
    }

    /** Drop the complete messages and move the in-flight bytes up behind '['. */
    method Drain()
      requires Drainable() && (queue == [] ==> Valid())
      modifies this, data
      ensures Valid() && queue == [] && completeLen == 1
      ensures Tail() == old(Tail())
      ensures delivered == old(History())
    {
      if messages == 0 {
        return;
      }
      var tail := len - completeLen;
      forall i | 0 <= i < tail {
        data[1 + i] := data[completeLen + i];
      }
      len := 1 + tail;
      completeLen := 1;
      messages := 0;
      delivered, queue := delivered + queue, [];
    }
  }
}
