/** The transmit queue: complete frames in a ring of bytes
    (daemon/src/proto/tx_buffer.cpp). */
module TxQueue {
  import opened Framing
  import opened Kernel

  /** A position that has passed the end of the array at most once. */
  ghost function Wrapped(p: nat, cap: nat): nat
    requires p < 2 * cap
  {
    if p < cap then p else p - cap
  }

  lemma ModIsWrapped(p: nat, cap: nat)
    requires 0 < cap && p < 2 * cap
    ensures p % cap == Wrapped(p, cap)
  {
    if p < cap {
    } else {
      assert p == cap + (p - cap);
    }
  }

  /** The `n` bytes of the ring `d` from `head` on. */
  ghost function Ring(d: Bytes, head: nat, n: nat): (r: Bytes)
    requires head < |d| && n <= |d|
    ensures |r| == n
  {
    if head + n <= |d| then d[head..head + n] else d[head..] + d[..head + n - |d|]
  }

  /** A chunk written at the tail, up to the end of the array, extends the queue. */
  lemma RingPut(d: Bytes, d': Bytes, head: nat, n: nat, chunk: Bytes)
    requires head < |d| && n + |chunk| <= |d|
    requires var tail := Wrapped(head + n, |d|);
             tail + |chunk| <= |d| && d' == d[..tail] + chunk + d[tail + |chunk|..]
    ensures Ring(d', head, n + |chunk|) == Ring(d, head, n) + chunk
  {
    var tail := Wrapped(head + n, |d|);
    if head + n < |d| {
      assert d'[head..head + n + |chunk|] == d[head..head + n] + chunk;
    } else {
      assert d'[head..] == d[head..];
      assert d'[..tail + |chunk|] == d[..tail] + chunk;
    }
  }

  /** Sending contiguous bytes at the head removes exactly them from the front. */
  lemma RingTake(d: Bytes, head: nat, n: nat, k: nat)
    requires head < |d| && k <= n <= |d| && head + k <= |d|
    ensures Ring(d, head, n) == d[head..head + k] + Ring(d, Wrapped(head + k, |d|), n - k)
    ensures Ring(d, head, n)[..k] == d[head..head + k]
  {
    if head + n <= |d| {
      assert d[head..head + n] == d[head..head + k] + d[head + k..head + n];
    } else if head + k < |d| {
      assert d[head..] == d[head..head + k] + d[head + k..];
      Regroup(d[head..head + k], d[head + k..], d[..head + n - |d|], d[head + k..] + d[..head + n - |d|]);
    } else {
      assert d[head..] == d[head..head + k];
    }
  }

  /** Queueing the frame of `msg` keeps "sent, then queued, is the wire of the accepted". */
  lemma WireSnoc(sent: Bytes, queued: Bytes, accepted: seq<Bytes>, msg: Bytes)
    requires AllAnnounceable(accepted) && Announceable(msg)
    requires sent + queued == Wire(accepted)
    ensures AllAnnounceable(accepted + [msg])
    ensures sent + (queued + Frame(msg)) == Wire(accepted + [msg])
    ensures queued + Header(|msg|) + msg == queued + Frame(msg)
  {
    WireCons(msg, []);
    assert [msg] + [] == [msg];
    assert Frame(msg) + Wire([]) == Frame(msg);
    WireAppend(accepted, [msg]);
    Regroup(sent, queued, Frame(msg), queued + Frame(msg));
    Regroup(queued, Header(|msg|), msg, Frame(msg));
  }

  datatype PushResult = Queued | TooLong | NoRoom
  datatype FlushResult = Written(n: nat) | Broken(errno: Errno)

  class TxBuffer {
    const data: array<byte>
    var head: nat   // next byte to send
    var tail: nat   // next byte to write
    var len: nat    // bytes queued
    ghost var sent: Bytes             // everything handed to the kernel
    ghost var accepted: seq<Bytes>    // every message `Push` took

    ghost predicate Shape()
      reads this
    {
      && HEADER_LEN < data.Length
      && head < data.Length && len <= data.Length
      && tail == Wrapped(head + len, data.Length)
    }

    /** The queued bytes, oldest first. */
    ghost function Contents(): Bytes
      requires Shape()
      reads this, data
    {
      Ring(data[..], head, len)
    }

    ghost predicate Valid()
      reads this, data
    {
      && Shape()
      && AllAnnounceable(accepted)
      && (forall m :: m in accepted ==> |m| <= MAX_MESSAGE_LEN)
      && sent + Contents() == Wire(accepted)
    }

    constructor (capacity: nat)
      requires HEADER_LEN + 1 <= capacity  // smaller ones are refused with an exception
      ensures Valid() && fresh(data) && data.Length == capacity
      ensures len == 0 && sent == [] && accepted == []
    {
      data := new byte[capacity];
      head, tail, len := 0, 0, 0;
      sent, accepted := [], [];
    }

    /** memcpy into the array. */
    method CopyTo(at: nat, chunk: Bytes)
      requires at + |chunk| <= data.Length
      modifies data
      ensures data[..] == old(data[..])[..at] + chunk + old(data[..])[at + |chunk|..]
    {
      forall i | 0 <= i < |chunk| {
        data[at + i] := chunk[i];
      }
    }

    /** One memcpy: `chunk` goes in at the tail without passing the end of the array. */
    method WriteChunk(chunk: Bytes)
      requires Shape() && len + |chunk| <= data.Length && tail + |chunk| <= data.Length
      modifies this`tail, this`len, data
      ensures Shape() && len == old(len) + |chunk|
      ensures Contents() == old(Contents()) + chunk
    {
      hide Ring;
      CopyTo(tail, chunk);
      RingPut(old(data[..]), data[..], head, len, chunk);
      ModIsWrapped(tail + |chunk|, data.Length);
      tail := (tail + |chunk|) % data.Length;
      len := len + |chunk|;
    }

    /** Copy `src` in behind the queued bytes, wrapping at the end of the array. */
    method WriteRing(src: Bytes)
      requires Shape() && len + |src| <= data.Length
      modifies this`tail, this`len, data
      ensures Shape() && len == old(len) + |src|
      ensures Contents() == old(Contents()) + src
    {
      var left := src;
      while left != []
        invariant Shape() && len + |left| == old(len) + |src|
        invariant Contents() + left == old(Contents()) + src
        decreases |left|
      {
        var chunk := if |left| < data.Length - tail then |left| else data.Length - tail;
        Regroup(Contents(), left[..chunk], left[chunk..], left);
        WriteChunk(left[..chunk]);
        left := left[chunk..];
      }
    }

    /** Queue one message as a frame, or refuse it and change nothing. */
    method Push(msg: Bytes) returns (r: PushResult)
      requires Valid()
      modifies this, data
      ensures Valid() && sent == old(sent)
      ensures r == if |msg| > MAX_MESSAGE_LEN then TooLong
                   else if old(len) + HEADER_LEN + |msg| > data.Length then NoRoom
                   else Queued
      ensures r == Queued ==> accepted == old(accepted) + [msg] && Contents() == old(Contents()) + Frame(msg)
      ensures r != Queued ==> accepted == old(accepted) && data[..] == old(data[..])
      ensures r != Queued ==> head == old(head) && len == old(len)
    {
      if |msg| > MAX_MESSAGE_LEN {
        return TooLong;
      }
      if len + HEADER_LEN + |msg| > data.Length {
        return NoRoom;
      }
      ghost var before := Contents();
      WriteRing(Header(|msg|));
      WriteRing(msg);
      WireSnoc(sent, before, accepted, msg);
      accepted := accepted + [msg];
      return Queued;
    }

    /** The kernel took `k` contiguous bytes from the head. */
    method TakeFront(k: nat)
      requires Shape() && k <= len && head + k <= data.Length
      modifies `head, `len
      ensures Shape() && len == old(len) - k
      ensures old(Contents()) == old(data[..])[old(head)..old(head) + k] + Contents()
    {
      hide Ring;
      ModIsWrapped(head + k, data.Length);
      RingTake(data[..], head, len, k);
      head := (head + k) % data.Length;
      len := len - k;
    }

    /** One send(2): at most the queued bytes up to the end of the array. */
    method SendOnce(sock: Socket) returns (n: SysResult)
      requires Shape() && 0 < len
      modifies `head, `len, `sent, sock`outgoing, sock`interrupts, sock`blockedSends, sock`failures
      ensures Shape() && sock.interrupts <= old(sock.interrupts)
      ensures n.Failed? ==> sent == old(sent) && Contents() == old(Contents()) && sock.outgoing == old(sock.outgoing)
      ensures n == Failed(EINTR) ==> sock.interrupts < old(sock.interrupts)
      ensures sock.blockedSends == old(sock.blockedSends) + if n == Failed(EAGAIN) then 1 else 0
      ensures sock.failures >= old(sock.failures) && (n.Failed? && n.errno.Hard? ==> sock.failures > old(sock.failures))
      ensures n.Count? ==> 0 < n.n <= old(len) && len == old(len) - n.n
      ensures n.Count? ==> old(Contents()) == old(Contents())[..n.n] + Contents()
      ensures n.Count? ==> sent == old(sent) + old(Contents())[..n.n]
      ensures n.Count? ==> sock.outgoing == old(sock.outgoing) + old(Contents())[..n.n]
    {
      hide Wire, Ring;
      var chunk := if len < data.Length - head then len else data.Length - head;
      n := sock.Send(data[head..head + chunk]);
      if n.Count? {
        assert data[head..head + chunk][..n.n] == data[..][head..head + n.n];
        RingTake(data[..], head, len, n.n);
        sent := sent + Contents()[..n.n];
        TakeFront(n.n);
      }
    }

    /** Hand queued bytes to the socket until it would block, breaks, or nothing
        is left; an empty ring is rewound to its start. */
    method Flush(sock: Socket) returns (r: FlushResult)
      requires Valid()
      modifies `head, `tail, `len, `sent, sock`outgoing, sock`interrupts, sock`blockedSends, sock`failures
      ensures Valid()
      ensures sent + Contents() == old(sent) + old(Contents())
      ensures old(sent) <= sent && sock.outgoing == old(sock.outgoing) + sent[|old(sent)|..]
      ensures r.Written? ==> r.n == |sent| - |old(sent)|
      ensures sock.failures >= old(sock.failures) && (r.Broken? ==> sock.failures > old(sock.failures))
      ensures r.Written? ==> len == 0 || sock.blockedSends > old(sock.blockedSends)
      ensures len == 0 && r.Written? ==> head == tail == 0
    {
      var written := 0;
      ghost var moved: Bytes := [];
      while len > 0
        invariant Shape() && sent + Contents() == old(sent) + old(Contents())
        invariant written == |moved|
        invariant sock.blockedSends == old(sock.blockedSends) && sock.failures >= old(sock.failures)
        invariant sent == old(sent) + moved && sock.outgoing == old(sock.outgoing) + moved
        decreases len, sock.interrupts
      {
        ghost var queued, before := Contents(), sent;
        var n := SendOnce(sock);
        match n {
          case Count(k) =>
            Regroup(before, queued[..k], Contents(), queued);
            Regroup(old(sent), moved, queued[..k], moved + queued[..k]);
            Regroup(old(sock.outgoing), moved, queued[..k], moved + queued[..k]);
            moved := moved + queued[..k];
            written := written + k;
          case Failed(EINTR) =>
          case Failed(EAGAIN) =>
            break;
          case Failed(e) =>
            return Broken(e);
        }
      }
      if len == 0 {
        assert Contents() == [];
        head, tail := 0, 0;
      }
      return Written(written);
    }
  }
}
