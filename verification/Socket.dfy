/** The kernel's side of one connected stream socket. Every answer POSIX allows
    is possible at every call: any non-zero share of what was asked for, "would
    block", "interrupted", or a hard error. Interruptions are finitely many. */
module Kernel {
  import opened Framing

  datatype Errno = EINTR | EAGAIN | Hard(code: nat)
  datatype SysResult = Count(n: nat) | Failed(errno: Errno)

  class Socket {
    var incoming: Bytes         // what the peer has sent or will still send
    var interrupts: nat         // signals still to come
    ghost var consumed: Bytes   // what has been read so far
    ghost var outgoing: Bytes   // what the kernel has accepted for the peer
    ghost var blockedReads: nat // how often a read, or a send, would have blocked
    ghost var blockedSends: nat
    ghost var failures: nat     // ... or failed for good

    /** read(2) into buf[off .. off + want). A count of 0 means end of stream,
        unless 0 bytes were asked for. */
    method Read(buf: array<byte>, off: nat, want: nat) returns (r: SysResult)
      requires off + want <= buf.Length
      modifies `incoming, `consumed, `interrupts, `blockedReads, `failures, buf
      ensures interrupts <= old(interrupts)
      ensures old(consumed) + old(incoming) == consumed + incoming
      ensures failures == old(failures) + if r.Failed? && r.errno.Hard? then 1 else 0
      ensures blockedReads == old(blockedReads) + if r == Failed(EAGAIN) then 1 else 0
      ensures buf[..off] == old(buf[..off])
      ensures r.Failed? ==> incoming == old(incoming) && consumed == old(consumed) && buf[..] == old(buf[..])
      ensures r == Failed(EINTR) ==> interrupts < old(interrupts)
      ensures r.Count? ==> r.n <= want && r.n <= |old(incoming)| && incoming == old(incoming)[r.n..]
      ensures r.Count? ==> consumed == old(consumed) + buf[off..off + r.n]
      ensures r == Count(0) && 0 < want ==> old(incoming) == []
    {
      if * {
        if 0 < interrupts {
          interrupts := interrupts - 1;
          return Failed(EINTR);
        }
      }
      if * {
        blockedReads := blockedReads + 1;
        return Failed(EAGAIN);
      }
      if * {
        var code: nat := *;
        failures := failures + 1;
        return Failed(Hard(code));
      }
      var most := if want <= |incoming| then want else |incoming|;
      var n: nat :| n <= most && (n == 0 ==> most == 0);
      forall i | 0 <= i < n {
        buf[off + i] := incoming[i];
      }
      assert buf[off..off + n] == incoming[..n];
      consumed := consumed + incoming[..n];
      incoming := incoming[n..];
      return Count(n);
    }

    /** send(2) of `chunk`, without SIGPIPE. */
    method Send(chunk: Bytes) returns (r: SysResult)
      requires chunk != []
      modifies `outgoing, `interrupts, `blockedSends, `failures
      ensures interrupts <= old(interrupts)
      ensures r.Failed? ==> outgoing == old(outgoing)
      ensures r == Failed(EINTR) ==> interrupts < old(interrupts)
      ensures failures == old(failures) + if r.Failed? && r.errno.Hard? then 1 else 0
      ensures blockedSends == old(blockedSends) + if r == Failed(EAGAIN) then 1 else 0
      ensures r.Count? ==> 0 < r.n <= |chunk| && outgoing == old(outgoing) + chunk[..r.n]
    {
      if * {
        if 0 < interrupts {
          interrupts := interrupts - 1;
          return Failed(EINTR);
        }
      }
      if * {
        blockedSends := blockedSends + 1;
        return Failed(EAGAIN);
      }
      if * {
        var code: nat := *;
        failures := failures + 1;
        return Failed(Hard(code));
      }
      var n: nat :| 0 < n <= |chunk|;
      outgoing := outgoing + chunk[..n];
      return Count(n);
    }
  }
}
