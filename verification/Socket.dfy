/**
 * The connection's file descriptor. What the kernel does on each call is
 * arbitrary within what recv, writev and poll allow; `patience` only says that
 * a non-blocking descriptor does not answer "would block" for ever.
 */
module Socket {
  import opened Packets

  datatype Received = Data(bytes: seq<Byte>) | RecvWouldBlock | Closed
  datatype Wrote = Count(n: nat) | WriteWouldBlock | WriteFailed

  class Socket {
    /** Bytes the server will have sent in the end and that have not been received. */
    var incoming: seq<Byte>
    /** Bytes accepted for the server. */
    var outgoing: seq<Byte>
    var patience: nat
    /** A call has failed for a reason other than "would block". */
    var broken: bool

    constructor (incoming: seq<Byte>, patience: nat)
      ensures this.incoming == incoming && outgoing == [] && this.patience == patience && !broken
    {
      this.incoming, this.outgoing, this.patience, broken := incoming, [], patience, false;
    }

    /** recv(2) of at most `limit` bytes. */
    method Recv(limit: nat) returns (r: Received)
      requires limit > 0
      modifies this
      ensures outgoing == old(outgoing)
      ensures match r
        case Data(bytes) => 0 < |bytes| <= limit && old(incoming) == bytes + incoming && patience == old(patience)
        case RecvWouldBlock => incoming == old(incoming) && patience < old(patience)
        case Closed => incoming == old(incoming) && patience == old(patience)
      ensures broken == (old(broken) || r.Closed?)
    {
      var delivers: bool, blocks: bool := *, *;
      if incoming != [] && delivers {
        var n: nat :| 0 < n <= limit && n <= |incoming|;
        r := Data(incoming[..n]);
        incoming := incoming[n..];
      } else if patience > 0 && blocks {
        patience := patience - 1;
        r := RecvWouldBlock;
      } else {
        broken := true;
        r := Closed;
      }
    }

    /** poll(2) or select(2) with no timeout: true when the descriptor is ready. */
    method WaitReadable() returns (ready: bool)
      modifies `broken
      ensures broken == (old(broken) || !ready)
    {
      ready := *;
      broken := broken || !ready;
    }

    /** writev(2) of the gathered bytes, of which there is at least one. */
    method Writev(data: seq<Byte>) returns (r: Wrote)
      requires data != []
      modifies this
      ensures incoming == old(incoming)
      ensures match r
        case Count(n) => 0 < n <= |data| && outgoing == old(outgoing) + data[..n] && patience == old(patience)
        case WriteWouldBlock => outgoing == old(outgoing) && patience < old(patience)
        case WriteFailed => outgoing == old(outgoing) && patience == old(patience)
      ensures broken == (old(broken) || r.WriteFailed?)
    {
      var accepts: bool, blocks: bool := *, *;
      if accepts {
        var n: nat :| 0 < n <= |data|;
        outgoing := outgoing + data[..n];
        r := Count(n);
      } else if patience > 0 && blocks {
        patience := patience - 1;
        r := WriteWouldBlock;
      } else {
        broken := true;
        r := WriteFailed;
      }
    }
  }
}
