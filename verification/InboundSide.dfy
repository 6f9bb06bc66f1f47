/**
 * struct _xcb_in and the functions of src/xcb_in.c that change it in place,
 * each proved against its effect on values in Inbound.
 */
module InboundSide {
  import opened Wrappers
  import opened Sequence
  import opened Packets
  import opened Inbound
  import opened Socket
  import opened Readers
  import LinkedMap

  const QUEUE_SIZE: nat := 4096

  class InboundSide {
    const queue: array<Byte>
    var queueLen: nat
    var expected: nat
    var read: nat
    var completed: nat
    var current: seq<Packet>
    const replies: LinkedMap.List<seq<Packet>>
    var events: seq<Event>
    var pending: seq<Pending>
    var readers: seq<Reader>
    /** The calls of pthread_cond_signal, in order. */
    var signals: seq<Signal>
    var hasError: bool

    ghost predicate Valid()
      reads this, queue, replies, replies.Repr
    {
      && queue.Length == QUEUE_SIZE && queueLen <= QUEUE_SIZE
      && replies.Valid()
      && this !in replies.Repr && queue !in replies.Repr
    }

    /** The bytes received but not yet taken by a packet. */
    ghost function Queued(): seq<Byte>
      reads this, queue
      requires queueLen <= queue.Length
    {
      queue[..queueLen]
    }

    ghost function State(): Inbound
      reads this, queue, replies, replies.Repr
      requires Valid()
    {
      Inbound(expected, read, completed, current, replies.Contents(), events, pending)
    }

    /** _xcb_in_init, on memory cleared by calloc. */
    constructor ()
      ensures Valid() && fresh(queue) && fresh(replies.Repr)
      ensures State() == INITIAL && Queued() == [] && readers == [] && signals == [] && !hasError
    {
      queue := new Byte[QUEUE_SIZE](_ => 0);
      replies := new LinkedMap.List();
      queueLen, expected, read, completed := 0, 0, 0, 0;
      current, events, pending, readers, signals, hasError := [], [], [], [], [], false;
    }

    // ----- bytes -----

    /** read_block: receive exactly `len` bytes, waiting as long as it takes. */
    method ReadBlock(sock: Socket, len: nat) returns (buf: seq<Byte>, ok: bool)
      modifies sock
      ensures ok ==> |buf| == len && old(sock.incoming) == buf + sock.incoming
      ensures sock.broken == (old(sock.broken) || !ok)
      ensures |sock.incoming| <= |old(sock.incoming)| && sock.patience <= old(sock.patience)
    {
      buf := [];
      while |buf| < len
        invariant |buf| <= len && old(sock.incoming) == buf + sock.incoming
        invariant sock.broken == old(sock.broken) && sock.patience <= old(sock.patience)
        decreases |sock.incoming|, sock.patience
      {
        var ret := sock.Recv(len - |buf|);
        match ret {
          case Data(bytes) => buf := buf + bytes;
          case Closed => return buf, false;
          case RecvWouldBlock =>
            var ready := sock.WaitReadable();
            if !ready {
              return buf, false;
            }
        }
      }
      ok := true;
    }

    /** _xcb_in_read_block: first from the queue, the rest from the descriptor. */
    method InReadBlock(sock: Socket, len: nat) returns (buf: seq<Byte>, ok: bool)
      requires Valid() && sock !in replies.Repr
      modifies `queueLen, `hasError, queue, sock
      ensures Valid() && State() == old(State())
      ensures ok ==> hasError == old(hasError) && |buf| == len
      ensures ok ==> old(Queued()) + old(sock.incoming) == buf + (Queued() + sock.incoming)
      ensures !ok ==> hasError
      ensures sock.broken == (old(sock.broken) || !ok)
      ensures |sock.incoming| <= |old(sock.incoming)| && sock.patience <= old(sock.patience)
    {
      var done := if len < queueLen then len else queueLen;
      buf := queue[..done];
      queueLen := queueLen - done;
      forall i | 0 <= i < queueLen {
        queue[i] := queue[done + i];
      }
      assert old(Queued()) == buf + Queued();
      ok := true;
      if len > done {
        var rest;
        rest, ok := ReadBlock(sock, len - done);
        if !ok {
          hasError := true;
          return;
        }
        assert old(sock.incoming) == rest + sock.incoming;
        assert Queued() == [];
        buf := buf + rest;
      }
    }

    // ----- read_packet -----

    /** Free the pending records of completed requests. */
    method PrunePending()
      modifies `pending
      ensures pending == Prune(old(pending), completed)
    {
      while pending != [] && pending[0].last <= completed
        invariant Prune(pending, completed) == Prune(old(pending), completed)
        decreases |pending|
      {
        pending := pending[1..];
      }
    }

    /** The finished request's replies, if any, go to the map. */
    method StoreCurrent(lastread: nat)
      requires Valid()
      modifies `current, replies.Repr
      ensures Valid() && fresh(replies.Repr - old(replies.Repr))
      ensures State() == var s := old(State()); s.(
        current := [],
        replies := if s.current != [] then s.replies + [(Cookie(lastread), s.current)] else s.replies)
    {
      if current != [] {
        replies.Put(Cookie(lastread), current);
        current := [];
      }
    }

    /** The server has moved on: every request before the one just read is complete. */
    method FinishPrevious(lastread: nat)
      requires Valid() && read > 0
      modifies `current, `completed, replies.Repr
      ensures Valid() && fresh(replies.Repr - old(replies.Repr))
      ensures State() == var s := old(State()); s.(
        current := [],
        replies := if s.current != [] then s.replies + [(Cookie(lastread), s.current)] else s.replies,
        completed := read - 1)
    {
      StoreCurrent(lastread);
      completed := read - 1;
    }

    /** Rebuild the packet's number from its 16 bits. */
    method NoteNumber(low: Low) returns (lastread: nat)
      modifies `read, `expected
      ensures lastread == old(read) && read == Rebuild(lastread, low)
      ensures expected == if read > old(expected) then read else old(expected)
    {
      lastread := read;
      read := lastread - lastread % TWO16 + low;
      if read < lastread {
        read := read + TWO16;
      }
      if read > expected {
        expected := read;
      }
    }

    /** The packet's number, and what it says about earlier requests. */
    method MoveTo(low: Low)
      requires Valid()
      modifies `read, `expected, `current, `completed, replies.Repr
      ensures Valid() && fresh(replies.Repr - old(replies.Repr))
      ensures State() == Moved(old(State()), low)
    {
      var lastread := NoteNumber(low);
      if read != lastread {
        FinishPrevious(lastread);
      }
    }

    /** The sequence-number part of read_packet: rebuild, file finished replies, prune. */
    method NoteSequence(p: Packet)
      requires Valid()
      modifies `read, `expected, `current, `completed, `pending, replies.Repr
      ensures Valid() && fresh(replies.Repr - old(replies.Repr))
      ensures State() == Advance(old(State()), p)
    {
      if p.code % 128 != XCB_KEYMAP_NOTIFY {
        ghost var before := State();
        MoveTo(p.low);
        PrunePending();
        if p.code == XCB_ERROR {
          completed := read;
        }
        AdvanceIsMoved(before, p);
      }
    }

    /** Where a complete packet goes, and who is told. */
    method FilePacket(p: Packet)
      requires Valid()
      modifies this
      ensures Valid()
      ensures State() == File(old(State()), p)
      ensures signals == old(signals) + Signalled(old(State()), readers, p)
      ensures queueLen == old(queueLen) && readers == old(readers) && hasError == old(hasError)
      ensures |current| > |old(current)| && Sorted(readers) && Near(readers, read) ==>
          if exists r :: r in readers && r.n == read
          then exists thread :: Reader(read, thread) in readers && signals == old(signals) + [ReaderCond(thread)]
          else signals == old(signals)
      ensures |events| > |old(events)| ==> signals == old(signals) + [EventCond]
      ensures current == old(current) && events == old(events) ==> signals == old(signals)
    {
      if Sorted(readers) && Near(readers, read) {
        WaiterIsFound(readers, read);
      }
      var pend: Option<Pending> := None;
      if p.code == XCB_ERROR || p.code == XCB_REPLY {
        pend := if pending != [] then Some(pending[0]) else None;
        if pend.Some? && !(pend.value.first <= read && read <= pend.value.last) {
          pend := None;
        }
      }
      if pend.Some? && pend.value.flags.discard {
        return;
      }
      if p.code == XCB_REPLY || (p.code == XCB_ERROR && pend.Some? && pend.value.flags.checked) {
        current := current + [p];
        var i := 0;
        while i < |readers| && Compare32(readers[i].Request(), read) <= 0
          invariant 0 <= i <= |readers|
          invariant FirstWaiting(readers, read) == FirstWaiting(readers[i..], read)
        {
          if Compare32(readers[i].Request(), read) == 0 {
            signals := signals + [ReaderCond(readers[i].thread)];
            return;
          }
          i := i + 1;
        }
        return;
      }
      events := events + [Event(p, Cookie(read))];
      signals := signals + [EventCond];
    }

    /** Copy the whole packet out: `length` bytes, then the rest of an XGE event. */
    method TakeBytes(sock: Socket, header: seq<Byte>) returns (buf: seq<Byte>, ok: bool)
      requires Valid() && sock !in replies.Repr
      requires |header| == 32 && Fits(header)
      modifies `queueLen, `hasError, queue, sock
      ensures Valid() && State() == old(State())
      ensures ok ==> hasError == old(hasError) && |buf| == PacketSize(header)
      ensures ok ==> old(Queued()) + old(sock.incoming) == buf + (Queued() + sock.incoming)
      ensures !ok ==> hasError
      ensures sock.broken == (old(sock.broken) || !ok)
      ensures |sock.incoming| <= |old(sock.incoming)| && sock.patience <= old(sock.patience)
    {
      LengthsExact(header);
      var length := FirstLength(header);
      var eventlength := ExtraLength(header);
      buf, ok := InReadBlock(sock, length);
      if ok && eventlength != 0 {
        ghost var mid := Queued() + sock.incoming;
        var extra;
        extra, ok := InReadBlock(sock, eventlength);
        if ok {
          assert mid == extra + (Queued() + sock.incoming);
          buf := buf + extra;
        }
      }
    }

    method ReadPacket(sock: Socket) returns (more: bool, ghost bytes: seq<Byte>)
      requires Valid() && sock !in replies.Repr && AllFit(Queued() + sock.incoming)
      modifies this, queue, replies.Repr, sock
      ensures Valid() && fresh(replies.Repr - old(replies.Repr)) && readers == old(readers)
      ensures more ==> hasError == old(hasError) && |bytes| >= 32 && |bytes| == PacketSize(bytes)
      ensures more ==> old(Queued()) + old(sock.incoming) == bytes + (Queued() + sock.incoming)
      ensures more ==> State() == Receive(old(State()), Decode(bytes))
      ensures more ==> signals == old(signals) + Signalled(Advance(old(State()), Decode(bytes)), readers, Decode(bytes))
      ensures !more && !hasError ==> old(queueLen) < 32 && Queued() == old(Queued()) && sock.incoming == old(sock.incoming)
      ensures !more && !hasError ==> State() == old(State()) && signals == old(signals)
      ensures (old(sock.broken) ==> sock.broken) && (hasError ==> old(hasError) || sock.broken)
      ensures |sock.incoming| <= |old(sock.incoming)| && sock.patience <= old(sock.patience)
    {
      bytes := [];
      if queueLen < 32 {
        return false, bytes;
      }
      var header := queue[..32];
      ghost var all := Queued() + sock.incoming;
      HeaderSize(all, header);
      NoteSequence(Decode(header));
      var buf, ok := TakeBytes(sock, header);
      if !ok {
        return false, bytes;
      }
      assert all == buf + (Queued() + sock.incoming);
      assert buf[..32] == all[..32] == header;
      DecodeByHeader(old(State()), buf, header);
      bytes := buf;
      FilePacket(Packet(header[0], U16(header, 2), buf));
      more := true;
    }

    /**
     * _xcb_in_read: receive what there is, then take packets while at least 32
     * bytes are queued. `eaten` is what those packets were made of.
     */
    method InRead(sock: Socket) returns (ret: bool, ghost eaten: seq<Byte>)
      requires Valid() && sock !in replies.Repr && queueLen < 32
      requires AllFit(Queued() + sock.incoming)
      modifies this, queue, replies.Repr, sock
      ensures Valid() && fresh(replies.Repr - old(replies.Repr)) && readers == old(readers)
      ensures !hasError ==> ret && queueLen < 32
      ensures !hasError ==> Eaten(old(State()), old(Queued()) + old(sock.incoming), eaten, State(), Queued() + sock.incoming)
      ensures !hasError ==> |sock.incoming| < |old(sock.incoming)| || sock.patience < old(sock.patience)
      ensures (old(sock.broken) ==> sock.broken) && (hasError ==> old(hasError) || sock.broken)
    {
      var n := sock.Recv(QUEUE_SIZE - queueLen);
      if n.Data? {
        AppendToQueue(n.bytes);
      }
      assert Queued() + sock.incoming == old(Queued()) + old(sock.incoming);
      eaten := ReadPackets(sock);
      ret := n.Data? || n.RecvWouldBlock?;
      if !ret {
        hasError := true;
      }
    }

    /** `while(read_packet(c))`. */
    method ReadPackets(sock: Socket) returns (ghost eaten: seq<Byte>)
      requires Valid() && sock !in replies.Repr
      requires AllFit(Queued() + sock.incoming)
      modifies this, queue, replies.Repr, sock
      ensures Valid() && fresh(replies.Repr - old(replies.Repr)) && readers == old(readers)
      ensures !hasError ==> queueLen < 32
      ensures !hasError ==> Eaten(old(State()), old(Queued()) + old(sock.incoming), eaten, State(), Queued() + sock.incoming)
      ensures |sock.incoming| <= |old(sock.incoming)| && sock.patience <= old(sock.patience)
      ensures (old(sock.broken) ==> sock.broken) && (hasError ==> old(hasError) || sock.broken)
    {
      ghost var all := Queued() + sock.incoming;
      ghost var before := State();
      eaten := [];
      var more := true;
      while more
        invariant Valid() && fresh(replies.Repr - old(replies.Repr)) && sock !in replies.Repr && readers == old(readers)
        invariant |sock.incoming| <= |old(sock.incoming)| && sock.patience <= old(sock.patience)
        invariant (old(sock.broken) ==> sock.broken) && (hasError ==> old(hasError) || sock.broken)
        invariant more || !hasError ==> Eaten(before, all, eaten, State(), Queued() + sock.incoming)
        invariant !more && !hasError ==> queueLen < 32
        decreases more, queueLen + |sock.incoming|
      {
        ghost var bytes;
        ghost var left, state := Queued() + sock.incoming, State();
        more, bytes := ReadPacket(sock);
        if more {
          assert left == bytes + (Queued() + sock.incoming);
          EatOne(before, all, eaten, state, left, bytes, Queued() + sock.incoming);
          eaten := eaten + bytes;
        }
      }
    }

    method AppendToQueue(bytes: seq<Byte>)
      requires Valid() && queueLen + |bytes| <= QUEUE_SIZE
      modifies `queueLen, queue
      ensures Valid() && State() == old(State())
      ensures Queued() == old(Queued()) + bytes
    {
      forall i | 0 <= i < |bytes| {
        queue[queueLen + i] := bytes[i];
      }
      queueLen := queueLen + |bytes|;
    }

    // ----- poll_for_reply, get_event -----

    /**
     * poll_for_reply. An error goes to `error` if the caller passed a pointer
     * for it, and is freed otherwise.
     */
    method PollForReply(request: nat, wantsError: bool) returns (ret: bool, reply: Option<Packet>, error: Option<Packet>)
      requires Valid()
      modifies `current, replies.Repr
      ensures Valid() && fresh(replies.Repr - old(replies.Repr))
      ensures State() == Poll(old(State()), request).0
      ensures ret == !Poll(old(State()), request).1.Block?
      ensures match Poll(old(State()), request).1
        case Done(Some(p)) =>
          if p.code == XCB_ERROR then reply == None && error == (if wantsError then Some(p) else None)
          else reply == Some(p) && error == None
        case _ => reply == None && error == None
    {
      var head: Option<Packet> := None;
      if request == 0 {
      } else if Compare32(request, read) < 0 {
        var found := replies.Remove(request);
        if found.Some? && found.value != [] {
          head := Some(found.value[0]);
          if |found.value| > 1 {
            replies.Put(request, found.value[1..]);
          }
        }
      } else if Compare32(request, read) == 0 && current != [] {
        head := Some(current[0]);
        current := current[1..];
      } else if Compare32(request, completed) == 0 {
      } else {
        return false, None, None;
      }
      ret, reply, error := true, None, None;
      if head.Some? {
        if head.value.code == XCB_ERROR {
          if wantsError {
            error := head;
          }
        } else {
          reply := head;
        }
      }
    }

    method GetEvent() returns (event: Option<Event>)
      requires Valid()
      modifies `events
      ensures Valid() && State() == TakeEvent(old(State())).0
      ensures event == TakeEvent(old(State())).1
    {
      if events == [] {
        return None;
      }
      event := Some(events[0]);
      events := events[1..];
    }

    /**
     * xcb_poll_for_event: an event that is queued is taken without reading;
     * otherwise what there is is read, and the first event this brought is taken.
     */
    method PollForEvent(sock: Socket) returns (event: Option<Event>, ghost eaten: seq<Byte>)
      requires Valid() && sock !in replies.Repr && queueLen < 32 && AllFit(Queued() + sock.incoming)
      modifies this, queue, replies.Repr, sock
      ensures Valid() && fresh(replies.Repr - old(replies.Repr)) && readers == old(readers)
      ensures old(hasError) || old(events) != [] ==>
        && hasError == old(hasError) && Queued() == old(Queued()) && sock.incoming == old(sock.incoming)
        && event == (if old(hasError) then None else Some(old(events)[0]))
        && State() == (if old(hasError) then old(State()) else old(State()).(events := old(events)[1..]))
      ensures !old(hasError) && old(events) == [] && !hasError ==>
        && eaten + Queued() + sock.incoming == old(Queued()) + old(sock.incoming)
        && var seen := ReceiveAll(old(State()), Parse(eaten));
           if seen.events == [] then event == None && State() == seen
           else event == Some(seen.events[0]) && State() == seen.(events := seen.events[1..])
      ensures hasError ==> old(hasError) || sock.broken
    {
      event, eaten := None, [];
      if !hasError {
        event := GetEvent();
        if event.None? {
          var ok;
          ok, eaten := InRead(sock);
          if ok {
            event := GetEvent();
          }
        }
      }
    }

    // ----- the pending list -----

    /** _xcb_in_expect_reply. */
    method ExpectReply(request: nat, flags: Flags)
      requires Valid()
      modifies `pending
      ensures Valid() && State() == Expect(old(State()), request, flags)
    {
      pending := pending + [Pending(request, request, flags)];
    }

    /** insert_pending_discard, before the record with the given index. */
    method InsertPendingDiscard(at: nat, seq_: nat)
      requires at <= |pending|
      modifies `pending
      ensures pending == old(pending)[..at] + ([Pending(seq_, seq_, DISCARD)] + old(pending)[at..])
    {
      pending := pending[..at] + ([Pending(seq_, seq_, DISCARD)] + pending[at..]);
    }

    /** discard_reply; `newest` is out.request. */
    method DiscardReply(newest: nat, request: nat)
      requires Valid()
      modifies `current, `pending, replies.Repr
      ensures Valid() && fresh(replies.Repr - old(replies.Repr))
      ensures State() == Discard(old(State()), newest, request)
    {
      if Compare32(request, read) < 0 {
        var freed := replies.Remove(request);
        return;
      }
      if Compare32(request, read) == 0 && current != [] {
        current := [];
        if pending != [] && Covers(pending[0], read) {
          pending := [Mark(pending[0])] + pending[1..];
        } else {
          InsertPendingDiscard(0, read);
        }
        return;
      }
      WalkPending(newest, request);
    }

    /** The walk of discard_reply along the pending list. */
    method WalkPending(newest: nat, request: nat)
      modifies `pending
      ensures pending == MarkOrInsert(old(pending), request, Widen(newest, request))
    {
      var i := 0;
      while i < |pending| && Compare32(pending[i].first, request) < 0
        invariant 0 <= i <= |pending|
        invariant forall j :: 0 <= j < i ==> Compare32(pending[j].first, request) < 0
      {
        i := i + 1;
      }
      MarkOrInsertAt(pending, request, Widen(newest, request), i);
      if i < |pending| && Compare32(pending[i].first, request) == 0 {
        pending := pending[..i] + ([Mark(pending[i])] + pending[i + 1..]);
        return;
      }
      InsertPendingDiscard(i, Widen(newest, request));
    }

    // ----- the readers list -----

    /** The thread enters the list. */
    method LinkReader(reader: Reader)
      modifies `readers
      ensures readers == Link(old(readers), reader)
    {
      var i := LinkPlace(readers, reader);
      readers := readers[..i] + ([reader] + readers[i..]);
    }

    /** And leaves it. */
    method UnlinkReader(reader: Reader)
      modifies `readers
      ensures readers == Unlink(old(readers), reader)
    {
      var i, found := UnlinkPlace(readers, reader);
      if found {
        readers := readers[..i] + readers[i + 1..];
      }
    }

    /** _xcb_in_wake_up_next_reader. */
    method WakeUpNextReader()
      modifies `signals
      ensures signals == old(signals) + [NextSignal(readers)]
    {
      if readers != [] {
        signals := signals + [ReaderCond(readers[0].thread)];
      } else {
        signals := signals + [EventCond];
      }
    }
  }

  /** The reading side once a packet's number is known, before anything is pruned. */
  function Moved(s: Inbound, low: Low): Inbound {
    var read := Rebuild(s.read, low);
    var moved := read != s.read;
    s.(read := read,
       expected := if read > s.expected then read else s.expected,
       replies := if moved && s.current != [] then s.replies + [(Cookie(s.read), s.current)] else s.replies,
       current := if moved then [] else s.current,
       completed := if moved then read - 1 else s.completed)
  }

  lemma AdvanceIsMoved(s: Inbound, p: Packet)
    requires p.IsNumbered()
    ensures var m := Moved(s, p.low);
      Advance(s, p) == m.(pending := Prune(s.pending, m.completed), completed := if p.IsError() then m.read else m.completed)
  {
  }

  /** The walk acts at the first record that is not below the request. */
  lemma {:induction false} MarkOrInsertAt(pending: seq<Pending>, cookie: nat, widened: nat, i: nat)
    requires i <= |pending| && forall j :: 0 <= j < i ==> Compare32(pending[j].first, cookie) < 0
    requires i < |pending| ==> Compare32(pending[i].first, cookie) >= 0
    ensures MarkOrInsert(pending, cookie, widened)
      == if i < |pending| && Compare32(pending[i].first, cookie) == 0 then pending[..i] + ([Mark(pending[i])] + pending[i + 1..])
         else pending[..i] + ([Pending(widened, widened, DISCARD)] + pending[i..])
  {
    if i > 0 {
      var rest := pending[1..];
      MarkOrInsertAt(rest, cookie, widened, i - 1);
      assert pending == [pending[0]] + rest;
      assert pending[..i] == [pending[0]] + rest[..i - 1];
      if i < |pending| && Compare32(pending[i].first, cookie) == 0 {
        assert pending[i + 1..] == rest[i..];
      } else {
        assert pending[i..] == rest[i - 1..];
      }
    } else {
      assert pending[..0] == [] && pending[0..] == pending;
    }
  }

  // ----- chunks -----

  lemma {:induction false} ReceiveAllConcat(s: Inbound, a: seq<Packet>, b: seq<Packet>)
    ensures ReceiveAll(s, a + b) == ReceiveAll(ReceiveAll(s, a), b)
    decreases |a|
  {
    if a == [] {
      assert a + b == b;
    } else {
      assert (a + b)[1..] == a[1..] + b;
      ReceiveAllConcat(Receive(s, a[0]), a[1..], b);
    }
  }

  /**
   * Of the bytes `all`, a whole number of packets has been taken, `left`
   * remains, and the state is what receiving those packets one by one makes.
   */
  ghost predicate Eaten(before: Inbound, all: seq<Byte>, eaten: seq<Byte>, after: Inbound, left: seq<Byte>) {
    && all == eaten + left && AllFit(left)
    && Unparsed(eaten) == []
    && after == ReceiveAll(before, Parse(eaten))
  }

  lemma ParseOne(bytes: seq<Byte>)
    requires |bytes| >= 32 && |bytes| == PacketSize(bytes)
    ensures Parse(bytes) == [Decode(bytes)] && Unparsed(bytes) == []
  {
    assert bytes[..|bytes|] == bytes && bytes[|bytes|..] == [];
  }

  lemma ReceiveLast(s: Inbound, ps: seq<Packet>, p: Packet)
    ensures ReceiveAll(s, ps + [p]) == Receive(ReceiveAll(s, ps), p)
  {
    ReceiveAllConcat(s, ps, [p]);
    var t := ReceiveAll(s, ps);
    assert ReceiveAll(t, [p]) == ReceiveAll(Receive(t, p), [p][1..]);
  }

  /** One more packet, of exactly its own bytes. */
  lemma EatOne(before: Inbound, all: seq<Byte>, eaten: seq<Byte>, s: Inbound, left: seq<Byte>, bytes: seq<Byte>, rest: seq<Byte>)
    requires Eaten(before, all, eaten, s, left) && left == bytes + rest
    requires |bytes| >= 32 && |bytes| == PacketSize(bytes)
    ensures Eaten(before, all, eaten + bytes, Receive(s, Decode(bytes)), rest)
  {
    ParseWhole(eaten, bytes);
    ParseOne(bytes);
    ReceiveLast(before, Parse(eaten), Decode(bytes));
    RestFits(bytes, rest);
    Reassociate(eaten, bytes, rest);
  }

  lemma RestFits(bytes: seq<Byte>, rest: seq<Byte>)
    requires |bytes| >= 32 && |bytes| == PacketSize(bytes) && AllFit(bytes + rest)
    ensures AllFit(rest)
  {
    assert PacketSize(bytes + rest) == PacketSize(bytes) && (bytes + rest)[|bytes|..] == rest;
  }

  lemma ParseWhole(a: seq<Byte>, b: seq<Byte>)
    requires Unparsed(a) == []
    ensures Parse(a + b) == Parse(a) + Parse(b) && Unparsed(a + b) == Unparsed(b)
  {
    ParseConcat(a, b);
    assert [] + b == b;
  }

  /** Successive reads add up. */
  lemma EatenTwice(s: Inbound, all: seq<Byte>, e: seq<Byte>, t: Inbound, left: seq<Byte>, e': seq<Byte>, u: Inbound, left': seq<Byte>)
    requires Eaten(s, all, e, t, left) && Eaten(t, left, e', u, left')
    ensures Eaten(s, all, e + e', u, left')
  {
    ParseWhole(e, e');
    ReceiveAllConcat(s, Parse(e), Parse(e'));
    assert all == (e + e') + left';
  }

  /**
   * However the bytes were cut up on the way, the packets taken are the first
   * packets of the stream; once all bytes are there, packets, state and the
   * bytes left over depend on the stream alone.
   */
  lemma ChunksDoNotMatter(s: Inbound, all: seq<Byte>, eaten: seq<Byte>, t: Inbound, left: seq<Byte>)
    requires Eaten(s, all, eaten, t, left)
    ensures Parse(all) == Parse(eaten) + Parse(left)
    ensures |left| < 32 ==> Parse(eaten) == Parse(all) && left == Unparsed(all) && t == ReceiveAll(s, Parse(all))
  {
    ParseWhole(eaten, left);
  }

  /** A header is all that decides how long the packet is. */
  lemma HeaderSize(all: seq<Byte>, header: seq<Byte>)
    requires |all| >= 32 && header == all[..32] && AllFit(all)
    ensures PacketSize(all) == PacketSize(header) && Fits(header)
  {
  }

  lemma DecodeByHeader(s: Inbound, bytes: seq<Byte>, header: seq<Byte>)
    requires |bytes| >= 32 && header == bytes[..32]
    ensures PacketSize(bytes) == PacketSize(header)
    ensures Decode(bytes) == Packet(header[0], U16(header, 2), bytes)
    ensures Advance(s, Decode(bytes)) == Advance(s, Decode(header))
  {
  }

  /** The signal read_packet sends once it has the packet, if any. */
  function Signalled(advanced: Inbound, readers: seq<Reader>, p: Packet): seq<Signal> {
    var pend := Pend(advanced, p);
    if pend.Some? && pend.value.flags.discard then []
    else if p.IsReply() || (p.IsError() && pend.Some? && pend.value.flags.checked) then
      match FirstWaiting(readers, advanced.read)
      case Some(thread) => [ReaderCond(thread)]
      case None => []
    else [EventCond]
  }
}
