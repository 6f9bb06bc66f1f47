/**
 * What a call comes to: a thread that returns from sending, flushing or waiting
 * on a working connection has got what it called for, and every packet that
 * comes in while a thread polls is read.
 */
module ThreadCalls {
  import opened Wrappers
  import opened Sequence
  import opened Packets
  import opened Inbound
  import opened Framing
  import opened Readers
  import opened Threads
  import opened ThreadSafety
  import opened ThreadSteps
  import opened ThreadDelivery

  // ----- what is read -----

  function ReadsOf(hs: seq<Happening>): seq<Packet> {
    if hs == [] then [] else (if hs[0].Read? then [hs[0].p] else []) + ReadsOf(hs[1..])
  }

  lemma {:induction false} ReadsAppend(a: seq<Happening>, b: seq<Happening>)
    ensures ReadsOf(a + b) == ReadsOf(a) + ReadsOf(b)
  {
    if a == [] {
      assert a + b == b;
    } else {
      assert (a + b)[0] == a[0] && (a + b)[1..] == a[1..] + b;
      ReadsAppend(a[1..], b);
    }
  }

  /** The trace has grown, by these packets among other things. */
  ghost predicate Adds(sys: System, s: System, ps: seq<Packet>) {
    sys.trace <= s.trace && ReadsOf(Since(sys, s)) == ps
  }

  lemma AddsNothing(sys: System, s: System)
    requires s.trace == sys.trace
    ensures Adds(sys, s, [])
  {
    assert Since(sys, s) == [];
  }

  lemma AddsOne(sys: System, s: System, h: Happening)
    requires s.trace == sys.trace + [h]
    ensures Adds(sys, s, if h.Read? then [h.p] else [])
  {
    assert Since(sys, s) == [h] && [h][1..] == [];
  }

  lemma AddsTwice(a: System, b: System, c: System, ps: seq<Packet>, qs: seq<Packet>)
    requires Adds(a, b, ps) && Adds(b, c, qs)
    ensures Adds(a, c, ps + qs)
  {
    SinceTwice(a, b, c);
    ReadsAppend(Since(a, b), Since(b, c));
  }

  function PacketsOf(arrivals: seq<Arrival>): seq<Packet> {
    if arrivals == [] then [] else [arrivals[0].p] + PacketsOf(arrivals[1..])
  }

  lemma {:induction false} ReadPacketsAdd(sys: System, arrivals: seq<Arrival>)
    ensures Adds(sys, ReadPackets(sys, arrivals), PacketsOf(arrivals))
    decreases |arrivals|
  {
    if arrivals == [] {
      AddsNothing(sys, sys);
    } else {
      var s := ReadPacket(sys, arrivals[0]);
      AddsOne(sys, s, Read(arrivals[0].p));
      ReadPacketsAdd(s, arrivals[1..]);
      AddsTwice(sys, s, ReadPackets(sys, arrivals), [arrivals[0].p], PacketsOf(arrivals[1..]));
    }
  }

  /** The packets that come in while a thread polls, or calls xcb_poll_for_event with no event queued. */
  function Incoming(input: Option<Input>): seq<Packet> {
    if input.Some? then PacketsOf(input.value.arrivals) else []
  }

  lemma ReadableAdds(sys: System, o: Outcome)
    requires o.Ready?
    ensures Adds(sys, Readable(sys, o).0, Incoming(o.input))
  {
    if o.input.Some? {
      ReadPacketsAdd(sys, o.input.value.arrivals);
    } else {
      AddsNothing(sys, sys);
    }
  }

  lemma LeavesAdd(sys: System, t: nat, n: nat, pick: nat)
    ensures Adds(sys, LeaveReply(sys, t, n, pick), [])
  {
    AddsNothing(sys, LeaveReply(sys, t, n, pick));
  }

  lemma ReplyLoopAdds(sys: System, t: nat, n: nat, pick: nat)
    ensures Adds(sys, ReplyLoop(sys, t, n, pick), [])
  {
    WaiterIsHanded(sys, t, n, pick);
    if Cookie(n) == 0 {
      AddsNothing(sys, ReplyLoop(sys, t, n, pick));
    } else {
      AddsOne(sys, ReplyLoop(sys, t, n, pick), Asked(Some(t), n, Poll(sys.inb, Cookie(n)).1));
    }
  }

  lemma EventLoopAdds(sys: System, t: nat, pick: nat)
    ensures Adds(sys, EventLoop(sys, t, pick), [])
  {
    if sys.inb.events == [] {
      AddsNothing(sys, EventLoop(sys, t, pick));
    } else {
      AddsOne(sys, EventLoop(sys, t, pick), Took(Some(t), sys.inb.events[0]));
    }
  }

  lemma AfterFlushAdds(sys: System, t: nat, ret: bool, after: Then, pick: nat)
    ensures Adds(sys, AfterFlush(sys, t, ret, after, pick), [])
  {
    if after.ReplyTo? && ret {
      ReplyLoopAdds(sys.(readers := Link(sys.readers, Reader(after.n, t))), t, after.n, pick);
    } else {
      AddsNothing(sys, AfterFlush(sys, t, ret, after, pick));
    }
  }

  lemma FlushAdds(sys: System, t: nat, to: nat, after: Then, pick: nat)
    ensures Adds(sys, FlushTo(sys, t, to, after, pick), []) && Adds(sys, FlushLoop(sys, t, to, after, pick), [])
  {
    AfterFlushAdds(sys, t, true, after, pick);
    if sys.writing > 0 {
      AddsNothing(sys, FlushLoop(sys, t, to, after, pick));
    }
    if sys.written < to && sys.queueLen > 0 {
      AddsNothing(sys, FlushTo(sys, t, to, after, pick));
    }
  }

  lemma WriteLoopAdds(sys: System, t: nat, f: InFlight, purpose: Purpose, ret: bool, pick: nat)
    ensures Adds(sys, WriteLoop(sys, t, f, purpose, ret, pick), [])
  {
    var final := WriteLoop(sys, t, f, purpose, ret, pick);
    if ret && Bytes(sys.queue, f) != [] {
      AddsNothing(sys, final);
    } else {
      var s := WakeNext(Become(Finished(sys), t, Idle), pick);
      AddsOne(sys, s, Wrote(sys.request));
      match purpose {
        case Sending => AddsNothing(s, final);
        case Flushing(after) => AfterFlushAdds(s, t, ret, after, pick);
      }
      AddsTwice(sys, s, final, [], []);
    }
  }

  lemma SendAdds(sys: System, t: nat, call: Call)
    requires call.Send?
    ensures Adds(sys, SendLoop(sys, t, call), [])
  {
    if sys.writing > 0 {
      AddsNothing(sys, SendLoop(sys, t, call));
    } else {
      AddsOne(sys, SendLoop(sys, t, call), Sent(call.isVoid, call.flags));
    }
  }

  lemma WriterAdds(sys: System, t: nat, f: InFlight, purpose: Purpose, o: Outcome, pick: nat)
    requires o.Ready?
    ensures Adds(sys, WriterRuns(sys, t, f, purpose, o, pick), Incoming(o.input))
  {
    var s, ok := Readable(sys, o).0, Readable(sys, o).1;
    var final := WriterRuns(sys, t, f, purpose, o, pick);
    ReadableAdds(sys, o);
    match WroteOf(sys, o)
    case Some(w) =>
      var d := Left(Writable(s, f, w).0, t);
      AddsNothing(s, d);
      WriteLoopAdds(d, t, Writable(s, f, w).1, purpose, Writable(s, f, w).2, pick);
      AddsTwice(s, d, final, [], []);
      AddsTwice(sys, s, final, Incoming(o.input), []);
    case None =>
      AddsNothing(s, Left(s, t));
      WriteLoopAdds(Left(s, t), t, f, purpose, ok, pick);
      AddsTwice(s, Left(s, t), final, [], []);
      AddsTwice(sys, s, final, Incoming(o.input), []);
  }

  lemma ReaderAdds(sys: System, t: nat, o: Outcome, pick: nat)
    requires Polls(At(sys.threads, t)) && o.Ready?
    ensures Adds(sys, LockedStretch(sys, t, o, pick), Incoming(o.input))
  {
    var s, ret := Readable(sys, o).0, Readable(sys, o).1;
    var s1 := Become(s.(reading := s.reading - 1), t, At(sys.threads, t).(stage := Woken));
    var final := LockedStretch(sys, t, o, pick);
    ReadableAdds(sys, o);
    AddsNothing(s, s1);
    match At(sys.threads, t) {
      case ReplyWait(n, _) =>
        ReplyLoopAdds(s1, t, n, pick);
        LeavesAdd(s1, t, n, pick);
      case EventWait(_) =>
        EventLoopAdds(s1, t, pick);
        AddsNothing(s1, WakeNext(Become(s1, t, Idle), pick));
      case _ =>
    }
    AddsTwice(s, s1, final, [], []);
    AddsTwice(sys, s, final, Incoming(o.input), []);
  }

  /** A thread in poll(2). */
  predicate InPoll(pc: Pc) { pc.Writing? || Polls(pc) }

  lemma PollerAdds(sys: System, t: nat, o: Outcome, pick: nat)
    requires InPoll(At(sys.threads, t)) && o.Ready?
    ensures Adds(sys, LockedStretch(sys, t, o, pick), Incoming(o.input))
  {
    var pc := At(sys.threads, t);
    if pc.Writing? {
      WriterAdds(sys, t, pc.rest, pc.purpose, o, pick);
    } else {
      ReaderAdds(sys, t, o, pick);
    }
  }

  lemma OthersAdd(sys: System, t: nat, o: Outcome, pick: nat)
    requires !InPoll(At(sys.threads, t))
    ensures Adds(sys, LockedStretch(sys, t, o, pick), [])
  {
    AddsNothing(sys, sys);
    match At(sys.threads, t)
    case Entering(Send(req, isVoid, flags)) => SendAdds(sys, t, Send(req, isVoid, flags));
    case Entering(Flush) => FlushAdds(sys, t, sys.request, Return, pick);
    case Entering(AwaitReply(n)) => FlushAdds(sys, t, Widen(sys.request, Cookie(n)), ReplyTo(n), pick);
    case Entering(AwaitEvent) => EventLoopAdds(sys, t, pick);
    case SendWait(call, true) => if call.Send? { SendAdds(sys, t, call); }
    case FlushWait(to, after, true) => FlushAdds(sys, t, to, after, pick);
    case WriteWait(f, purpose, true) => WriteLoopAdds(sys, t, f, purpose, true, pick);
    case ReplyWait(n, Woken) => ReplyLoopAdds(sys, t, n, pick);
    case EventWait(Woken) => EventLoopAdds(sys, t, pick);
    case _ =>
  }

  /** The packets an action brings in. */
  function Brought(sys: System, a: Action): seq<Packet> {
    match a
    case Runs(t, Ready(input, _), _) => if InPoll(At(sys.threads, t)) then Incoming(input) else []
    case PollEvent(input) => if sys.inb.events == [] then PacketsOf(input.arrivals) else []
    case _ => []
  }

  /**
   * As long as the connection works, each packet that comes in while a thread
   * polls, or asks for an event when none is queued, is read at once, in order,
   * and nothing else is.
   */
  lemma PacketsAreRead(sys: System, a: Action)
    requires !Next(sys, a).hasError
    ensures Adds(sys, Next(sys, a), Brought(sys, a))
  {
    var s := Next(sys, a);
    match a
    case Runs(t, o, pick) =>
      if !InPoll(At(sys.threads, t)) {
        OthersAdd(sys, t, o, pick);
      } else if o.Ready? {
        PollerAdds(sys, t, o, pick);
      } else {
        FailedPoll(sys, t, o, pick);
      }
    case PollReply(n) =>
      if Cookie(n) == 0 {
        AddsNothing(sys, s);
      } else {
        AddsOne(sys, s, Asked(None, n, Poll(sys.inb, Cookie(n)).1));
      }
    case DiscardReply(n) =>
      if Cookie(n) == 0 {
        AddsNothing(sys, s);
      } else {
        AddsOne(sys, s, Dropped(n));
      }
    case PollEvent(input) => PollEventAdds(sys, input);
    case _ => AddsNothing(sys, s);
  }

  lemma TakesAdds(sys: System, who: Option<nat>)
    ensures Adds(sys, Takes(sys, who), [])
  {
    if sys.inb.events == [] {
      AddsNothing(sys, sys);
    } else {
      AddsOne(sys, Takes(sys, who), Took(who, sys.inb.events[0]));
    }
  }

  lemma PollEventAdds(sys: System, input: Input)
    requires !PollsForEvent(sys, input).hasError
    ensures Adds(sys, PollsForEvent(sys, input), if sys.inb.events == [] then PacketsOf(input.arrivals) else [])
  {
    if sys.inb.events != [] {
      TakesAdds(sys, None);
    } else {
      var s := InRead(sys, input).0;
      ReadPacketsAdd(sys, input.arrivals);
      TakesAdds(s, None);
      AddsTwice(sys, s, Takes(s, None), PacketsOf(input.arrivals), []);
    }
  }

  lemma FailedPoll(sys: System, t: nat, o: Outcome, pick: nat)
    requires InPoll(At(sys.threads, t)) && o.PollFails?
    ensures LockedStretch(sys, t, o, pick).hasError
  {
    match At(sys.threads, t) {
      case Writing(f, purpose) => FailsForGood(Left(sys.(hasError := true), t), t, f, purpose, false, pick);
      case _ =>
    }
  }

  lemma FailsForGood(sys: System, t: nat, f: InFlight, purpose: Purpose, ret: bool, pick: nat)
    requires sys.hasError
    ensures WriteLoop(sys, t, f, purpose, ret, pick).hasError
  {
    WriteLoopSilent(sys, t, f, purpose, ret, pick);
  }

  /**
   * xcb_poll_for_event takes the oldest event queued, without reading if there
   * is one; otherwise it reads and takes the first event that this brought.
   */
  lemma PollEventTakes(sys: System, input: Input)
    ensures var s := PollsForEvent(sys, input);
      var seen := if sys.inb.events == [] then ReceiveAll(sys.inb, PacketsOf(input.arrivals)) else sys.inb;
      && (sys.inb.events == [] && input.Broken? ==> s.hasError)
      && (sys.inb.events != [] || input.Packets? ==>
            if seen.events == [] then s.inb == seen && (s.trace == sys.trace || (s.trace != [] && s.trace[|s.trace| - 1].Read?))
            else s.inb == seen.(events := seen.events[1..]) && s.trace != [] && s.trace[|s.trace| - 1] == Took(None, seen.events[0]))
  {
    ReadPacketsReceive(sys, input.arrivals);
  }

  lemma {:induction false} ReadPacketsReceive(sys: System, arrivals: seq<Arrival>)
    ensures var s := ReadPackets(sys, arrivals);
      && s.inb == ReceiveAll(sys.inb, PacketsOf(arrivals))
      && (if arrivals == [] then s.trace == sys.trace else s.trace != [] && s.trace[|s.trace| - 1].Read?)
    decreases |arrivals|
  {
    if arrivals != [] {
      ReadPacketsReceive(ReadPacket(sys, arrivals[0]), arrivals[1..]);
      assert PacketsOf(arrivals)[1..] == PacketsOf(arrivals[1..]);
      if arrivals[1..] == [] {
        assert ReadPackets(ReadPacket(sys, arrivals[0]), []) == ReadPacket(sys, arrivals[0]);
      }
    }
  }

  /** Each call of an application is acted on: a thread sets out on it, or the reading side is asked and what it says is on the record. */
  lemma CallsHappen(sys: System, a: Action)
    ensures var s := Next(sys, a);
      match a
      case Start(t, call) => At(s.threads, t) == Entering(call)
      case PollReply(n) => Cookie(n) != 0 ==> s.trace == sys.trace + [Asked(None, n, Poll(sys.inb, Cookie(n)).1)]
      case DiscardReply(n) => Cookie(n) != 0 ==> s.trace == sys.trace + [Dropped(n)]
      case _ => true
  {
  }

  // ----- what a call is for -----

  predicate Answers(h: Happening, t: nat, n: nat) {
    h.Asked? && h.who == Some(t) && h.n == n && h.answer.Done?
  }

  predicate GivesEvent(h: Happening, t: nat) {
    h.Took? && h.who == Some(t)
  }

  /** The call begun in the first state has, by the second, come to what it is for. */
  ghost predicate Delivered(sys: System, s: System, t: nat, call: Call) {
    match call
    case Send(req, _, _) => exists i :: |sys.log| <= i < |s.log| && s.log[i] == FrameOf(req)
    case Flush => sys.request <= s.written
    case AwaitReply(n) => Cookie(n) == 0 || exists i :: |sys.trace| <= i < |s.trace| && Answers(s.trace[i], t, n)
    case AwaitEvent => exists i :: |sys.trace| <= i < |s.trace| && GivesEvent(s.trace[i], t)
  }

  /** Where a thread is that is on its way with a call; a flush covers the requests up to `upto`. */
  predicate UnderWay(s: System, pc: Pc, call: Call, upto: nat) {
    (pc == Entering(call) && upto <= s.request) ||
    match call
    case Send(_, _, _) => pc.SendWait? && pc.call == call
    case Flush =>
      || (pc.FlushWait? && pc.after == Return && upto <= pc.to)
      || (pc.Writing? && pc.purpose == Flushing(Return) && upto <= s.request)
    case AwaitReply(n) =>
      || (pc.FlushWait? && pc.after == ReplyTo(n))
      || (pc.Writing? && pc.purpose == Flushing(ReplyTo(n)))
      || (pc.ReplyWait? && pc.n == n)
    case AwaitEvent => pc.EventWait?
  }

  /** Requests, records and what is written only grow. */
  predicate Grows(sys: System, s: System) {
    sys.request <= s.request && sys.written <= s.written && sys.log <= s.log && sys.trace <= s.trace
  }

  lemma StepGrows(sys: System, a: Action)
    requires Invariant(sys) && Legal(sys, a) && !Next(sys, a).hasError
    ensures Grows(sys, Next(sys, a))
  {
    FrameNumbers(sys, a);
    PacketsAreRead(sys, a);
  }

  lemma DeliveredStays(sys: System, s: System, s': System, t: nat, call: Call)
    requires Delivered(sys, s, t, call) && Grows(s, s')
    ensures Delivered(sys, s', t, call)
  {
    match call
    case Send(req, _, _) =>
      var i :| |sys.log| <= i < |s.log| && s.log[i] == FrameOf(req);
      assert s'.log[i] == FrameOf(req);
    case Flush =>
    case AwaitReply(n) =>
      if Cookie(n) != 0 {
        var i :| |sys.trace| <= i < |s.trace| && Answers(s.trace[i], t, n);
        assert Answers(s'.trace[i], t, n);
      }
    case AwaitEvent =>
      var i :| |sys.trace| <= i < |s.trace| && GivesEvent(s.trace[i], t);
      assert GivesEvent(s'.trace[i], t);
  }

  lemma DeliveredSince(sys: System, s: System, s': System, t: nat, call: Call)
    requires Grows(sys, s) && Delivered(s, s', t, call)
    ensures Delivered(sys, s', t, call)
  {
  }

  /** The thread is on its way with the call, or has got what it is for. */
  ghost predicate Keeps(sys: System, s: System, t: nat, call: Call, upto: nat) {
    UnderWay(s, At(s.threads, t), call, upto) || if call.Flush? then upto <= s.written else Delivered(sys, s, t, call)
  }

  // ----- a step of the thread itself -----

  lemma SendDelivers(sys: System, t: nat, call: Call)
    requires Invariant(sys) && call.Send?
    ensures Keeps(sys, SendLoop(sys, t, call), t, call, 0)
  {
    if sys.writing == 0 {
      var s := SendLoop(sys, t, call);
      SendLogs(sys, t, call);
      assert s.log[|s.log| - 1] == FrameOf(call.req);
    }
  }

  lemma ReplyLoopDelivers(sys: System, t: nat, n: nat, pick: nat)
    ensures Keeps(sys, ReplyLoop(sys, t, n, pick), t, AwaitReply(n), 0)
  {
    var s := ReplyLoop(sys, t, n, pick);
    WaiterIsHanded(sys, t, n, pick);
    if Cookie(n) != 0 && Poll(sys.inb, Cookie(n)).1.Done? {
      assert Answers(s.trace[|sys.trace|], t, n);
    }
  }

  lemma EventLoopDelivers(sys: System, t: nat, pick: nat)
    ensures Keeps(sys, EventLoop(sys, t, pick), t, AwaitEvent, 0)
  {
    var s := EventLoop(sys, t, pick);
    if sys.inb.events != [] {
      assert GivesEvent(s.trace[|sys.trace|], t);
    }
  }

  lemma FlushDelivers(sys: System, t: nat, to: nat, pick: nat)
    requires Invariant(sys) && to <= sys.request
    ensures Keeps(sys, FlushTo(sys, t, to, Return, pick), t, Flush, to)
    ensures sys.writing > 0 || sys.written >= to ==> Keeps(sys, FlushLoop(sys, t, to, Return, pick), t, Flush, to)
  {
  }

  lemma EnterDelivers(sys: System, t: nat, n: nat, pick: nat)
    ensures Keeps(sys, EnterReply(sys, t, n, pick), t, AwaitReply(n), 0)
  {
    ReplyLoopDelivers(sys.(readers := Link(sys.readers, Reader(n, t))), t, n, pick);
  }

  lemma FlushForReplyDelivers(sys: System, t: nat, to: nat, n: nat, pick: nat)
    requires Invariant(sys)
    ensures Keeps(sys, FlushTo(sys, t, to, ReplyTo(n), pick), t, AwaitReply(n), 0)
    ensures Keeps(sys, FlushLoop(sys, t, to, ReplyTo(n), pick), t, AwaitReply(n), 0)
  {
    EnterDelivers(sys, t, n, pick);
  }

  /** The call a thread that writes has made, unless it sends: then its request is on the record already. */
  predicate WritesFor(purpose: Purpose, call: Call) {
    (purpose == Flushing(Return) && call == Flush) || (call.AwaitReply? && purpose == Flushing(ReplyTo(call.n)))
  }

  lemma WriteLoopDelivers(sys: System, t: nat, f: InFlight, purpose: Purpose, ret: bool, pick: nat, call: Call)
    requires sys.writing == 0 && At(sys.threads, t) == Idle && WritesFor(purpose, call) && (!ret ==> sys.hasError)
    requires !WriteLoop(sys, t, f, purpose, ret, pick).hasError && sys.written <= sys.request
    ensures Keeps(sys, WriteLoop(sys, t, f, purpose, ret, pick), t, call, sys.request)
  {
    var final := WriteLoop(sys, t, f, purpose, ret, pick);
    WriteLoopSilent(sys, t, f, purpose, ret, pick);
    if Bytes(sys.queue, f) == [] && call.AwaitReply? {
      var s := WakeNext(Become(Finished(sys), t, Idle), pick);
      EnterDelivers(s, t, call.n, pick);
      if Delivered(s, final, t, call) {
        DeliveredSince(sys, s, final, t, call);
      }
    }
  }

  lemma KeptSince(sys: System, s: System, s': System, t: nat, call: Call, upto: nat)
    requires Grows(sys, s) && Keeps(s, s', t, call, upto)
    ensures Keeps(sys, s', t, call, upto)
  {
    if Delivered(s, s', t, call) {
      DeliveredSince(sys, s, s', t, call);
    }
  }

  /** Reading changes nothing a call's way depends on. */
  lemma ReadingGrows(sys: System, o: Outcome)
    requires Readable(sys, o).1
    ensures Grows(sys, Readable(sys, o).0)
  {
    ReadableOnlyReads(sys, o);
    ReadableAdds(sys, o);
  }

  lemma WriterDelivers(sys: System, t: nat, f: InFlight, purpose: Purpose, o: Outcome, pick: nat, call: Call, upto: nat)
    requires Invariant(sys) && At(sys.threads, t) == Writing(f, purpose) && Possible(sys, At(sys.threads, t), o)
    requires WritesFor(purpose, call) && upto <= sys.request
    requires !WriterRuns(sys, t, f, purpose, o, pick).hasError
    ensures Keeps(sys, WriterRuns(sys, t, f, purpose, o, pick), t, call, upto)
  {
    var s, ok := Readable(sys, o).0, Readable(sys, o).1;
    assert SomeWriter(sys.threads) && sys.writing == 1;
    ReadableOnlyReads(sys, o);
    match WroteOf(sys, o)
    case Some(w) =>
      var d := Left(Writable(s, f, w).0, t);
      WrittenDelivers(sys, t, o, d, Writable(s, f, w).1, purpose, Writable(s, f, w).2, pick, call, upto);
    case None =>
      WrittenDelivers(sys, t, o, Left(s, t), f, purpose, ok, pick, call, upto);
  }

  lemma WrittenDelivers(sys: System, t: nat, o: Outcome, d: System, f: InFlight, purpose: Purpose, ret: bool, pick: nat, call: Call, upto: nat)
    requires WritesFor(purpose, call) && upto <= sys.request && sys.written <= sys.request
    requires var s := Readable(sys, o).0;
      d == s.(threads := d.threads, reading := d.reading, writing := 0, wire := d.wire, hasError := d.hasError)
      && At(d.threads, t) == Idle && (s.hasError || !ret ==> d.hasError)
    requires !WriteLoop(d, t, f, purpose, ret, pick).hasError
    ensures Keeps(sys, WriteLoop(d, t, f, purpose, ret, pick), t, call, upto)
  {
    ReadableOnlyReads(sys, o);
    WriteLoopSilent(d, t, f, purpose, ret, pick);
    ReadingGrows(sys, o);
    WriteLoopDelivers(d, t, f, purpose, ret, pick, call);
    KeptSince(sys, d, WriteLoop(d, t, f, purpose, ret, pick), t, call, d.request);
    KeptFor(sys, WriteLoop(d, t, f, purpose, ret, pick), t, call, d.request, upto);
  }

  lemma KeptFor(sys: System, s: System, t: nat, call: Call, more: nat, upto: nat)
    requires Keeps(sys, s, t, call, more) && upto <= more
    ensures Keeps(sys, s, t, call, upto)
  {
  }

  lemma ReaderDelivers(sys: System, t: nat, o: Outcome, pick: nat, call: Call)
    requires Polls(At(sys.threads, t)) && UnderWay(sys, At(sys.threads, t), call, 0)
    requires !LockedStretch(sys, t, o, pick).hasError
    ensures Keeps(sys, LockedStretch(sys, t, o, pick), t, call, 0)
  {
    var s, ret := Readable(sys, o).0, Readable(sys, o).1;
    var s1 := Become(s.(reading := s.reading - 1), t, At(sys.threads, t).(stage := Woken));
    ReadableOnlyReads(sys, o);
    assert ret;
    ReadingGrows(sys, o);
    match At(sys.threads, t)
    case ReplyWait(n, _) =>
      ReplyLoopDelivers(s1, t, n, pick);
      KeptSince(sys, s1, LockedStretch(sys, t, o, pick), t, call, 0);
    case EventWait(_) =>
      EventLoopDelivers(s1, t, pick);
      KeptSince(sys, s1, LockedStretch(sys, t, o, pick), t, call, 0);
    case _ =>
  }

  ghost predicate Stepping(sys: System, t: nat, o: Outcome, pick: nat, call: Call, upto: nat) {
    && Invariant(sys) && Possible(sys, At(sys.threads, t), o)
    && UnderWay(sys, At(sys.threads, t), call, upto) && !LockedStretch(sys, t, o, pick).hasError
  }

  lemma SenderDelivers(sys: System, t: nat, o: Outcome, pick: nat, call: Call, upto: nat)
    requires Stepping(sys, t, o, pick, call, upto) && call.Send?
    ensures Keeps(sys, LockedStretch(sys, t, o, pick), t, call, 0)
  {
    SendDelivers(sys, t, call);
  }

  lemma FlusherDelivers(sys: System, t: nat, o: Outcome, pick: nat, upto: nat)
    requires Stepping(sys, t, o, pick, Flush, upto)
    ensures Keeps(sys, LockedStretch(sys, t, o, pick), t, Flush, upto)
  {
    var s := LockedStretch(sys, t, o, pick);
    assert Fine(sys, At(sys.threads, t));
    match At(sys.threads, t)
    case Entering(_) =>
      FlushDelivers(sys, t, sys.request, pick);
      KeptFor(sys, s, t, Flush, sys.request, upto);
    case FlushWait(to, _, true) =>
      FlushDelivers(sys, t, to, pick);
      KeptFor(sys, s, t, Flush, to, upto);
    case Writing(f, purpose) => WriterDelivers(sys, t, f, purpose, o, pick, Flush, upto);
    case _ =>
  }

  lemma WaiterDelivers(sys: System, t: nat, o: Outcome, pick: nat, n: nat, upto: nat)
    requires Stepping(sys, t, o, pick, AwaitReply(n), upto)
    ensures Keeps(sys, LockedStretch(sys, t, o, pick), t, AwaitReply(n), 0)
  {
    match At(sys.threads, t)
    case Entering(_) => FlushForReplyDelivers(sys, t, Widen(sys.request, Cookie(n)), n, pick);
    case FlushWait(to, _, true) => FlushForReplyDelivers(sys, t, to, n, pick);
    case Writing(f, purpose) => WriterDelivers(sys, t, f, purpose, o, pick, AwaitReply(n), 0);
    case ReplyWait(_, Woken) => ReplyLoopDelivers(sys, t, n, pick);
    case ReplyWait(_, Polling) => ReaderDelivers(sys, t, o, pick, AwaitReply(n));
    case _ =>
  }

  lemma EventWaiterDelivers(sys: System, t: nat, o: Outcome, pick: nat, upto: nat)
    requires Stepping(sys, t, o, pick, AwaitEvent, upto)
    ensures Keeps(sys, LockedStretch(sys, t, o, pick), t, AwaitEvent, 0)
  {
    match At(sys.threads, t)
    case Entering(_) => EventLoopDelivers(sys, t, pick);
    case EventWait(Woken) => EventLoopDelivers(sys, t, pick);
    case EventWait(Polling) => ReaderDelivers(sys, t, o, pick, AwaitEvent);
    case _ =>
  }

  /** The number a call's way is measured with: only a flush needs one. */
  function Measure(call: Call, upto: nat): nat {
    if call.Flush? then upto else 0
  }

  lemma StretchDelivers(sys: System, t: nat, o: Outcome, pick: nat, call: Call, upto: nat)
    requires Stepping(sys, t, o, pick, call, upto)
    ensures Keeps(sys, LockedStretch(sys, t, o, pick), t, call, Measure(call, upto))
  {
    match call
    case Send(_, _, _) => SenderDelivers(sys, t, o, pick, call, upto);
    case Flush => FlusherDelivers(sys, t, o, pick, upto);
    case AwaitReply(n) => WaiterDelivers(sys, t, o, pick, n, upto);
    case AwaitEvent => EventWaiterDelivers(sys, t, o, pick, upto);
  }

  // ----- whole runs -----

  lemma NudgedUnderWay(s: System, s': System, a: Pc, b: Pc, call: Call, upto: nat)
    requires UnderWay(s, a, call, upto) && Nudged(a, b) && s.request <= s'.request
    ensures UnderWay(s', b, call, upto)
  {
  }

  lemma StepDelivers(sys: System, s: System, a: Action, t: nat, call: Call, upto: nat)
    requires Invariant(s) && Legal(s, a) && !Next(s, a).hasError && !(a.Start? && a.t == t)
    requires Grows(sys, s) && Keeps(sys, s, t, call, upto) && (!call.Flush? ==> upto == 0)
    ensures Grows(sys, Next(s, a)) && Keeps(sys, Next(s, a), t, call, upto)
  {
    var s' := Next(s, a);
    StepGrows(s, a);
    if UnderWay(s, At(s.threads, t), call, upto) {
      if StepOf(a, t) {
        StretchDelivers(s, t, a.outcome, a.pick, call, upto);
        KeptSince(sys, s, s', t, call, upto);
      } else {
        OthersNudge(s, a, t);
        NudgedUnderWay(s, s', At(s.threads, t), At(s'.threads, t), call, upto);
      }
    } else if !call.Flush? {
      DeliveredStays(sys, s, s', t, call);
    }
  }

  lemma {:induction false} RunDelivers(sys: System, s: System, acts: seq<Action>, t: nat, call: Call, upto: nat)
    requires Invariant(s) && LegalRun(s, acts) && !Run(s, acts).hasError
    requires forall a :: a in acts ==> !(a.Start? && a.t == t)
    requires Grows(sys, s) && Keeps(sys, s, t, call, upto) && (!call.Flush? ==> upto == 0)
    ensures Grows(sys, Run(s, acts)) && Keeps(sys, Run(s, acts), t, call, upto)
    decreases |acts|
  {
    if acts != [] {
      var a, rest := acts[0], acts[1..];
      assert a in acts && forall b :: b in rest ==> b in acts;
      StepKeeps(s, a);
      if Next(s, a).hasError {
        ErrorStays(Next(s, a), rest);
      }
      StepDelivers(sys, s, a, t, call, upto);
      RunDelivers(sys, Next(s, a), rest, t, call, upto);
    }
  }

  lemma {:induction false} ErrorStays(sys: System, acts: seq<Action>)
    requires Invariant(sys) && LegalRun(sys, acts) && sys.hasError
    ensures Run(sys, acts).hasError
    decreases |acts|
  {
    if acts != [] {
      StepKeeps(sys, acts[0]);
      FrameNumbers(sys, acts[0]);
      ErrorStays(Next(sys, acts[0]), acts[1..]);
    }
  }

  /**
   * A call returns only with what it is for. Let a thread begin a call in some
   * reachable state, let anything happen, and let the thread be out of the call
   * with the connection still working: a request it sent is on the record, a
   * flush has had everything issued before it written, a wait for a reply has
   * been given the answer to its request, or told there can be none, and a wait
   * for an event has been given one.
   */
  lemma CallsDeliver(sys: System, before: seq<Action>, after: seq<Action>, t: nat, call: Call)
    requires Fresh(sys) && LegalRun(sys, before) && At(Run(sys, before).threads, t) == Entering(call)
    requires LegalRun(Run(sys, before), after) && forall a :: a in after ==> !(a.Start? && a.t == t)
    requires var final := Run(Run(sys, before), after); At(final.threads, t) == Idle && !final.hasError
    ensures var s, final := Run(sys, before), Run(Run(sys, before), after);
      match call
      case Send(req, _, _) => exists i :: |s.log| <= i < |final.log| && final.log[i] == FrameOf(req)
      case Flush => s.request <= final.written <= |Frames(final.wire)|
      case AwaitReply(n) => Cookie(n) == 0 || exists i :: |s.trace| <= i < |final.trace| && Answers(final.trace[i], t, n)
      case AwaitEvent => exists i :: |s.trace| <= i < |final.trace| && GivesEvent(final.trace[i], t)
  {
    var s := Run(sys, before);
    RunFromStart(sys, before);
    RunDelivers(s, s, after, t, call, Measure(call, s.request));
    RunKeeps(s, after);
  }
}
