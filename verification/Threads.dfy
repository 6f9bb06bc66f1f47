/**
 * Threads sharing one connection: the election of readers and writers in
 * _xcb_conn_wait (src/xcb_conn.c) and everything that waits. One lock protects
 * the connection, so a step of the model is what one thread does between
 * taking the lock and releasing it, in a condition wait, around poll(2), or
 * for good.
 */
module Threads {
  import opened Wrappers
  import opened Sequence
  import opened Packets
  import opened Inbound
  import opened Framing
  import opened Readers
  import Socket
  import InboundSide

  type ValidRequest = r: Request | r.Valid() witness Request(0, None, [[0, 0, 0, 0]])

  datatype Call =
    | Send(req: ValidRequest, isVoid: bool, flags: Flags)
    | Flush
    | AwaitReply(n: nat)
    | AwaitEvent

  /** What follows a flush: xcb_flush returns, xcb_wait_for_reply goes on. */
  datatype Then = Return | ReplyTo(n: nat)

  datatype Purpose = Sending | Flushing(after: Then)

  /** A vector being written: a stretch of the queue's memory, then memory of the thread's own. */
  datatype InFlight = InFlight(from: nat, to: nat, tail: seq<Byte>)

  datatype Stage = Asleep | Woken | Polling

  datatype Pc =
    | Idle
    | Entering(call: Call)                                      // about to take the lock for the first time
    | SendWait(call: Call, awake: bool)                         // `while(c->out.writing)` of xcb_send_request
    | FlushWait(to: nat, after: Then, awake: bool)               // the same loop of _xcb_out_flush_to
    | Writing(rest: InFlight, purpose: Purpose)                 // polling to write
    | WriteWait(rest: InFlight, purpose: Purpose, awake: bool)  // waiting with a vector, in _xcb_conn_wait
    | ReplyWait(n: nat, stage: Stage)
    | EventWait(stage: Stage)

  /** What has happened to the connection's counters and reading side, and what threads were handed. */
  datatype Happening =
    | Sent(isVoid: bool, flags: Flags)
    | Read(p: Packet)
    | Asked(who: Option<nat>, n: nat, answer: Polled)
    | Took(who: Option<nat>, event: Event)
    | Dropped(n: nat)
    | Wrote(to: nat)

  datatype System = System(
    maxShort: Low,                // setup->maximum_request_length
    maxBig: nat,
    threads: map<nat, Pc>,
    reading: int,
    writing: int,
    inb: Inbound,
    readers: seq<Reader>,
    queue: seq<Byte>,             // the memory out.queue
    queueLen: nat,
    request: nat,
    written: nat,
    wire: seq<Byte>,              // what writev has accepted
    hasError: bool,
    log: seq<Frame>,              // the requests issued, syncs included
    trace: seq<Happening>)

  /** What the kernel and the server do while a thread polls. */
  datatype Arrival = Arrival(p: Packet, pick: nat)
  datatype Input = Packets(arrivals: seq<Arrival>) | Broken(arrivals: seq<Arrival>, left: Inbound, ret: bool)
  datatype Outcome = PollFails | Ready(input: Option<Input>, wrote: Option<Socket.Wrote>)

  /** `pick` is whom a signal to event_cond wakes if several threads sleep there. */
  datatype Action =
    | Start(t: nat, call: Call)
    | Refuse
    | Runs(t: nat, outcome: Outcome, pick: nat)
    | WakesUp(t: nat)
    | PollReply(n: nat)
    | DiscardReply(n: nat)
    | PollEvent(input: Input)

  function START(maxShort: Low, maxBig: nat, queue: seq<Byte>): System {
    System(maxShort, maxBig, map[], 0, 0, INITIAL, [], queue, 0, 0, 0, [], false, [], [])
  }

  function At(threads: map<nat, Pc>, t: nat): Pc {
    if t in threads then threads[t] else Idle
  }

  function Become(sys: System, t: nat, pc: Pc): System {
    sys.(threads := sys.threads[t := pc])
  }

  // ----- condition variables -----

  predicate SleepsForReply(pc: Pc) { pc.ReplyWait? && pc.stage == Asleep }

  predicate SleepsForEvent(pc: Pc) { pc == EventWait(Asleep) }

  function Roused(pc: Pc): Pc {
    match pc
    case SendWait(call, _) => SendWait(call, true)
    case FlushWait(to, after, _) => FlushWait(to, after, true)
    case WriteWait(rest, purpose, _) => WriteWait(rest, purpose, true)
    case _ => pc
  }

  /** pthread_cond_broadcast(&c->out.cond). */
  function Broadcast(threads: map<nat, Pc>): map<nat, Pc> {
    map t | t in threads :: Roused(threads[t])
  }

  function Waken(threads: map<nat, Pc>, t: nat): map<nat, Pc> {
    var pc := At(threads, t);
    if SleepsForReply(pc) || SleepsForEvent(pc) then threads[t := pc.(stage := Woken)] else threads
  }

  /** pthread_cond_signal: one sleeping thread wakes if there is one. */
  ghost function Signalled(threads: map<nat, Pc>, s: Signal, pick: nat): map<nat, Pc> {
    match s
    case ReaderCond(t) => if SleepsForReply(At(threads, t)) then Waken(threads, t) else threads
    case EventCond =>
      if SleepsForEvent(At(threads, pick)) then Waken(threads, pick)
      else if t :| SleepsForEvent(At(threads, t)) then Waken(threads, t)
      else threads
  }

  /** _xcb_in_wake_up_next_reader. */
  ghost function WakeNext(sys: System, pick: nat): System {
    sys.(threads := Signalled(sys.threads, NextSignal(sys.readers), pick))
  }

  // ----- reading -----

  /** read_packet. */
  ghost function ReadPacket(sys: System, a: Arrival): System {
    var signals := InboundSide.Signalled(Advance(sys.inb, a.p), sys.readers, a.p);
    sys.(inb := Receive(sys.inb, a.p),
         trace := sys.trace + [Read(a.p)],
         threads := if signals == [] then sys.threads else Signalled(sys.threads, signals[0], a.pick))
  }

  ghost function ReadPackets(sys: System, arrivals: seq<Arrival>): System
    decreases |arrivals|
  {
    if arrivals == [] then sys else ReadPackets(ReadPacket(sys, arrivals[0]), arrivals[1..])
  }

  /**
   * _xcb_in_read; a failure leaves the reading side in some state. If it is
   * read_packet that failed, the function still returns true.
   */
  ghost function InRead(sys: System, input: Input): (System, bool) {
    match input
    case Packets(arrivals) => (ReadPackets(sys, arrivals), true)
    case Broken(arrivals, left, ret) => (ReadPackets(sys, arrivals).(inb := left, hasError := true), ret)
  }

  /** The reading half of _xcb_conn_wait after poll(2). */
  ghost function Readable(sys: System, o: Outcome): (System, bool) {
    match o
    case PollFails => (sys.(hasError := true), false)
    case Ready(None, _) => (sys, true)
    case Ready(Some(input), _) => InRead(sys, input)
  }

  // ----- xcb_wait_for_reply and xcb_wait_for_event -----

  /** poll_for_reply; for cookie 0 it does nothing. */
  function Asks(sys: System, who: Option<nat>, n: nat): System {
    if Cookie(n) == 0 then sys
    else
      var polled := Poll(sys.inb, Cookie(n));
      sys.(inb := polled.0, trace := sys.trace + [Asked(who, n, polled.1)])
  }

  /** get_event. */
  function Takes(sys: System, who: Option<nat>): System {
    if sys.inb.events == [] then sys
    else sys.(inb := TakeEvent(sys.inb).0, trace := sys.trace + [Took(who, sys.inb.events[0])])
  }

  /** The loop of xcb_wait_for_reply, from a poll_for_reply on. */
  ghost function ReplyLoop(sys: System, t: nat, n: nat, pick: nat): System {
    var s := Asks(sys, Some(t), n);
    if Poll(sys.inb, Cookie(n)).1.Done? then LeaveReply(s, t, n, pick)
    else if s.reading > 0 then Become(s, t, ReplyWait(n, Asleep))
    else Become(s.(reading := s.reading + 1), t, ReplyWait(n, Polling))
  }

  ghost function EnterReply(sys: System, t: nat, n: nat, pick: nat): System {
    ReplyLoop(sys.(readers := Link(sys.readers, Reader(n, t))), t, n, pick)
  }

  ghost function LeaveReply(sys: System, t: nat, n: nat, pick: nat): System {
    WakeNext(Become(sys.(readers := Unlink(sys.readers, Reader(n, t))), t, Idle), pick)
  }

  ghost function EventLoop(sys: System, t: nat, pick: nat): System {
    if sys.inb.events != [] then WakeNext(Become(Takes(sys, Some(t)), t, Idle), pick)
    else if sys.reading > 0 then Become(sys, t, EventWait(Asleep))
    else Become(sys.(reading := sys.reading + 1), t, EventWait(Polling))
  }

  // ----- writing -----

  function Slice(bytes: seq<Byte>, from: nat, to: nat): seq<Byte> {
    if from <= to <= |bytes| then bytes[from..to] else []
  }

  /** The bytes a vector being written stands for at this moment. */
  function Bytes(queue: seq<Byte>, f: InFlight): seq<Byte> {
    Slice(queue, f.from, f.to) + f.tail
  }

  /** write_vec's loop: the vector without its first n bytes. */
  function Behind(f: InFlight, n: nat): InFlight {
    if f.from + n <= f.to then f.(from := f.from + n)
    else f.(from := f.to, tail := Slice(f.tail, f.from + n - f.to, |f.tail|))
  }

  /** _xcb_conn_wait with a vector. */
  function StartWrite(sys: System, t: nat, f: InFlight, purpose: Purpose): System {
    if sys.writing > 0 then Become(sys, t, WriteWait(f, purpose, false))
    else Become(sys.(reading := sys.reading + 1, writing := sys.writing + 1), t, Writing(f, purpose))
  }

  /** All that has been issued counts as written, and those waiting for that are woken. */
  function Finished(sys: System): System {
    sys.(written := sys.request, trace := sys.trace + [Wrote(sys.request)], threads := Broadcast(sys.threads))
  }

  /** The end of _xcb_out_send, and what its caller does then. */
  ghost function FinishWrite(sys: System, t: nat, ret: bool, purpose: Purpose, pick: nat): System {
    var s := WakeNext(Become(Finished(sys), t, Idle), pick);
    match purpose
    case Sending => s.(hasError := s.hasError || !ret)
    case Flushing(after) => AfterFlush(s, t, ret, after, pick)
  }

  ghost function AfterFlush(sys: System, t: nat, ret: bool, after: Then, pick: nat): System {
    match after
    case Return => Become(sys, t, Idle)
    case ReplyTo(n) => if ret then EnterReply(sys, t, n, pick) else WakeNext(Become(sys, t, Idle), pick)
  }

  /** _xcb_out_flush_to. */
  ghost function FlushTo(sys: System, t: nat, to: nat, after: Then, pick: nat): System {
    if sys.written >= to then AfterFlush(sys, t, true, after, pick)
    else if sys.queueLen > 0 then
      StartWrite(sys.(queueLen := 0), t, InFlight(0, sys.queueLen, []), Flushing(after))
    else FlushLoop(sys, t, to, after, pick)
  }

  ghost function FlushLoop(sys: System, t: nat, to: nat, after: Then, pick: nat): System {
    if sys.writing > 0 then Become(sys, t, FlushWait(to, after, false)) else AfterFlush(sys, t, true, after, pick)
  }

  /** The writing half of _xcb_conn_wait after poll(2), up to its return. */
  function Writable(sys: System, f: InFlight, wrote: Socket.Wrote): (System, InFlight, bool) {
    match wrote
    case Count(n) => (sys.(wire := sys.wire + Slice(Bytes(sys.queue, f), 0, n)), Behind(f, n), true)
    case WriteWouldBlock => (sys, f, true)
    case WriteFailed => (sys.(hasError := true), f, false)
  }

  /** The thread once it has left the counters. */
  function Left(s: System, t: nat): System {
    Become(s.(reading := s.reading - 1, writing := s.writing - 1), t, Idle)
  }

  /** write_vec is called if reading went well and the descriptor is writable. */
  ghost function WroteOf(sys: System, o: Outcome): Option<Socket.Wrote> {
    if o.Ready? && Readable(sys, o).1 then o.wrote else None
  }

  /** A writing thread after poll(2): _xcb_conn_wait returns, and _xcb_out_send goes round or ends. */
  ghost function WriterRuns(sys: System, t: nat, f: InFlight, purpose: Purpose, o: Outcome, pick: nat): System {
    WriterWrites(Readable(sys, o).0, t, f, purpose, WroteOf(sys, o), Readable(sys, o).1, pick)
  }

  ghost function WriterWrites(sys: System, t: nat, f: InFlight, purpose: Purpose, wrote: Option<Socket.Wrote>, ok: bool, pick: nat): System {
    match wrote
    case None => WriteLoop(Left(sys, t), t, f, purpose, ok, pick)
    case Some(w) => WriteLoop(Left(Writable(sys, f, w).0, t), t, Writable(sys, f, w).1, purpose, Writable(sys, f, w).2, pick)
  }

  ghost function WriteLoop(sys: System, t: nat, f: InFlight, purpose: Purpose, ret: bool, pick: nat): System {
    if ret && Bytes(sys.queue, f) != [] then StartWrite(sys, t, f, purpose) else FinishWrite(sys, t, ret, purpose, pick)
  }

  // ----- xcb_send_request -----

  /** A request's vector once its first word is set and the prefix is in place. */
  function Arranged(parts: seq<seq<Byte>>, word: seq<Byte>, longlen: nat, synced: bool): seq<seq<Byte>>
    requires parts != [] && |parts[0]| >= 4 && longlen < TWO32
  {
    var prefix := (if synced then SYNC_BYTES else []) + (if longlen != 0 then word + Le32(longlen) else []);
    (if prefix != [] then [prefix] else [])
    + [if longlen != 0 then parts[0][4..] else word + parts[0][4..]] + parts[1..]
  }

  /** The vector xcb_send_request gives to write_block (see Connection). */
  function Layout(req: ValidRequest, maxShort: Low, synced: bool): seq<seq<Byte>> {
    if req.Words() <= maxShort then Arranged(req.parts, FirstWord(req, req.Words()), 0, synced)
    else Arranged(req.parts, FirstWord(req, 0), (req.Words() + 1) % TWO32, synced)
  }

  /** The leading parts that fit into the room left in the queue. */
  function Fitting(parts: seq<seq<Byte>>, room: int): seq<Byte> {
    if parts == [] || |parts[0]| > room then [] else parts[0] + Fitting(parts[1..], room - |parts[0]|)
  }

  function NotFitting(parts: seq<seq<Byte>>, room: int): seq<seq<Byte>> {
    if parts == [] || |parts[0]| > room then parts else NotFitting(parts[1..], room - |parts[0]|)
  }

  /** memcpy into the queue's memory. */
  function Copied(queue: seq<Byte>, at: nat, bytes: seq<Byte>): seq<Byte> {
    if at + |bytes| <= |queue| then queue[..at] + bytes + queue[at + |bytes|..] else queue
  }

  /** write_block. */
  function WriteBlock(sys: System, t: nat, parts: seq<seq<Byte>>): System {
    var room := |sys.queue| - sys.queueLen;
    Placed(sys, t, Fitting(parts, room), NotFitting(parts, room))
  }

  /** What fits is queued; if anything does not, the queue becomes the front of a vector and is written with it. */
  function Placed(sys: System, t: nat, fitting: seq<Byte>, rest: seq<seq<Byte>>): System {
    var s := sys.(queue := Copied(sys.queue, sys.queueLen, fitting));
    var n := sys.queueLen + |fitting|;
    if rest == [] then Become(s.(queueLen := n), t, Idle)
    else StartWrite(s.(queueLen := 0), t, InFlight(0, n, Flat(rest)), Sending)
  }

  /** The request gets its number. */
  function Numbered(sys: System, req: ValidRequest, isVoid: bool, flags: Flags): System {
    var synced := NeedsSync(sys.inb, sys.request, isVoid);
    sys.(request := Number(sys.inb, sys.request, isVoid),
         inb := Issue(sys.inb, sys.request, isVoid, flags),
         log := sys.log + (if synced then [SYNC_FRAME] else []) + [FrameOf(req)],
         trace := sys.trace + [Sent(isVoid, flags)])
  }

  /** xcb_send_request once it may go ahead. */
  function Issues(sys: System, t: nat, req: ValidRequest, isVoid: bool, flags: Flags): System {
    WriteBlock(Numbered(sys, req, isVoid, flags), t, Layout(req, sys.maxShort, NeedsSync(sys.inb, sys.request, isVoid)))
  }

  function SendLoop(sys: System, t: nat, call: Call): System
    requires call.Send?
  {
    if sys.writing > 0 then Become(sys, t, SendWait(call, false)) else Issues(sys, t, call.req, call.isVoid, call.flags)
  }

  // ----- steps -----

  /** What a thread does from taking the lock to releasing it. */
  ghost function LockedStretch(sys: System, t: nat, o: Outcome, pick: nat): System {
    match At(sys.threads, t)
    case Entering(Send(req, isVoid, flags)) => SendLoop(sys, t, Send(req, isVoid, flags))
    case Entering(Flush) => FlushTo(sys, t, sys.request, Return, pick)
    case Entering(AwaitReply(n)) => FlushTo(sys, t, Widen(sys.request, Cookie(n)), ReplyTo(n), pick)
    case Entering(AwaitEvent) => EventLoop(sys, t, pick)
    case SendWait(call, true) => if call.Send? then SendLoop(sys, t, call) else sys
    case FlushWait(to, after, true) => FlushLoop(sys, t, to, after, pick)
    case Writing(f, purpose) => WriterRuns(sys, t, f, purpose, o, pick)
    case WriteWait(f, purpose, true) => WriteLoop(sys, t, f, purpose, true, pick)
    case ReplyWait(n, Woken) => ReplyLoop(sys, t, n, pick)
    case ReplyWait(n, Polling) =>
      var (s, ret) := Readable(sys, o);
      var s1 := Become(s.(reading := s.reading - 1), t, ReplyWait(n, Woken));
      if ret then ReplyLoop(s1, t, n, pick) else LeaveReply(s1, t, n, pick)
    case EventWait(Woken) => EventLoop(sys, t, pick)
    case EventWait(Polling) =>
      var (s, ret) := Readable(sys, o);
      var s1 := Become(s.(reading := s.reading - 1), t, EventWait(Woken));
      if ret then EventLoop(s1, t, pick) else WakeNext(Become(s1, t, Idle), pick)
    case _ => sys
  }

  ghost function Next(sys: System, a: Action): System {
    match a
    case Start(t, call) => Become(sys, t, Entering(call))
    case Refuse => sys.(hasError := true)
    case Runs(t, o, pick) => LockedStretch(sys, t, o, pick)
    case WakesUp(t) => Become(sys, t, Roused(At(Waken(sys.threads, t), t)))
    case PollReply(n) => Asks(sys, None, n)
    case DiscardReply(n) =>
      if Cookie(n) == 0 then sys
      else sys.(inb := Discard(sys.inb, sys.request, Cookie(n)), trace := sys.trace + [Dropped(n)])
    case PollEvent(input) => PollsForEvent(sys, input)
  }

  /** xcb_poll_for_event: it reads if no event is queued. */
  ghost function PollsForEvent(sys: System, input: Input): System {
    if sys.inb.events != [] then Takes(sys, None)
    else if InRead(sys, input).1 then Takes(InRead(sys, input).0, None)
    else InRead(sys, input).0
  }

  /** The outcome of a poll that asked for what the thread asks for; writev takes at least a byte. */
  ghost predicate Possible(sys: System, pc: Pc, o: Outcome) {
    match pc
    case Writing(f, _) => o.Ready? && o.wrote.Some? && o.wrote.value.Count? ==> 0 < o.wrote.value.n <= |Bytes(sys.queue, f)|
    case _ => o.Ready? ==> o.wrote.None?
  }

  /** What a caller must respect: the request has been issued, or fits the server. */
  ghost predicate Callable(sys: System, call: Call) {
    match call
    case Send(req, _, _) => (req.Words() <= sys.maxShort || req.Words() <= sys.maxBig) && Representable(req.Words(), sys.maxShort)
    case AwaitReply(n) => n <= sys.request
    case _ => true
  }

  /** The request a thread is waiting for or will wait for. */
  function Awaited(pc: Pc): Option<nat> {
    match pc
    case Entering(AwaitReply(n)) => Some(n)
    case FlushWait(_, ReplyTo(n), _) => Some(n)
    case Writing(_, Flushing(ReplyTo(n))) => Some(n)
    case WriteWait(_, Flushing(ReplyTo(n)), _) => Some(n)
    case ReplyWait(n, _) => Some(n)
    case _ => None
  }

  /** No thread waits for a request 2^31 behind the newest, and numbers fit their 64 bits. */
  ghost predicate Roomy(sys: System) {
    sys.request + 2 < TWO63 && forall t :: Awaited(At(sys.threads, t)).Some? ==> sys.request - Awaited(At(sys.threads, t)).value < TWO31
  }

  ghost predicate Legal(sys: System, a: Action) {
    && Roomy(sys)
    && match a
       case Start(t, call) => At(sys.threads, t) == Idle && !sys.hasError && Callable(sys, call)
       case Runs(t, o, _) => Possible(sys, At(sys.threads, t), o)
       case _ => true
  }

  ghost predicate LegalRun(sys: System, acts: seq<Action>)
    decreases |acts|
  {
    acts == [] || (Legal(sys, acts[0]) && LegalRun(Next(sys, acts[0]), acts[1..]))
  }

  ghost function Run(sys: System, acts: seq<Action>): System
    decreases |acts|
  {
    if acts == [] then sys else Run(Next(sys, acts[0]), acts[1..])
  }
}
