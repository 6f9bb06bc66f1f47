/**
 * What every step of every thread keeps: the counters name who polls, only one
 * thread writes and nobody touches its bytes, the bytes sent and queued are the
 * requests issued, and no waiting thread is forgotten.
 */
module ThreadSafety {
  import opened Wrappers
  import opened Sequence
  import opened Packets
  import opened Inbound
  import opened Framing
  import opened Readers
  import opened Threads
  import Socket
  import InboundSide

  // ----- the invariant -----

  predicate Polls(pc: Pc) { (pc.ReplyWait? || pc.EventWait?) && pc.stage == Polling }

  predicate Sleeps(pc: Pc) { SleepsForReply(pc) || SleepsForEvent(pc) }

  /** Signalled, or woken for no reason, and not run since. */
  predicate IsWoken(pc: Pc) { (pc.ReplyWait? || pc.EventWait?) && pc.stage == Woken }

  ghost predicate SomeWriter(threads: map<nat, Pc>) {
    exists t :: At(threads, t).Writing?
  }

  ghost predicate SomePoller(threads: map<nat, Pc>) {
    exists t :: Polls(At(threads, t))
  }

  /** At most one writing and one reading thread poll, and the counters count them. */
  ghost predicate Counted(threads: map<nat, Pc>, reading: int, writing: int) {
    && (forall t, u :: At(threads, t).Writing? && At(threads, u).Writing? ==> t == u)
    && (forall t, u :: Polls(At(threads, t)) && Polls(At(threads, u)) ==> t == u)
    && writing == (if SomeWriter(threads) then 1 else 0)
    && reading == writing + (if SomePoller(threads) then 1 else 0)
  }

  /** If anyone sleeps for a reply or an event, somebody is reading or is about to find out that nobody is. */
  ghost predicate Attended(sys: System) {
    (exists t :: Sleeps(At(sys.threads, t))) ==> sys.reading > 0 || exists t :: IsWoken(At(sys.threads, t))
  }

  predicate Solid(queue: seq<Byte>, f: InFlight) {
    f.from <= f.to <= |queue| && (f.from < f.to || f.tail != [])
  }

  predicate DueFlush(sys: System, after: Then) {
    after.ReplyTo? ==> after.n <= sys.request
  }

  /** A thread that will wait for a reply flushes at least as far as its request. */
  predicate Reaches(to: nat, after: Then) {
    after.ReplyTo? ==> after.n <= to
  }

  /** What is known of a thread from where it is. */
  predicate Fine(sys: System, pc: Pc) {
    match pc
    case Entering(Send(req, _, _)) => Representable(req.Words(), sys.maxShort)
    case Entering(AwaitReply(n)) => n <= sys.request
    case SendWait(call, awake) => call.Send? && Representable(call.req.Words(), sys.maxShort) && (awake || sys.writing == 1)
    case FlushWait(to, after, awake) =>
      && to <= sys.request && (sys.written >= to || sys.writing == 1)
      && (awake || sys.writing == 1) && DueFlush(sys, after) && Reaches(to, after)
    case Writing(f, purpose) => Solid(sys.queue, f) && (purpose.Flushing? ==> DueFlush(sys, purpose.after))
    case WriteWait(_, _, _) => false
    case ReplyWait(n, _) => n <= sys.request && n <= sys.written
    case _ => true
  }

  ghost predicate AllFine(sys: System) {
    forall t :: Fine(sys, At(sys.threads, t))
  }

  /** The readers list holds exactly the threads in the wait for a reply, in order of their requests. */
  ghost predicate ListsWaiters(threads: map<nat, Pc>, readers: seq<Reader>) {
    && Sorted(readers) && OwnThreads(readers)
    && (forall r :: r in readers ==> At(threads, r.thread).ReplyWait? && At(threads, r.thread).n == r.n)
    && (forall t :: At(threads, t).ReplyWait? ==> Reader(At(threads, t).n, t) in readers)
  }

  /** With no write in progress everything is written or something is queued; during one nothing is queued. */
  predicate QueueSettled(sys: System) {
    && sys.queueLen <= |sys.queue| && sys.written <= sys.request
    && (sys.writing > 0 ==> sys.queueLen == 0)
    && (sys.writing == 0 ==> sys.written == sys.request || sys.queueLen > 0)
  }

  /** The bytes of the write in progress. */
  ghost function InProgress(threads: map<nat, Pc>, queue: seq<Byte>): seq<Byte> {
    if t :| At(threads, t).Writing? then Bytes(queue, At(threads, t).rest) else []
  }

  /** Everything written, being written and queued. */
  ghost function AllBytes(sys: System): seq<Byte> {
    sys.wire + InProgress(sys.threads, sys.queue) + Slice(sys.queue, 0, sys.queueLen)
  }

  /** A server makes exactly the issued requests of all bytes, and has all those counted as written. */
  ghost predicate Transmits(sys: System) {
    && |sys.log| == sys.request
    && (!sys.hasError ==>
          && Frames(AllBytes(sys)) == sys.log && Unframed(AllBytes(sys)) == []
          && sys.written <= |Frames(sys.wire)|)
  }

  /** All but Attended, which does not hold in the middle of a block. */
  ghost predicate Sound(sys: System) {
    && Counted(sys.threads, sys.reading, sys.writing)
    && AllFine(sys)
    && ListsWaiters(sys.threads, sys.readers)
    && QueueSettled(sys)
    && Transmits(sys)
  }

  ghost predicate Invariant(sys: System) {
    Sound(sys) && Attended(sys)
  }

  // ----- waking up -----

  /** Threads that slept for a reply or an event may have been woken; nothing else has happened. */
  predicate Stirred(a: Pc, b: Pc) {
    b == a || (SleepsForReply(a) && b == ReplyWait(a.n, Woken)) || (SleepsForEvent(a) && b == EventWait(Woken))
  }

  ghost predicate AllStirred(threads: map<nat, Pc>, threads': map<nat, Pc>) {
    forall t :: Stirred(At(threads, t), At(threads', t))
  }

  lemma SignalStirs(threads: map<nat, Pc>, s: Signal, pick: nat)
    ensures AllStirred(threads, Signalled(threads, s, pick))
  {
  }

  lemma WriterIs(threads: map<nat, Pc>, queue: seq<Byte>, t: nat)
    requires At(threads, t).Writing? && forall u :: At(threads, u).Writing? ==> u == t
    ensures InProgress(threads, queue) == Bytes(queue, At(threads, t).rest)
  {
  }

  lemma StirredBytes(threads: map<nat, Pc>, threads': map<nat, Pc>, queue: seq<Byte>)
    requires AllStirred(threads, threads')
    requires forall t, u :: At(threads, t).Writing? && At(threads, u).Writing? ==> t == u
    ensures InProgress(threads', queue) == InProgress(threads, queue)
  {
    if t :| At(threads, t).Writing? {
      WriterIs(threads, queue, t);
      forall u | At(threads', u).Writing? ensures u == t {
        assert Stirred(At(threads, u), At(threads', u));
      }
      assert Stirred(At(threads, t), At(threads', t));
      WriterIs(threads', queue, t);
    } else {
      forall u ensures !At(threads', u).Writing? {
        assert Stirred(At(threads, u), At(threads', u));
      }
    }
  }

  lemma StirredCounts(threads: map<nat, Pc>, threads': map<nat, Pc>, reading: int, writing: int)
    requires AllStirred(threads, threads') && Counted(threads, reading, writing)
    ensures Counted(threads', reading, writing)
  {
    forall t ensures (At(threads', t).Writing? <==> At(threads, t).Writing?) && (Polls(At(threads', t)) <==> Polls(At(threads, t))) {
      assert Stirred(At(threads, t), At(threads', t));
    }
  }

  lemma StirredReaders(threads: map<nat, Pc>, threads': map<nat, Pc>, readers: seq<Reader>)
    requires AllStirred(threads, threads') && ListsWaiters(threads, readers)
    ensures ListsWaiters(threads', readers)
  {
    forall t ensures (At(threads', t).ReplyWait? <==> At(threads, t).ReplyWait?)
      && (At(threads, t).ReplyWait? ==> At(threads', t).n == At(threads, t).n)
    {
      assert Stirred(At(threads, t), At(threads', t));
    }
  }

  lemma StirringAttends(sys: System, threads': map<nat, Pc>)
    requires Attended(sys) && AllStirred(sys.threads, threads')
    ensures Attended(sys.(threads := threads'))
  {
    if t :| Sleeps(At(threads', t)) {
      assert Stirred(At(sys.threads, t), At(threads', t));
      assert Sleeps(At(sys.threads, t));
      if sys.reading <= 0 {
        var u :| IsWoken(At(sys.threads, u));
        assert Stirred(At(sys.threads, u), At(threads', u));
        assert IsWoken(At(threads', u));
      }
    }
  }

  lemma StirringKeeps(sys: System, threads': map<nat, Pc>)
    requires Sound(sys) && AllStirred(sys.threads, threads')
    ensures Sound(sys.(threads := threads'))
    ensures Attended(sys) ==> Attended(sys.(threads := threads'))
  {
    var s := sys.(threads := threads');
    StirredBytes(sys.threads, threads', sys.queue);
    StirredCounts(sys.threads, threads', sys.reading, sys.writing);
    StirredReaders(sys.threads, threads', sys.readers);
    forall t ensures Fine(s, At(threads', t)) {
      assert Fine(sys, At(sys.threads, t)) && Stirred(At(sys.threads, t), At(threads', t));
    }
    if Attended(sys) {
      StirringAttends(sys, threads');
    }
  }

  /** _xcb_in_wake_up_next_reader leaves nobody forgotten, whatever the state was before. */
  lemma WakeNextAttends(sys: System, pick: nat)
    requires Sound(sys)
    ensures Invariant(WakeNext(sys, pick))
  {
    var s := WakeNext(sys, pick);
    SignalStirs(sys.threads, NextSignal(sys.readers), pick);
    StirringKeeps(sys, s.threads);
    if sys.readers != [] {
      FirstReaderAttends(sys, pick);
    } else {
      EventSleeperAttends(sys, pick);
    }
  }

  /** The first reader is awake then, or polls. */
  lemma FirstReaderAttends(sys: System, pick: nat)
    requires Counted(sys.threads, sys.reading, sys.writing) && ListsWaiters(sys.threads, sys.readers) && sys.readers != []
    ensures Attended(WakeNext(sys, pick))
  {
    var s, t := WakeNext(sys, pick), sys.readers[0].thread;
    assert sys.readers[0] in sys.readers;
    assert IsWoken(At(s.threads, t)) || Polls(At(sys.threads, t));
  }

  /** Without readers, a thread that waits for an event is. */
  lemma EventSleeperAttends(sys: System, pick: nat)
    requires ListsWaiters(sys.threads, sys.readers) && sys.readers == []
    ensures Attended(WakeNext(sys, pick))
  {
    var s := WakeNext(sys, pick);
    SignalStirs(sys.threads, NextSignal(sys.readers), pick);
    if t :| Sleeps(At(s.threads, t)) {
      assert Stirred(At(sys.threads, t), At(s.threads, t));
      assert !At(s.threads, t).ReplyWait?;
      assert SleepsForEvent(At(sys.threads, t));
    }
  }

  // ----- reading -----

  /** A step that only reads packets, wakes threads and perhaps fails. */
  ghost predicate OnlyReads(sys: System, s: System) {
    && s == sys.(inb := s.inb, trace := s.trace, threads := s.threads, hasError := s.hasError)
    && AllStirred(sys.threads, s.threads)
    && (sys.hasError ==> s.hasError)
  }

  lemma ReadingKeeps(sys: System, s: System)
    requires OnlyReads(sys, s)
    ensures Sound(sys) ==> Sound(s)
    ensures Invariant(sys) ==> Invariant(s)
  {
    if Sound(sys) {
      StirringKeeps(sys, s.threads);
      var s' := sys.(threads := s.threads);
      forall t ensures Fine(s, At(s.threads, t)) {
        assert Fine(s', At(s.threads, t));
      }
    }
  }

  lemma StirredTwice(a: map<nat, Pc>, b: map<nat, Pc>, c: map<nat, Pc>)
    requires AllStirred(a, b) && AllStirred(b, c)
    ensures AllStirred(a, c)
  {
    forall t ensures Stirred(At(a, t), At(c, t)) {
      assert Stirred(At(a, t), At(b, t)) && Stirred(At(b, t), At(c, t));
    }
  }

  lemma {:induction false} ReadPacketsOnlyReads(sys: System, arrivals: seq<Arrival>)
    ensures OnlyReads(sys, ReadPackets(sys, arrivals))
    ensures ReadPackets(sys, arrivals).hasError == sys.hasError
    decreases |arrivals|
  {
    if arrivals != [] {
      var a := arrivals[0];
      var s := ReadPacket(sys, a);
      var signals := InboundSide.Signalled(Advance(sys.inb, a.p), sys.readers, a.p);
      if signals != [] {
        SignalStirs(sys.threads, signals[0], a.pick);
      }
      ReadPacketsOnlyReads(s, arrivals[1..]);
      StirredTwice(sys.threads, s.threads, ReadPackets(s, arrivals[1..]).threads);
    }
  }

  lemma InReadOnlyReads(sys: System, input: Input)
    ensures OnlyReads(sys, InRead(sys, input).0)
    ensures InRead(sys, input).0.hasError == (sys.hasError || input.Broken?)
    ensures !InRead(sys, input).1 ==> InRead(sys, input).0.hasError
  {
    ReadPacketsOnlyReads(sys, input.arrivals);
  }

  lemma ReadableOnlyReads(sys: System, o: Outcome)
    ensures OnlyReads(sys, Readable(sys, o).0)
    ensures !Readable(sys, o).0.hasError ==> !sys.hasError && Readable(sys, o).1
  {
    if o.Ready? && o.input.Some? {
      InReadOnlyReads(sys, o.input.value);
    }
  }

  // ----- one thread moves -----

  /** Not polling and not in the wait for a reply. */
  predicate Neutral(pc: Pc) { !pc.Writing? && !pc.ReplyWait? && !Polls(pc) }

  lemma Moved(sys: System, t: nat, pc: Pc, u: nat)
    ensures At(Become(sys, t, pc).threads, u) == if u == t then pc else At(sys.threads, u)
  {
  }

  /** Counting a thread in or out. */
  lemma MoveCounts(sys: System, t: nat, pc: Pc, reading: int, writing: int)
    requires Counted(sys.threads, sys.reading, sys.writing)
    requires pc.Writing? ==> At(sys.threads, t).Writing? || sys.writing == 0
    requires Polls(pc) ==> Polls(At(sys.threads, t)) || sys.reading == 0
    requires writing == sys.writing + Bit(pc.Writing?) - Bit(At(sys.threads, t).Writing?)
    requires reading - writing == sys.reading - sys.writing + Bit(Polls(pc)) - Bit(Polls(At(sys.threads, t)))
    ensures Counted(Become(sys, t, pc).threads, reading, writing)
  {
    var threads' := Become(sys, t, pc).threads;
    forall u ensures At(threads', u) == if u == t then pc else At(sys.threads, u) {
      Moved(sys, t, pc, u);
    }
    if !pc.Writing? && !At(sys.threads, t).Writing? {
      assert SomeWriter(threads') <==> SomeWriter(sys.threads);
    }
    if !Polls(pc) && !Polls(At(sys.threads, t)) {
      assert SomePoller(threads') <==> SomePoller(sys.threads);
    }
  }

  function Bit(b: bool): int { if b then 1 else 0 }

  lemma MoveReaders(sys: System, t: nat, pc: Pc)
    requires ListsWaiters(sys.threads, sys.readers)
    requires if pc.ReplyWait? then At(sys.threads, t).ReplyWait? && At(sys.threads, t).n == pc.n else !At(sys.threads, t).ReplyWait?
    ensures ListsWaiters(Become(sys, t, pc).threads, sys.readers)
  {
    var threads' := Become(sys, t, pc).threads;
    forall u | At(threads', u).ReplyWait? ensures Reader(At(threads', u).n, u) in sys.readers {
      Moved(sys, t, pc, u);
      assert At(sys.threads, u).ReplyWait?;
    }
  }

  lemma MoveBytes(sys: System, t: nat, pc: Pc)
    requires Counted(sys.threads, sys.reading, sys.writing)
    requires !pc.Writing? && !At(sys.threads, t).Writing?
    ensures InProgress(Become(sys, t, pc).threads, sys.queue) == InProgress(sys.threads, sys.queue)
  {
    var threads' := Become(sys, t, pc).threads;
    if u :| At(sys.threads, u).Writing? {
      WriterIs(sys.threads, sys.queue, u);
      assert At(threads', u) == At(sys.threads, u);
      forall v | At(threads', v).Writing? ensures v == u {
        Moved(sys, t, pc, v);
      }
      WriterIs(threads', sys.queue, u);
    } else {
      forall v ensures !At(threads', v).Writing? {
        Moved(sys, t, pc, v);
      }
    }
  }

  /** A thread that does not write moves; reading counts it if it polls. */
  lemma MoveKeeps(sys: System, t: nat, pc: Pc)
    requires Sound(sys) && !pc.Writing? && !At(sys.threads, t).Writing?
    requires Polls(pc) ==> Polls(At(sys.threads, t)) || sys.reading == 0
    requires if pc.ReplyWait? then At(sys.threads, t).ReplyWait? && At(sys.threads, t).n == pc.n else !At(sys.threads, t).ReplyWait?
    requires Fine(sys, pc)
    ensures Sound(Become(sys.(reading := sys.reading + Bit(Polls(pc)) - Bit(Polls(At(sys.threads, t)))), t, pc))
  {
    var s := Become(sys.(reading := sys.reading + Bit(Polls(pc)) - Bit(Polls(At(sys.threads, t)))), t, pc);
    MoveCounts(sys, t, pc, s.reading, s.writing);
    MoveReaders(sys, t, pc);
    MoveBytes(sys, t, pc);
    forall u ensures Fine(s, At(s.threads, u)) {
      assert Fine(sys, At(sys.threads, u));
    }
  }

  /** A thread that does not poll moves to where it does not either. */
  lemma MoveStill(sys: System, t: nat, pc: Pc)
    requires Sound(sys) && !pc.Writing? && !At(sys.threads, t).Writing? && !Polls(pc) && !Polls(At(sys.threads, t))
    requires if pc.ReplyWait? then At(sys.threads, t).ReplyWait? && At(sys.threads, t).n == pc.n else !At(sys.threads, t).ReplyWait?
    requires Fine(sys, pc)
    ensures Sound(Become(sys, t, pc))
  {
    assert sys == sys.(reading := sys.reading + Bit(Polls(pc)) - Bit(Polls(At(sys.threads, t))));
    MoveKeeps(sys, t, pc);
  }

  // ----- waiting for replies and events -----

  lemma PollKeeps(sys: System, inb: Inbound, trace: seq<Happening>)
    ensures Sound(sys) ==> Sound(sys.(inb := inb, trace := trace))
    ensures Invariant(sys) ==> Invariant(sys.(inb := inb, trace := trace))
  {
    assert OnlyReads(sys, sys.(inb := inb, trace := trace)) by {
      assert sys.threads == sys.(inb := inb, trace := trace).threads;
    }
    ReadingKeeps(sys, sys.(inb := inb, trace := trace));
  }

  lemma SleepAttends(sys: System)
    requires Sound(sys) && sys.reading > 0
    ensures Invariant(sys)
  {
  }

  /** Near as Readers means it: the waiting threads' requests are close to the newest. */
  lemma WaitersNear(sys: System, n: nat)
    requires Sound(sys) && Roomy(sys) && n <= sys.request && sys.request - n < TWO31
    ensures Near(sys.readers, n)
  {
    forall r | r in sys.readers ensures -TWO31 < r.n - n < TWO31 {
      assert Fine(sys, At(sys.threads, r.thread));
      assert Awaited(At(sys.threads, r.thread)) == Some(r.n);
    }
  }

  /** A thread leaves the wait: its own node goes, and the next waiting thread is told. */
  lemma LeaveKeeps(sys: System, t: nat, n: nat, pick: nat)
    requires Sound(sys) && Roomy(sys) && At(sys.threads, t) == ReplyWait(n, Woken)
    ensures Invariant(LeaveReply(sys, t, n, pick))
  {
    var reader := Reader(n, t);
    assert reader in sys.readers && Awaited(At(sys.threads, t)) == Some(n) && Fine(sys, At(sys.threads, t));
    WaitersNear(sys, n);
    UnlinkRemovesOwn(sys.readers, reader);
    var s := Become(sys.(readers := Unlink(sys.readers, reader)), t, Idle);
    MoveCounts(sys, t, Idle, s.reading, s.writing);
    MoveBytes(sys, t, Idle);
    forall u ensures At(s.threads, u) == if u == t then Idle else At(sys.threads, u) {
      Moved(sys, t, Idle, u);
    }
    forall u ensures Fine(s, At(s.threads, u)) {
      assert Fine(sys, At(sys.threads, u));
    }
    LeaveLists(sys.threads, sys.readers, t, n, s.threads);
    WakeNextAttends(s, pick);
  }

  lemma {:induction false} ThreadOnce(readers: seq<Reader>, a: Reader, b: Reader)
    requires OwnThreads(readers) && a in readers && b in readers && a.thread == b.thread
    ensures a == b
  {
    assert readers == [readers[0]] + readers[1..];
    if a != readers[0] && b != readers[0] {
      ThreadOnce(readers[1..], a, b);
    }
  }

  lemma LeaveLists(threads: map<nat, Pc>, readers: seq<Reader>, t: nat, n: nat, threads': map<nat, Pc>)
    requires ListsWaiters(threads, readers) && Reader(n, t) in readers
    requires forall u :: At(threads', u) == if u == t then Idle else At(threads, u)
    requires var rest := Unlink(readers, Reader(n, t));
      Sorted(rest) && OwnThreads(rest) && forall r :: r in rest <==> r in readers && r != Reader(n, t)
    ensures ListsWaiters(threads', Unlink(readers, Reader(n, t)))
  {
    forall r | r in Unlink(readers, Reader(n, t)) ensures r.thread != t {
      if r.thread == t {
        ThreadOnce(readers, r, Reader(n, t));
      }
    }
    forall u | At(threads', u).ReplyWait? ensures Reader(At(threads', u).n, u) in Unlink(readers, Reader(n, t)) {
      assert u != t && At(threads, u).ReplyWait?;
    }
  }

  /** Finding a reader at work it sleeps, otherwise it polls. */
  lemma WaitKeeps(sys: System, t: nat, n: nat)
    requires Sound(sys) && At(sys.threads, t) == ReplyWait(n, Woken)
    ensures if sys.reading > 0 then Invariant(Become(sys, t, ReplyWait(n, Asleep)))
      else Invariant(Become(sys.(reading := sys.reading + 1), t, ReplyWait(n, Polling)))
  {
    assert Fine(sys, At(sys.threads, t));
    if sys.reading > 0 {
      MoveStill(sys, t, ReplyWait(n, Asleep));
      SleepAttends(Become(sys, t, ReplyWait(n, Asleep)));
    } else {
      MoveKeeps(sys, t, ReplyWait(n, Polling));
      SleepAttends(Become(sys.(reading := sys.reading + 1), t, ReplyWait(n, Polling)));
    }
  }

  /** Asking for a reply, taking an event and discarding concern nobody else. */
  lemma AsksKeeps(sys: System, who: Option<nat>, n: nat)
    ensures var s := Asks(sys, who, n);
      && (Sound(sys) ==> Sound(s)) && (Invariant(sys) ==> Invariant(s)) && (Roomy(sys) ==> Roomy(s))
      && s == sys.(inb := s.inb, trace := s.trace)
  {
    var s := Asks(sys, who, n);
    PollKeeps(sys, s.inb, s.trace);
    assert s.threads == sys.threads;
  }

  lemma TakesKeeps(sys: System, who: Option<nat>)
    ensures var s := Takes(sys, who);
      && (Sound(sys) ==> Sound(s)) && (Invariant(sys) ==> Invariant(s))
      && s == sys.(inb := s.inb, trace := s.trace)
  {
    var s := Takes(sys, who);
    PollKeeps(sys, s.inb, s.trace);
  }

  lemma ReplyLoopKeeps(sys: System, t: nat, n: nat, pick: nat)
    requires Sound(sys) && Roomy(sys) && At(sys.threads, t) == ReplyWait(n, Woken)
    ensures Invariant(ReplyLoop(sys, t, n, pick))
  {
    var s := Asks(sys, Some(t), n);
    AsksKeeps(sys, Some(t), n);
    if Poll(sys.inb, Cookie(n)).1.Done? {
      LeaveKeeps(s, t, n, pick);
    } else {
      WaitKeeps(s, t, n);
    }
  }

  /** It makes no difference where the thread is said to be while it runs. */
  lemma ReplyLoopFrom(sys: System, t: nat, n: nat, pick: nat, pc: Pc)
    ensures ReplyLoop(Become(sys, t, pc), t, n, pick) == ReplyLoop(sys, t, n, pick)
  {
    BecomeTwice(sys.threads, t, pc, Idle);
    BecomeTwice(sys.threads, t, pc, ReplyWait(n, Asleep));
    BecomeTwice(sys.threads, t, pc, ReplyWait(n, Polling));
  }

  lemma BecomeTwice(threads: map<nat, Pc>, t: nat, a: Pc, b: Pc)
    ensures var once: map<nat, Pc> := threads[t := a];
      once[t := b] == threads[t := b]
  {
  }

  lemma EnterKeeps(sys: System, t: nat, n: nat, pick: nat)
    requires Sound(sys) && Roomy(sys) && Neutral(At(sys.threads, t))
    requires n <= sys.request && sys.request - n < TWO31 && n <= sys.written
    ensures Invariant(EnterReply(sys, t, n, pick))
  {
    var reader := Reader(n, t);
    WaitersNear(sys, n);
    LinkInserts(sys.readers, reader);
    var linked := sys.(readers := Link(sys.readers, reader));
    var s := Become(linked, t, ReplyWait(n, Woken));
    MoveCounts(sys, t, ReplyWait(n, Woken), s.reading, s.writing);
    MoveBytes(sys, t, ReplyWait(n, Woken));
    forall u ensures At(s.threads, u) == if u == t then ReplyWait(n, Woken) else At(sys.threads, u) {
      Moved(sys, t, ReplyWait(n, Woken), u);
    }
    forall u ensures Fine(s, At(s.threads, u)) {
      assert Fine(sys, At(sys.threads, u));
    }
    EnterLists(sys.threads, sys.readers, t, n, s.threads);
    forall u | Awaited(At(s.threads, u)).Some? ensures s.request - Awaited(At(s.threads, u)).value < TWO31 {
      assert u != t ==> Awaited(At(sys.threads, u)).Some?;
    }
    ReplyLoopKeeps(s, t, n, pick);
    ReplyLoopFrom(linked, t, n, pick, ReplyWait(n, Woken));
  }

  lemma EnterLists(threads: map<nat, Pc>, readers: seq<Reader>, t: nat, n: nat, threads': map<nat, Pc>)
    requires ListsWaiters(threads, readers) && !At(threads, t).ReplyWait?
    requires forall u :: At(threads', u) == if u == t then ReplyWait(n, Woken) else At(threads, u)
    requires var all := Link(readers, Reader(n, t));
      Sorted(all) && OwnThreads(all) && forall r :: r in all <==> r in readers || r == Reader(n, t)
    ensures ListsWaiters(threads', Link(readers, Reader(n, t)))
  {
    forall u | At(threads', u).ReplyWait? ensures Reader(At(threads', u).n, u) in Link(readers, Reader(n, t)) {
      assert u != t ==> At(threads, u).ReplyWait?;
    }
  }

  lemma EventTakenKeeps(sys: System, t: nat, pick: nat)
    requires Sound(sys) && Neutral(At(sys.threads, t))
    ensures Invariant(WakeNext(Become(Takes(sys, Some(t)), t, Idle), pick))
  {
    var s := Takes(sys, Some(t));
    TakesKeeps(sys, Some(t));
    MoveStill(s, t, Idle);
    WakeNextAttends(Become(s, t, Idle), pick);
  }

  lemma EventWaitKeeps(sys: System, t: nat)
    requires Sound(sys) && Neutral(At(sys.threads, t))
    ensures if sys.reading > 0 then Invariant(Become(sys, t, EventWait(Asleep)))
      else Invariant(Become(sys.(reading := sys.reading + 1), t, EventWait(Polling)))
  {
    if sys.reading > 0 {
      MoveStill(sys, t, EventWait(Asleep));
      SleepAttends(Become(sys, t, EventWait(Asleep)));
    } else {
      MoveKeeps(sys, t, EventWait(Polling));
      SleepAttends(Become(sys.(reading := sys.reading + 1), t, EventWait(Polling)));
    }
  }

  lemma EventLoopKeeps(sys: System, t: nat, pick: nat)
    requires Sound(sys) && Neutral(At(sys.threads, t))
    ensures Invariant(EventLoop(sys, t, pick))
  {
    if sys.inb.events != [] {
      EventTakenKeeps(sys, t, pick);
    } else {
      EventWaitKeeps(sys, t);
    }
  }

  lemma ReadsSoundly(sys: System, o: Outcome, t: nat)
    requires Invariant(sys) && Roomy(sys) && Polls(At(sys.threads, t))
    ensures var s := Readable(sys, o).0;
      Sound(s) && Roomy(s) && At(s.threads, t) == At(sys.threads, t) && Fine(s, At(s.threads, t))
  {
    var s := Readable(sys, o).0;
    ReadableOnlyReads(sys, o);
    ReadingKeeps(sys, s);
    RoomyStirred(sys, s);
    assert Stirred(At(sys.threads, t), At(s.threads, t));
  }

  lemma RoomyMoves(sys: System, t: nat, pc: Pc, reading: int)
    requires Roomy(sys) && Awaited(pc) == Awaited(At(sys.threads, t))
    ensures Roomy(Become(sys.(reading := reading), t, pc))
  {
    var s := Become(sys.(reading := reading), t, pc);
    forall u | Awaited(At(s.threads, u)).Some? ensures Awaited(At(s.threads, u)) == Awaited(At(sys.threads, u)) {
      Moved(sys.(reading := reading), t, pc, u);
    }
    RoomyAwaits(sys, s);
  }

  /** A reading thread after poll(2) no longer counts. */
  lemma ReaderReturns(sys: System, t: nat, o: Outcome, pc: Pc)
    requires Invariant(sys) && Roomy(sys) && Polls(At(sys.threads, t))
    requires pc == At(sys.threads, t).(stage := Woken)
    ensures var s := Readable(sys, o).0;
      var s1 := Become(s.(reading := s.reading - 1), t, pc);
      Sound(s1) && Roomy(s1) && At(s1.threads, t) == pc
  {
    var s := Readable(sys, o).0;
    ReadsSoundly(sys, o, t);
    MoveKeeps(s, t, pc);
    RoomyMoves(s, t, pc, s.reading - 1);
  }

  lemma RoomyStirred(sys: System, s: System)
    requires OnlyReads(sys, s) && Roomy(sys)
    ensures Roomy(s)
  {
    forall t | Awaited(At(s.threads, t)).Some? ensures s.request - Awaited(At(s.threads, t)).value < TWO31 {
      assert Stirred(At(sys.threads, t), At(s.threads, t));
      assert Awaited(At(sys.threads, t)) == Awaited(At(s.threads, t));
    }
  }

  // ----- writing -----

  /** Somewhere else than polling, or waiting for a reply or an event. */
  predicate Outside(pc: Pc) { !pc.Writing? && !pc.ReplyWait? && !pc.EventWait? }

  lemma OutsideAttends(sys: System, t: nat, pc: Pc)
    requires Attended(sys) && Outside(At(sys.threads, t)) && Outside(pc)
    ensures Attended(Become(sys, t, pc))
  {
    var s := Become(sys, t, pc);
    if exists u :: Sleeps(At(s.threads, u)) {
      var u :| Sleeps(At(s.threads, u));
      assert Sleeps(At(sys.threads, u));
      if sys.reading <= 0 {
        var v :| IsWoken(At(sys.threads, v));
        assert IsWoken(At(s.threads, v));
      }
    }
  }

  lemma OutsideKeeps(sys: System, t: nat, pc: Pc)
    requires Invariant(sys) && Outside(At(sys.threads, t)) && Outside(pc) && Fine(sys, pc)
    ensures Invariant(Become(sys, t, pc))
  {
    MoveStill(sys, t, pc);
    OutsideAttends(sys, t, pc);
  }

  /** A thread outside poll(2) has the vector f in hand: nothing is queued, and those who wait still sleep. */
  ghost predicate Holds(sys: System, f: InFlight) {
    && Counted(sys.threads, sys.reading, sys.writing) && sys.writing == 0
    && ListsWaiters(sys.threads, sys.readers)
    && (forall t :: Fine(sys.(writing := 1), At(sys.threads, t)))
    && sys.queueLen == 0 && sys.written <= sys.request && |sys.log| == sys.request
    && f.from <= f.to <= |sys.queue|
    && (!sys.hasError ==>
          var all := sys.wire + Bytes(sys.queue, f);
          && Frames(all) == sys.log && Unframed(all) == []
          && sys.written <= |Frames(sys.wire)|)
  }

  lemma NoWriter(threads: map<nat, Pc>, queue: seq<Byte>)
    requires !SomeWriter(threads)
    ensures InProgress(threads, queue) == []
  {
  }

  lemma StartKeeps(sys: System, t: nat, f: InFlight, purpose: Purpose)
    requires Holds(sys, f) && Solid(sys.queue, f) && Outside(At(sys.threads, t))
    requires purpose.Flushing? ==> DueFlush(sys, purpose.after)
    ensures Invariant(StartWrite(sys, t, f, purpose))
  {
    var s := StartWrite(sys, t, f, purpose);
    MoveCounts(sys, t, Writing(f, purpose), s.reading, s.writing);
    MoveReaders(sys, t, Writing(f, purpose));
    forall u ensures At(s.threads, u) == if u == t then Writing(f, purpose) else At(sys.threads, u) {
      Moved(sys, t, Writing(f, purpose), u);
    }
    WriterIs(s.threads, s.queue, t);
    forall u ensures Fine(s, At(s.threads, u)) {
      assert Fine(sys.(writing := 1), At(sys.threads, u));
    }
    assert AllBytes(s) == sys.wire + Bytes(sys.queue, f);
  }

  lemma RousedCounts(threads: map<nat, Pc>, reading: int, writing: int)
    requires Counted(threads, reading, writing)
    ensures Counted(Broadcast(threads), reading, writing)
  {
    forall t ensures (At(Broadcast(threads), t).Writing? <==> At(threads, t).Writing?)
      && (Polls(At(Broadcast(threads), t)) <==> Polls(At(threads, t)))
    {
    }
  }

  lemma RousedReaders(threads: map<nat, Pc>, readers: seq<Reader>)
    requires ListsWaiters(threads, readers)
    ensures ListsWaiters(Broadcast(threads), readers)
  {
    forall t ensures At(threads, t).ReplyWait? || At(Broadcast(threads), t).ReplyWait? ==> At(Broadcast(threads), t) == At(threads, t) {
    }
  }

  /** The end of _xcb_out_send: all is written or the connection has failed, and everybody is told. */
  lemma EndSendKeeps(sys: System, t: nat, f: InFlight, ret: bool, pick: nat)
    requires Holds(sys, f) && At(sys.threads, t) == Idle
    requires if ret then Bytes(sys.queue, f) == [] else sys.hasError
    ensures Invariant(WakeNext(Become(Finished(sys), t, Idle), pick))
  {
    var s := Finished(sys);
    RousedCounts(sys.threads, sys.reading, sys.writing);
    RousedReaders(sys.threads, sys.readers);
    NoWriter(s.threads, s.queue);
    forall u ensures Fine(s, At(s.threads, u)) {
      assert Fine(sys.(writing := 1), At(sys.threads, u));
    }
    assert AllBytes(s) == sys.wire && (ret ==> sys.wire + Bytes(sys.queue, f) == sys.wire);
    MoveKeeps(s, t, Idle);
    WakeNextAttends(Become(s, t, Idle), pick);
  }

  /** The thread may go on to wait for request n. */
  ghost predicate MayWait(sys: System, after: Then) {
    DueFlush(sys, after) && (after.ReplyTo? ==> sys.request - after.n < TWO31)
  }

  lemma AfterFlushKeeps(sys: System, t: nat, ret: bool, after: Then, pick: nat)
    requires Invariant(sys) && Roomy(sys) && Outside(At(sys.threads, t)) && MayWait(sys, after)
    requires ret ==> Reaches(sys.written, after)
    ensures Invariant(AfterFlush(sys, t, ret, after, pick))
  {
    if after.ReplyTo? && ret {
      EnterKeeps(sys, t, after.n, pick);
    } else {
      OutsideKeeps(sys, t, Idle);
      WakeNextAttends(Become(sys, t, Idle), pick);
    }
  }

  lemma FailKeeps(sys: System)
    requires Invariant(sys)
    ensures Invariant(sys.(hasError := true))
  {
    ReadingKeeps(sys, sys.(hasError := true));
  }

  lemma RoomyAwaits(sys: System, s: System)
    requires Roomy(sys) && s.request == sys.request
    requires forall t :: Awaited(At(s.threads, t)).Some? ==> Awaited(At(s.threads, t)) == Awaited(At(sys.threads, t))
    ensures Roomy(s)
  {
  }

  lemma EndSendRoomy(sys: System, t: nat, pick: nat)
    requires Roomy(sys)
    ensures Roomy(WakeNext(Become(Finished(sys), t, Idle), pick))
  {
    var s := Become(Finished(sys), t, Idle);
    var s' := WakeNext(s, pick);
    SignalStirs(s.threads, NextSignal(s.readers), pick);
    forall u | Awaited(At(s'.threads, u)).Some? ensures Awaited(At(s'.threads, u)) == Awaited(At(sys.threads, u)) {
      assert Stirred(At(s.threads, u), At(s'.threads, u));
      Moved(Finished(sys), t, Idle, u);
    }
    RoomyAwaits(sys, s');
  }

  lemma FinishKeeps(sys: System, t: nat, f: InFlight, ret: bool, purpose: Purpose, pick: nat)
    requires Holds(sys, f) && At(sys.threads, t) == Idle && Roomy(sys)
    requires if ret then Bytes(sys.queue, f) == [] else sys.hasError
    requires purpose.Flushing? ==> MayWait(sys, purpose.after)
    ensures Invariant(FinishWrite(sys, t, ret, purpose, pick))
  {
    var s0 := Become(Finished(sys), t, Idle);
    var s := WakeNext(s0, pick);
    EndSendKeeps(sys, t, f, ret, pick);
    EndSendRoomy(sys, t, pick);
    SignalStirs(s0.threads, NextSignal(s0.readers), pick);
    assert Stirred(At(s0.threads, t), At(s.threads, t));
    match purpose
    case Sending => if !ret { FailKeeps(s); }
    case Flushing(after) => AfterFlushKeeps(s, t, ret, after, pick);
  }

  lemma LoopKeeps(sys: System, t: nat, f: InFlight, purpose: Purpose, ret: bool, pick: nat)
    requires Holds(sys, f) && At(sys.threads, t) == Idle && Roomy(sys)
    requires !ret ==> sys.hasError
    requires purpose.Flushing? ==> MayWait(sys, purpose.after)
    ensures Invariant(WriteLoop(sys, t, f, purpose, ret, pick))
  {
    if ret && Bytes(sys.queue, f) != [] {
      StartKeeps(sys, t, f, purpose);
    } else {
      FinishKeeps(sys, t, f, ret, purpose, pick);
    }
  }

  lemma BehindBytes(queue: seq<Byte>, f: InFlight, n: nat)
    requires f.from <= f.to <= |queue| && n <= |Bytes(queue, f)|
    ensures var g := Behind(f, n); g.from <= g.to <= |queue| && Bytes(queue, g) == Bytes(queue, f)[n..]
  {
    if f.from + n <= f.to {
      assert queue[f.from..f.to][n..] == queue[f.from + n..f.to];
    } else {
      assert f.tail[f.from + n - f.to..] == Bytes(queue, f)[n..];
    }
  }

  lemma FramesGrow(a: seq<Byte>, b: seq<Byte>)
    ensures Frames(a) <= Frames(a + b)
  {
    FramesConcat(a, b);
  }

  /** A write of n bytes moves them from the vector to the wire. */
  lemma WriteMoves(wire: seq<Byte>, queue: seq<Byte>, f: InFlight, n: nat)
    requires f.from <= f.to <= |queue| && n <= |Bytes(queue, f)|
    ensures (wire + Slice(Bytes(queue, f), 0, n)) + Bytes(queue, Behind(f, n)) == wire + Bytes(queue, f)
    ensures |Frames(wire)| <= |Frames(wire + Slice(Bytes(queue, f), 0, n))|
  {
    BehindBytes(queue, f, n);
    FramesGrow(wire, Slice(Bytes(queue, f), 0, n));
    CutJoins(wire, Bytes(queue, f), n);
    assert Slice(Bytes(queue, f), 0, n) == Bytes(queue, f)[..n];
  }

  /** The writing thread lets go of its counters, the vector still in hand. */
  lemma WriterHolds(sys: System, t: nat, f: InFlight, purpose: Purpose)
    requires Sound(sys) && At(sys.threads, t) == Writing(f, purpose)
    ensures Holds(Left(sys, t), f)
  {
    var s := Left(sys, t);
    assert SomeWriter(sys.threads);
    assert Fine(sys, At(sys.threads, t));
    MoveCounts(sys, t, Idle, s.reading, s.writing);
    MoveReaders(sys, t, Idle);
    WriterIs(sys.threads, sys.queue, t);
    forall u ensures Fine(s.(writing := 1), At(s.threads, u)) {
      assert Fine(sys, At(sys.threads, u));
    }
    assert AllBytes(sys) == sys.wire + Bytes(sys.queue, f);
  }

  lemma WrittenHolds(sys: System, f: InFlight, wrote: Socket.Wrote)
    requires Holds(sys, f) && (wrote.Count? ==> wrote.n <= |Bytes(sys.queue, f)|)
    ensures var w := Writable(sys, f, wrote); Holds(w.0, w.1) && (!w.2 ==> w.0.hasError)
  {
    var w := Writable(sys, f, wrote);
    if wrote.Count? {
      BehindBytes(sys.queue, f, wrote.n);
      WriteMoves(sys.wire, sys.queue, f, wrote.n);
    }
    forall u ensures Fine(w.0.(writing := 1), At(w.0.threads, u)) {
      assert Fine(sys.(writing := 1), At(sys.threads, u));
    }
  }

  lemma WriterReturns(sys: System, t: nat, f: InFlight, purpose: Purpose, o: Outcome)
    requires Invariant(sys) && Roomy(sys) && At(sys.threads, t) == Writing(f, purpose)
    ensures var d := Left(Readable(sys, o).0, t);
      && Holds(d, f) && Roomy(d) && At(d.threads, t) == Idle && d.queue == sys.queue
      && (purpose.Flushing? ==> MayWait(d, purpose.after)) && (!Readable(sys, o).1 ==> d.hasError)
  {
    var s := Readable(sys, o).0;
    var d := Left(s, t);
    ReadableOnlyReads(sys, o);
    ReadingKeeps(sys, s);
    RoomyStirred(sys, s);
    assert Stirred(At(sys.threads, t), At(s.threads, t));
    assert Fine(sys, At(sys.threads, t));
    WriterHolds(s, t, f, purpose);
    forall u | Awaited(At(d.threads, u)).Some? ensures Awaited(At(d.threads, u)) == Awaited(At(s.threads, u)) {
      assert u != t;
    }
    RoomyAwaits(s, d);
    assert purpose.Flushing? && purpose.after.ReplyTo? ==> Awaited(At(sys.threads, t)) == Some(purpose.after.n);
  }

  /** Writing and leaving the counters commute. */
  lemma WritableLeaves(s: System, t: nat, f: InFlight, wrote: Socket.Wrote)
    ensures var w := Writable(s, f, wrote);
      Writable(Left(s, t), f, wrote) == (Left(w.0, t), w.1, w.2)
  {
  }

  lemma WriterGoesOn(sys: System, t: nat, f: InFlight, purpose: Purpose, wrote: Socket.Wrote, pick: nat)
    requires Holds(sys, f) && Roomy(sys) && At(sys.threads, t) == Idle
    requires purpose.Flushing? ==> MayWait(sys, purpose.after)
    requires wrote.Count? ==> wrote.n <= |Bytes(sys.queue, f)|
    ensures var w := Writable(sys, f, wrote); Invariant(WriteLoop(w.0, t, w.1, purpose, w.2, pick))
  {
    var w := Writable(sys, f, wrote);
    WrittenHolds(sys, f, wrote);
    WrittenRoomy(sys, t, f, wrote, purpose);
    LoopKeeps(w.0, t, w.1, purpose, w.2, pick);
  }

  lemma WriterKeeps(sys: System, t: nat, f: InFlight, purpose: Purpose, o: Outcome, pick: nat)
    requires Invariant(sys) && Roomy(sys) && At(sys.threads, t) == Writing(f, purpose)
    requires Possible(sys, At(sys.threads, t), o)
    ensures Invariant(WriterRuns(sys, t, f, purpose, o, pick))
  {
    var s, ok := Readable(sys, o).0, Readable(sys, o).1;
    WriterReturns(sys, t, f, purpose, o);
    match WroteOf(sys, o)
    case Some(w) =>
      WritableLeaves(s, t, f, w);
      WriterGoesOn(Left(s, t), t, f, purpose, w, pick);
    case None =>
      LoopKeeps(Left(s, t), t, f, purpose, ok, pick);
  }

  lemma WrittenRoomy(sys: System, t: nat, f: InFlight, wrote: Socket.Wrote, purpose: Purpose)
    requires Roomy(sys) && (purpose.Flushing? ==> MayWait(sys, purpose.after))
    ensures var s := Writable(sys, f, wrote).0;
      Roomy(s) && (purpose.Flushing? ==> MayWait(s, purpose.after)) && s.threads == sys.threads
  {
    RoomyAwaits(sys, Writable(sys, f, wrote).0);
  }

  // ----- flushing -----

  lemma FlushLoopKeeps(sys: System, t: nat, to: nat, after: Then, pick: nat)
    requires Invariant(sys) && Roomy(sys) && Outside(At(sys.threads, t)) && MayWait(sys, after)
    requires to <= sys.request && Reaches(to, after) && (sys.writing > 0 || sys.written >= to)
    ensures Invariant(FlushLoop(sys, t, to, after, pick))
  {
    if sys.writing > 0 {
      OutsideKeeps(sys, t, FlushWait(to, after, false));
    } else {
      AfterFlushKeeps(sys, t, true, after, pick);
    }
  }

  /** The queue becomes the vector. */
  lemma QueueHolds(sys: System)
    requires Sound(sys) && sys.queueLen > 0
    ensures Holds(sys.(queueLen := 0), InFlight(0, sys.queueLen, []))
  {
    var s, f := sys.(queueLen := 0), InFlight(0, sys.queueLen, []);
    NoWriter(sys.threads, sys.queue);
    assert Bytes(s.queue, f) == sys.queue[0..sys.queueLen];
    assert AllBytes(sys) == sys.wire + Bytes(s.queue, f);
    forall u ensures Fine(s.(writing := 1), At(s.threads, u)) {
      assert Fine(sys, At(sys.threads, u));
    }
  }

  lemma FlushKeeps(sys: System, t: nat, to: nat, after: Then, pick: nat)
    requires Invariant(sys) && Roomy(sys) && Outside(At(sys.threads, t)) && MayWait(sys, after)
    requires to <= sys.request && Reaches(to, after)
    ensures Invariant(FlushTo(sys, t, to, after, pick))
  {
    if sys.written >= to {
      AfterFlushKeeps(sys, t, true, after, pick);
    } else if sys.queueLen > 0 {
      QueueHolds(sys);
      StartKeeps(sys.(queueLen := 0), t, InFlight(0, sys.queueLen, []), Flushing(after));
    } else {
      FlushLoopKeeps(sys, t, to, after, pick);
    }
  }

  // ----- sending -----

  lemma {:induction false} FlatSplit(parts: seq<seq<Byte>>, room: nat)
    ensures Fitting(parts, room) + Flat(NotFitting(parts, room)) == Flat(parts)
    ensures |Fitting(parts, room)| <= room
    ensures NotFitting(parts, room) != [] ==> Flat(NotFitting(parts, room)) != []
  {
    if parts != [] && |parts[0]| <= room {
      FlatSplit(parts[1..], room - |parts[0]|);
    } else if parts != [] {
      FlatLength(parts);
    }
  }

  lemma FlatPrepend(first: seq<Byte>, rest: seq<seq<Byte>>)
    ensures Flat([first] + rest) == first + Flat(rest)
  {
    assert ([first] + rest)[1..] == rest;
  }

  lemma HeaderBytes(parts: seq<seq<Byte>>, word: seq<Byte>)
    requires parts != [] && |parts[0]| >= 4
    ensures Flat([word + parts[0][4..]] + parts[1..]) == word + Flat(parts)[4..]
  {
    var body, others := parts[0][4..], Flat(parts[1..]);
    FlatPrepend(word + body, parts[1..]);
    Reassociate(word, body, others);
    CutFirst(parts[0], others, 4);
  }

  lemma CutFirst(a: seq<Byte>, b: seq<Byte>, k: nat)
    requires k <= |a|
    ensures (a + b)[k..] == a[k..] + b
  {
  }

  lemma ShortBytes(parts: seq<seq<Byte>>, word: seq<Byte>, synced: bool)
    requires parts != [] && |parts[0]| >= 4
    ensures Flat(Arranged(parts, word, 0, synced)) == (if synced then SYNC_BYTES else []) + (word + Flat(parts)[4..])
  {
    var rest := [word + parts[0][4..]] + parts[1..];
    HeaderBytes(parts, word);
    FlatPrepend(SYNC_BYTES, rest);
    assert SYNC_BYTES + [] == SYNC_BYTES;
    assert Arranged(parts, word, 0, synced) == if synced then [SYNC_BYTES] + rest else rest;
    assert [] + Flat(rest) == Flat(rest);
  }

  lemma LongBytes(parts: seq<seq<Byte>>, word: seq<Byte>, longlen: nat, synced: bool)
    requires parts != [] && |parts[0]| >= 4 && 0 < longlen < TWO32
    ensures Flat(Arranged(parts, word, longlen, synced))
      == (if synced then SYNC_BYTES else []) + (word + Le32(longlen) + Flat(parts)[4..])
  {
    var long := Le32(longlen);
    var prefix := (if synced then SYNC_BYTES else []) + (word + long);
    var rest := [parts[0][4..]] + parts[1..];
    FlatPrepend(parts[0][4..], parts[1..]);
    CutFirst(parts[0], Flat(parts[1..]), 4);
    FlatPrepend(prefix, rest);
    assert prefix != [] && Arranged(parts, word, longlen, synced) == [prefix] + rest;
    Reassociate(if synced then SYNC_BYTES else [], word + long, Flat(rest));
  }

  /** The vector of a request is its bytes, behind the sync's if there is one. */
  lemma LayoutIsEncode(req: ValidRequest, maxShort: Low, synced: bool)
    ensures Flat(Layout(req, maxShort, synced)) == (if synced then SYNC_BYTES else []) + Encode(req, maxShort)
  {
    var short := req.Words() <= maxShort;
    var word := FirstWord(req, if short then req.Words() else 0);
    var longlen := if short then 0 else (req.Words() + 1) % TWO32;
    if longlen == 0 {
      ShortBytes(req.parts, word, synced);
    } else {
      LongBytes(req.parts, word, longlen, synced);
    }
  }

  /** Bytes behind whole requests are framed on their own. */
  lemma BehindWhole(all: seq<Byte>, bytes: seq<Byte>)
    requires Unframed(all) == []
    ensures Frames(all + bytes) == Frames(all) + Frames(bytes) && Unframed(all + bytes) == Unframed(bytes)
  {
    FramesConcat(all, bytes);
    assert [] + bytes == bytes;
  }

  /** Behind whole requests, the bytes of one more are read as that request, after the sync if there is one. */
  lemma OneMoreFrame(all: seq<Byte>, bytes: seq<Byte>, frame: Frame, synced: bool)
    requires Unframed(all) == [] && Frames(bytes) == [frame] && Unframed(bytes) == []
    ensures var more := all + ((if synced then SYNC_BYTES else []) + bytes);
      Frames(more) == Frames(all) + (if synced then [SYNC_FRAME] else []) + [frame] && Unframed(more) == []
  {
    SyncIsFrame(bytes);
    BehindWhole(SYNC_BYTES, bytes);
    BehindWhole(all, (if synced then SYNC_BYTES else []) + bytes);
    assert [] + bytes == bytes;
  }

  lemma CopiedSlice(queue: seq<Byte>, at: nat, bytes: seq<Byte>)
    requires at + |bytes| <= |queue|
    ensures |Copied(queue, at, bytes)| == |queue|
    ensures Copied(queue, at, bytes)[0..at + |bytes|] == queue[0..at] + bytes
  {
  }

  /** The system with the request numbered and its bytes not yet anywhere. */
  ghost predicate Issued(sys: System, bytes: seq<Byte>) {
    && Counted(sys.threads, sys.reading, sys.writing) && sys.writing == 0
    && AllFine(sys)
    && ListsWaiters(sys.threads, sys.readers)
    && sys.queueLen <= |sys.queue| && sys.written <= sys.request
    && |sys.log| == sys.request
    && (!sys.hasError ==>
          var all := sys.wire + (sys.queue[0..sys.queueLen] + bytes);
          && Frames(all) == sys.log && Unframed(all) == []
          && sys.written <= |Frames(sys.wire)|)
  }

  /** The bytes go to the queue. */
  lemma QueueKeeps(sys: System, t: nat, bytes: seq<Byte>)
    requires Issued(sys, bytes) && Attended(sys) && Outside(At(sys.threads, t)) && bytes != []
    requires sys.queueLen + |bytes| <= |sys.queue|
    ensures Invariant(Become(sys.(queue := Copied(sys.queue, sys.queueLen, bytes), queueLen := sys.queueLen + |bytes|), t, Idle))
  {
    QueuedSound(sys, bytes);
    var s := sys.(queue := Copied(sys.queue, sys.queueLen, bytes), queueLen := sys.queueLen + |bytes|);
    assert s.threads == sys.threads && s.reading == sys.reading;
    OutsideKeeps(s, t, Idle);
  }

  lemma QueuedSound(sys: System, bytes: seq<Byte>)
    requires Issued(sys, bytes) && bytes != [] && sys.queueLen + |bytes| <= |sys.queue|
    ensures Sound(sys.(queue := Copied(sys.queue, sys.queueLen, bytes), queueLen := sys.queueLen + |bytes|))
  {
    var s := sys.(queue := Copied(sys.queue, sys.queueLen, bytes), queueLen := sys.queueLen + |bytes|);
    CopiedSlice(sys.queue, sys.queueLen, bytes);
    NoWriter(s.threads, s.queue);
    assert Slice(s.queue, 0, s.queueLen) == sys.queue[0..sys.queueLen] + bytes;
    assert AllBytes(s) == sys.wire + (sys.queue[0..sys.queueLen] + bytes);
    forall u ensures Fine(s, At(s.threads, u)) {
      assert Fine(sys, At(sys.threads, u));
    }
  }

  lemma IssuedHolds(sys: System, bytes: seq<Byte>, queue: seq<Byte>, f: InFlight)
    requires Issued(sys, bytes) && |queue| == |sys.queue| && f.from <= f.to <= |queue|
    requires Bytes(queue, f) == sys.queue[0..sys.queueLen] + bytes
    ensures Holds(sys.(queue := queue, queueLen := 0), f)
  {
    var s := sys.(queue := queue, queueLen := 0);
    forall u ensures Fine(s.(writing := 1), At(s.threads, u)) {
      assert Fine(sys, At(sys.threads, u));
    }
  }

  /** Part of the bytes goes to the queue, which becomes the front of the vector. */
  lemma OverflowKeeps(sys: System, t: nat, fitting: seq<Byte>, rest: seq<Byte>, bytes: seq<Byte>)
    requires Issued(sys, bytes) && bytes == fitting + rest && Outside(At(sys.threads, t)) && rest != []
    requires sys.queueLen + |fitting| <= |sys.queue|
    ensures var s := sys.(queue := Copied(sys.queue, sys.queueLen, fitting), queueLen := 0);
      Invariant(StartWrite(s, t, InFlight(0, sys.queueLen + |fitting|, rest), Sending))
  {
    var queue := Copied(sys.queue, sys.queueLen, fitting);
    var f := InFlight(0, sys.queueLen + |fitting|, rest);
    CopiedSlice(sys.queue, sys.queueLen, fitting);
    assert Bytes(queue, f) == sys.queue[0..sys.queueLen] + bytes;
    IssuedHolds(sys, bytes, queue, f);
    StartKeeps(sys.(queue := queue, queueLen := 0), t, f, Sending);
  }

  lemma OverflowIs(sys: System, t: nat, fitting: seq<Byte>, rest: seq<seq<Byte>>)
    requires rest != []
    ensures Placed(sys, t, fitting, rest)
      == StartWrite(sys.(queue := Copied(sys.queue, sys.queueLen, fitting), queueLen := 0), t,
                    InFlight(0, sys.queueLen + |fitting|, Flat(rest)), Sending)
  {
  }

  lemma PlacedKeeps(sys: System, t: nat, fitting: seq<Byte>, rest: seq<seq<Byte>>, tail: seq<Byte>, bytes: seq<Byte>)
    requires Issued(sys, bytes) && Attended(sys) && Outside(At(sys.threads, t))
    requires sys.queueLen + |fitting| <= |sys.queue| && bytes == fitting + tail && bytes != [] && tail == Flat(rest)
    requires rest != [] ==> tail != []
    ensures Invariant(Placed(sys, t, fitting, rest))
  {
    if rest == [] {
      assert fitting == bytes;
      QueueKeeps(sys, t, fitting);
    } else {
      OverflowIs(sys, t, fitting, rest);
      OverflowKeeps(sys, t, fitting, tail, bytes);
    }
  }

  lemma BlockIsPlaced(sys: System, t: nat, parts: seq<seq<Byte>>) returns (fitting: seq<Byte>, rest: seq<seq<Byte>>, tail: seq<Byte>)
    requires sys.queueLen <= |sys.queue|
    ensures WriteBlock(sys, t, parts) == Placed(sys, t, fitting, rest)
    ensures Flat(parts) == fitting + tail && tail == Flat(rest) && (rest != [] ==> tail != [])
    ensures sys.queueLen + |fitting| <= |sys.queue|
  {
    var room: nat := |sys.queue| - sys.queueLen;
    FlatSplit(parts, room);
    fitting, rest := Fitting(parts, room), NotFitting(parts, room);
    tail := Flat(rest);
  }

  lemma BlockKeeps(sys: System, t: nat, parts: seq<seq<Byte>>, bytes: seq<Byte>)
    requires Issued(sys, bytes) && Attended(sys) && Outside(At(sys.threads, t))
    requires bytes == Flat(parts) && bytes != []
    ensures Invariant(WriteBlock(sys, t, parts))
  {
    var fitting, rest, tail := BlockIsPlaced(sys, t, parts);
    PlacedKeeps(sys, t, fitting, rest, tail, bytes);
  }

  lemma EncodeIsFrame(req: ValidRequest, maxShort: Low)
    requires Representable(req.Words(), maxShort)
    ensures Frames(Encode(req, maxShort)) == [FrameOf(req)] && Unframed(Encode(req, maxShort)) == []
    ensures Encode(req, maxShort) != []
  {
    EncodedIsFrame(req, maxShort, []);
    assert Encode(req, maxShort) + [] == Encode(req, maxShort);
  }

  lemma Regroup(a: seq<Byte>, b: seq<Byte>, c: seq<Byte>)
    ensures a + (b + c) == (a + [] + b) + c
  {
  }

  /** The request is numbered and on the record. */
  lemma NumberKeeps(sys: System, req: ValidRequest, isVoid: bool, flags: Flags)
    requires Sound(sys) && sys.writing == 0 && Representable(req.Words(), sys.maxShort)
    ensures var parts := Layout(req, sys.maxShort, NeedsSync(sys.inb, sys.request, isVoid));
      Issued(Numbered(sys, req, isVoid, flags), Flat(parts)) && Flat(parts) != []
  {
    var s := Numbered(sys, req, isVoid, flags);
    var synced := NeedsSync(sys.inb, sys.request, isVoid);
    var bytes := (if synced then SYNC_BYTES else []) + Encode(req, sys.maxShort);
    LayoutIsEncode(req, sys.maxShort, synced);
    EncodeIsFrame(req, sys.maxShort);
    NoWriter(sys.threads, sys.queue);
    Regroup(sys.wire, sys.queue[0..sys.queueLen], bytes);
    if !sys.hasError {
      OneMoreFrame(AllBytes(sys), Encode(req, sys.maxShort), FrameOf(req), synced);
    }
    forall u ensures Fine(s, At(s.threads, u)) {
      assert Fine(sys, At(sys.threads, u));
    }
  }

  lemma SendKeeps(sys: System, t: nat, call: Call)
    requires Invariant(sys) && Outside(At(sys.threads, t))
    requires call.Send? && Representable(call.req.Words(), sys.maxShort)
    ensures Invariant(SendLoop(sys, t, call))
  {
    if sys.writing > 0 {
      OutsideKeeps(sys, t, SendWait(call, false));
    } else {
      NumberKeeps(sys, call.req, call.isVoid, call.flags);
      var s := Numbered(sys, call.req, call.isVoid, call.flags);
      assert s.threads == sys.threads && Attended(s);
      var parts := Layout(call.req, sys.maxShort, NeedsSync(sys.inb, sys.request, call.isVoid));
      BlockKeeps(s, t, parts, Flat(parts));
    }
  }

  // ----- every step -----

  lemma WakesUpKeeps(sys: System, t: nat)
    requires Invariant(sys)
    ensures Invariant(Next(sys, WakesUp(t)))
  {
    var pc := At(sys.threads, t);
    if Outside(pc) && Roused(pc) != pc {
      assert Fine(sys, pc);
      OutsideKeeps(sys, t, Roused(pc));
    } else {
      StirringKeeps(sys, Next(sys, WakesUp(t)).threads);
    }
  }

  lemma InReadKeeps(sys: System, input: Input)
    requires Invariant(sys)
    ensures Invariant(InRead(sys, input).0)
  {
    InReadOnlyReads(sys, input);
    ReadingKeeps(sys, InRead(sys, input).0);
  }

  lemma PollEventKeeps(sys: System, input: Input)
    requires Invariant(sys)
    ensures Invariant(PollsForEvent(sys, input))
  {
    if sys.inb.events != [] {
      TakesKeeps(sys, None);
    } else {
      InReadKeeps(sys, input);
      TakesKeeps(InRead(sys, input).0, None);
    }
  }

  lemma ReplyReaderKeeps(sys: System, t: nat, n: nat, o: Outcome, pick: nat)
    requires Invariant(sys) && Roomy(sys) && At(sys.threads, t) == ReplyWait(n, Polling)
    ensures Invariant(LockedStretch(sys, t, o, pick))
  {
    var s, ret := Readable(sys, o).0, Readable(sys, o).1;
    var s1 := Become(s.(reading := s.reading - 1), t, ReplyWait(n, Woken));
    assert LockedStretch(sys, t, o, pick) == if ret then ReplyLoop(s1, t, n, pick) else LeaveReply(s1, t, n, pick);
    ReaderReturns(sys, t, o, ReplyWait(n, Woken));
    if ret {
      ReplyLoopKeeps(s1, t, n, pick);
    } else {
      LeaveKeeps(s1, t, n, pick);
    }
  }

  lemma EventGivesUp(sys: System, t: nat, pick: nat)
    requires Sound(sys) && At(sys.threads, t) == EventWait(Woken)
    ensures Invariant(WakeNext(Become(sys, t, Idle), pick))
  {
    MoveStill(sys, t, Idle);
    WakeNextAttends(Become(sys, t, Idle), pick);
  }

  lemma EventReaderKeeps(sys: System, t: nat, o: Outcome, pick: nat)
    requires Invariant(sys) && Roomy(sys) && At(sys.threads, t) == EventWait(Polling)
    ensures Invariant(LockedStretch(sys, t, o, pick))
  {
    var s, ret := Readable(sys, o).0, Readable(sys, o).1;
    var s1 := Become(s.(reading := s.reading - 1), t, EventWait(Woken));
    assert LockedStretch(sys, t, o, pick) == if ret then EventLoop(s1, t, pick) else WakeNext(Become(s1, t, Idle), pick);
    ReaderReturns(sys, t, o, EventWait(Woken));
    if ret {
      EventLoopKeeps(s1, t, pick);
    } else {
      EventGivesUp(s1, t, pick);
    }
  }

  lemma AwaitedNear(sys: System, t: nat)
    requires Roomy(sys) && Awaited(At(sys.threads, t)).Some?
    ensures sys.request - Awaited(At(sys.threads, t)).value < TWO31
  {
  }

  /** The cookie of an issued request is widened to its number again, which is what the assertion in the flush needs. */
  lemma FlushTarget(sys: System, t: nat, n: nat)
    requires Roomy(sys) && At(sys.threads, t) == Entering(AwaitReply(n)) && n <= sys.request
    ensures Widen(sys.request, Cookie(n)) == n
  {
    AwaitedNear(sys, t);
    WidenExact(sys.request, n);
  }

  lemma BlockStepKeeps(sys: System, t: nat, o: Outcome, pick: nat)
    requires Invariant(sys) && Roomy(sys) && Possible(sys, At(sys.threads, t), o)
    ensures Invariant(LockedStretch(sys, t, o, pick))
  {
    var pc := At(sys.threads, t);
    assert Fine(sys, pc);
    if Awaited(pc).Some? {
      AwaitedNear(sys, t);
    }
    match pc
    case Entering(Send(req, isVoid, flags)) => SendKeeps(sys, t, Send(req, isVoid, flags));
    case Entering(Flush) => FlushKeeps(sys, t, sys.request, Return, pick);
    case Entering(AwaitReply(n)) =>
      FlushTarget(sys, t, n);
      FlushKeeps(sys, t, n, ReplyTo(n), pick);
    case Entering(AwaitEvent) => EventLoopKeeps(sys, t, pick);
    case SendWait(call, true) => SendKeeps(sys, t, call);
    case FlushWait(to, after, true) => FlushLoopKeeps(sys, t, to, after, pick);
    case Writing(f, purpose) => WriterKeeps(sys, t, f, purpose, o, pick);
    case ReplyWait(n, Woken) => ReplyLoopKeeps(sys, t, n, pick);
    case ReplyWait(n, Polling) => ReplyReaderKeeps(sys, t, n, o, pick);
    case EventWait(Woken) => EventLoopKeeps(sys, t, pick);
    case EventWait(Polling) => EventReaderKeeps(sys, t, o, pick);
    case _ =>
  }

  lemma StepKeeps(sys: System, a: Action)
    requires Invariant(sys) && Legal(sys, a)
    ensures Invariant(Next(sys, a))
  {
    match a
    case Start(t, call) => OutsideKeeps(sys, t, Entering(call));
    case Refuse => FailKeeps(sys);
    case Runs(t, o, pick) => BlockStepKeeps(sys, t, o, pick);
    case WakesUp(t) => WakesUpKeeps(sys, t);
    case PollReply(n) => AsksKeeps(sys, None, n);
    case DiscardReply(n) =>
      PollKeeps(sys, Discard(sys.inb, sys.request, Cookie(n)), sys.trace + [Dropped(n)]);
    case PollEvent(input) => PollEventKeeps(sys, input);
  }

  lemma {:induction false} RunKeeps(sys: System, acts: seq<Action>)
    requires Invariant(sys) && LegalRun(sys, acts)
    ensures Invariant(Run(sys, acts))
    decreases |acts|
  {
    if acts != [] {
      StepKeeps(sys, acts[0]);
      RunKeeps(Next(sys, acts[0]), acts[1..]);
    }
  }

  /** A connection just set up. */
  ghost predicate Fresh(sys: System) {
    sys == START(sys.maxShort, sys.maxBig, sys.queue)
  }

  lemma RunFromStart(sys: System, acts: seq<Action>)
    requires Fresh(sys) && LegalRun(sys, acts)
    ensures Invariant(Run(sys, acts))
  {
    NoWriter(sys.threads, sys.queue);
    assert AllBytes(sys) == [];
    RunKeeps(sys, acts);
  }

  // ----- what that means -----

  /**
   * No wake-up is lost: whenever a thread sleeps for a reply or an event, some
   * thread is polling, or one of those that slept is awake and has yet to run.
   * A thread that waits for a write to end does so while there is one.
   */
  lemma NoLostWakeup(sys: System, acts: seq<Action>)
    requires Fresh(sys) && LegalRun(sys, acts)
    ensures var s := Run(sys, acts);
      && ((exists t :: Sleeps(At(s.threads, t))) ==> s.reading > 0 || exists t :: IsWoken(At(s.threads, t)))
      && (s.reading > 0 ==> exists t :: Polls(At(s.threads, t)) || At(s.threads, t).Writing?)
      && (forall t :: WaitsForWriter(At(s.threads, t)) ==> s.writing == 1 && SomeWriter(s.threads))
  {
    RunFromStart(sys, acts);
    var s := Run(sys, acts);
    forall t | WaitsForWriter(At(s.threads, t)) ensures s.writing == 1 {
      assert Fine(s, At(s.threads, t));
    }
    if s.reading > 0 {
      assert SomeWriter(s.threads) || SomePoller(s.threads);
    }
  }

  predicate WaitsForWriter(pc: Pc) {
    (pc.SendWait? || pc.FlushWait? || pc.WriteWait?) && !pc.awake
  }

  /** Writers exclude one another, and the counters say so. */
  lemma WritersExclude(sys: System, acts: seq<Action>)
    requires Fresh(sys) && LegalRun(sys, acts)
    ensures var s := Run(sys, acts);
      && 0 <= s.writing <= 1 && s.writing <= s.reading <= s.writing + 1
      && (s.writing == 1 <==> exists t :: At(s.threads, t).Writing?)
      && (forall t, u :: At(s.threads, t).Writing? && At(s.threads, u).Writing? ==> t == u)
      && (forall t, u :: Polls(At(s.threads, t)) && Polls(At(s.threads, u)) ==> t == u)
      && (forall t :: !At(s.threads, t).WriteWait?)
      && (s.writing > 0 ==> s.queueLen == 0)
      && (s.writing == 0 ==> s.written == s.request || s.queueLen > 0)
  {
    RunFromStart(sys, acts);
    var s := Run(sys, acts);
    forall t ensures !At(s.threads, t).WriteWait? {
      assert Fine(s, At(s.threads, t));
    }
  }

  /**
   * What has been written, is being written and is queued is, to a server that
   * frames it, exactly the requests issued, one frame for each number; the
   * server has the first of them in order, and all those counted as written.
   */
  lemma BytesAreRequests(sys: System, acts: seq<Action>)
    requires Fresh(sys) && LegalRun(sys, acts)
    ensures var s := Run(sys, acts);
      && |s.log| == s.request
      && (!s.hasError ==>
            && Frames(AllBytes(s)) == s.log && Unframed(AllBytes(s)) == []
            && Frames(s.wire) <= s.log
            && s.written <= |Frames(s.wire)|)
  {
    RunFromStart(sys, acts);
    if !Run(sys, acts).hasError {
      WireIsPrefix(Run(sys, acts));
    }
  }

  lemma WireIsPrefix(sys: System)
    requires Transmits(sys) && !sys.hasError
    ensures Frames(sys.wire) <= sys.log
  {
    var rest := InProgress(sys.threads, sys.queue) + Slice(sys.queue, 0, sys.queueLen);
    FramesGrow(sys.wire, rest);
    assert sys.wire + rest == AllBytes(sys);
  }

  /** The readers list is exactly the threads in the wait, in order, and read_packet's walk finds whom it concerns. */
  lemma ReadersAreWaiters(sys: System, acts: seq<Action>)
    requires Fresh(sys) && LegalRun(sys, acts)
    ensures var s := Run(sys, acts);
      && Sorted(s.readers) && OwnThreads(s.readers)
      && (forall n, t :: Reader(n, t) in s.readers <==> At(s.threads, t).ReplyWait? && At(s.threads, t).n == n)
      && (Roomy(s) && s.inb.read <= s.request < s.inb.read + TWO31 ==>
            match FirstWaiting(s.readers, s.inb.read)
            case Some(t) => At(s.threads, t).ReplyWait? && At(s.threads, t).n == s.inb.read
            case None => forall t :: At(s.threads, t).ReplyWait? ==> At(s.threads, t).n != s.inb.read)
  {
    RunFromStart(sys, acts);
    var s := Run(sys, acts);
    if Roomy(s) && s.inb.read <= s.request < s.inb.read + TWO31 {
      WaitersNear(s, s.inb.read);
      WaiterIsFound(s.readers, s.inb.read);
    }
  }

  /** The assertions of the source hold wherever a thread comes to them. */
  lemma AssertionsHold(sys: System, acts: seq<Action>, t: nat)
    requires Fresh(sys) && LegalRun(sys, acts) && Roomy(Run(sys, acts))
    ensures var s := Run(sys, acts);
      match At(s.threads, t)
      case Entering(AwaitReply(n)) => Widen(s.request, Cookie(n)) == n <= s.request
      case FlushWait(to, _, awake) => to <= s.request && (awake && s.writing == 0 ==> s.written >= to)
      case Writing(f, _) => s.queueLen == 0 && Bytes(s.queue, f) != []
      case _ => true
  {
    RunFromStart(sys, acts);
    var s := Run(sys, acts);
    assert Fine(s, At(s.threads, t));
    match At(s.threads, t)
    case Entering(AwaitReply(n)) => FlushTarget(s, t, n);
    case Writing(_, _) => assert SomeWriter(s.threads);
    case _ =>
  }

  /** A thread is in the wait for a reply only once its request is written, and on a working connection the server has been given it. */
  lemma WaitersAreWritten(sys: System, acts: seq<Action>, t: nat)
    requires Fresh(sys) && LegalRun(sys, acts) && At(Run(sys, acts).threads, t).ReplyWait?
    ensures var s, n := Run(sys, acts), At(Run(sys, acts).threads, t).n;
      n <= s.written && (!s.hasError ==> n <= |Frames(s.wire)| <= |s.log| && Frames(s.wire)[..n] == s.log[..n])
  {
    RunFromStart(sys, acts);
    var s := Run(sys, acts);
    assert Fine(s, At(s.threads, t));
    if !s.hasError {
      WireIsPrefix(s);
    }
  }
}
