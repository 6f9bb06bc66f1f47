/**
 * What one step does: the thread that runs does its part and others are at most
 * woken, numbers are given out and bytes sent only where a call asks for it.
 */
module ThreadSteps {
  import opened Wrappers
  import opened Sequence
  import opened Inbound
  import opened Framing
  import opened Readers
  import opened Threads
  import opened ThreadSafety
  import Socket

  // ----- other threads are at most woken -----

  predicate Nudged(a: Pc, b: Pc) {
    Stirred(a, b) || b == Roused(a)
  }

  /** Nothing happens to any thread but t except that it may be woken. */
  ghost predicate Nudges(sys: System, s: System, t: nat) {
    forall u :: u != t ==> Nudged(At(sys.threads, u), At(s.threads, u))
  }

  lemma NudgesTwice(a: System, b: System, c: System, t: nat)
    requires Nudges(a, b, t) && Nudges(b, c, t)
    ensures Nudges(a, c, t)
  {
    forall u | u != t ensures Nudged(At(a.threads, u), At(c.threads, u)) {
      assert Nudged(At(a.threads, u), At(b.threads, u)) && Nudged(At(b.threads, u), At(c.threads, u));
    }
  }

  lemma StirringNudges(sys: System, s: System, t: nat)
    requires AllStirred(sys.threads, s.threads)
    ensures Nudges(sys, s, t)
  {
    forall u | u != t ensures Nudged(At(sys.threads, u), At(s.threads, u)) {
      assert Stirred(At(sys.threads, u), At(s.threads, u));
    }
  }

  /** The thread moves, and the next reader or an event's waiter is woken. */
  lemma MoveNudges(sys: System, s: System, t: nat, pc: Pc, pick: nat)
    requires s.threads == Become(sys, t, pc).threads
    ensures Nudges(sys, s, t) && Nudges(sys, WakeNext(s, pick), t)
    ensures At(WakeNext(s, pick).threads, t) == pc || Stirred(pc, At(WakeNext(s, pick).threads, t))
  {
    SignalStirs(s.threads, NextSignal(s.readers), pick);
    StirringNudges(s, WakeNext(s, pick), t);
    NudgesTwice(sys, s, WakeNext(s, pick), t);
    assert Stirred(At(s.threads, t), At(WakeNext(s, pick).threads, t));
  }

  lemma ReplyLoopNudges(sys: System, t: nat, n: nat, pick: nat)
    ensures Nudges(sys, ReplyLoop(sys, t, n, pick), t) && Nudges(sys, LeaveReply(sys, t, n, pick), t)
  {
    var asked := Asks(sys, Some(t), n);
    MoveNudges(sys, Become(sys.(readers := Unlink(sys.readers, Reader(n, t))), t, Idle), t, Idle, pick);
    MoveNudges(sys, Become(asked.(readers := Unlink(sys.readers, Reader(n, t))), t, Idle), t, Idle, pick);
  }

  lemma EventLoopNudges(sys: System, t: nat, pick: nat)
    ensures Nudges(sys, EventLoop(sys, t, pick), t)
  {
    MoveNudges(sys, Become(Takes(sys, Some(t)), t, Idle), t, Idle, pick);
  }

  lemma AfterFlushNudges(sys: System, t: nat, ret: bool, after: Then, pick: nat)
    ensures Nudges(sys, AfterFlush(sys, t, ret, after, pick), t)
  {
    if after.ReplyTo? && ret {
      ReplyLoopNudges(sys.(readers := Link(sys.readers, Reader(after.n, t))), t, after.n, pick);
    } else {
      MoveNudges(sys, Become(sys, t, Idle), t, Idle, pick);
    }
  }

  lemma FlushNudges(sys: System, t: nat, to: nat, after: Then, pick: nat)
    ensures Nudges(sys, FlushTo(sys, t, to, after, pick), t) && Nudges(sys, FlushLoop(sys, t, to, after, pick), t)
  {
    AfterFlushNudges(sys, t, true, after, pick);
  }

  lemma FinishNudges(sys: System, t: nat, ret: bool, purpose: Purpose, pick: nat)
    ensures Nudges(sys, FinishWrite(sys, t, ret, purpose, pick), t)
  {
    var roused := Finished(sys);
    var s := WakeNext(Become(roused, t, Idle), pick);
    MoveNudges(roused, Become(roused, t, Idle), t, Idle, pick);
    NudgesTwice(sys, roused, s, t);
    if purpose.Flushing? {
      AfterFlushNudges(s, t, ret, purpose.after, pick);
      NudgesTwice(sys, s, AfterFlush(s, t, ret, purpose.after, pick), t);
    }
  }

  lemma WriteLoopNudges(sys: System, t: nat, f: InFlight, purpose: Purpose, ret: bool, pick: nat)
    ensures Nudges(sys, WriteLoop(sys, t, f, purpose, ret, pick), t)
  {
    FinishNudges(sys, t, ret, purpose, pick);
  }

  lemma WriterNudges(sys: System, t: nat, f: InFlight, purpose: Purpose, o: Outcome, pick: nat)
    ensures Nudges(sys, WriterRuns(sys, t, f, purpose, o, pick), t)
  {
    var s, ok := Readable(sys, o).0, Readable(sys, o).1;
    ReadableOnlyReads(sys, o);
    StirringNudges(sys, s, t);
    WritesNudge(s, t, f, purpose, WroteOf(sys, o), ok, pick);
    NudgesTwice(sys, s, WriterWrites(s, t, f, purpose, WroteOf(sys, o), ok, pick), t);
  }

  lemma WritesNudge(sys: System, t: nat, f: InFlight, purpose: Purpose, wrote: Option<Socket.Wrote>, ok: bool, pick: nat)
    ensures Nudges(sys, WriterWrites(sys, t, f, purpose, wrote, ok, pick), t)
  {
    match wrote
    case Some(w) =>
      var d := Left(Writable(sys, f, w).0, t);
      WriteLoopNudges(d, t, Writable(sys, f, w).1, purpose, Writable(sys, f, w).2, pick);
      NudgesTwice(sys, d, WriteLoop(d, t, Writable(sys, f, w).1, purpose, Writable(sys, f, w).2, pick), t);
    case None =>
      WriteLoopNudges(Left(sys, t), t, f, purpose, ok, pick);
      NudgesTwice(sys, Left(sys, t), WriteLoop(Left(sys, t), t, f, purpose, ok, pick), t);
  }

  /** A thread that polls to read, then goes on in its loop or leaves it. */
  lemma ReaderNudges(sys: System, t: nat, o: Outcome, pick: nat)
    requires Polls(At(sys.threads, t))
    ensures Nudges(sys, LockedStretch(sys, t, o, pick), t)
  {
    var s := Readable(sys, o).0;
    ReadableOnlyReads(sys, o);
    StirringNudges(sys, s, t);
    var s1 := Become(s.(reading := s.reading - 1), t, At(sys.threads, t).(stage := Woken));
    NudgesTwice(sys, s, s1, t);
    match At(sys.threads, t) {
      case ReplyWait(n, _) => ReplyLoopNudges(s1, t, n, pick);
      case EventWait(_) =>
        EventLoopNudges(s1, t, pick);
        MoveNudges(s1, Become(s1, t, Idle), t, Idle, pick);
      case _ =>
    }
    NudgesTwice(sys, s1, LockedStretch(sys, t, o, pick), t);
  }

  lemma SendNudges(sys: System, t: nat, call: Call)
    requires call.Send?
    ensures Nudges(sys, SendLoop(sys, t, call), t)
  {
    var s := SendLoop(sys, t, call);
    assert s.threads == Become(sys, t, At(s.threads, t)).threads;
  }

  lemma StretchNudges(sys: System, t: nat, o: Outcome, pick: nat)
    ensures Nudges(sys, LockedStretch(sys, t, o, pick), t)
  {
    match At(sys.threads, t)
    case Entering(Send(req, isVoid, flags)) => SendNudges(sys, t, Send(req, isVoid, flags));
    case SendWait(call, true) => if call.Send? { SendNudges(sys, t, call); }
    case Entering(Flush) => FlushNudges(sys, t, sys.request, Return, pick);
    case Entering(AwaitReply(n)) => FlushNudges(sys, t, Widen(sys.request, Cookie(n)), ReplyTo(n), pick);
    case Entering(AwaitEvent) => EventLoopNudges(sys, t, pick);
    case FlushWait(to, after, true) => FlushNudges(sys, t, to, after, pick);
    case Writing(f, purpose) => WriterNudges(sys, t, f, purpose, o, pick);
    case WriteWait(f, purpose, true) => WriteLoopNudges(sys, t, f, purpose, true, pick);
    case ReplyWait(n, Woken) => ReplyLoopNudges(sys, t, n, pick);
    case ReplyWait(_, Polling) => ReaderNudges(sys, t, o, pick);
    case EventWait(Woken) => EventLoopNudges(sys, t, pick);
    case EventWait(Polling) => ReaderNudges(sys, t, o, pick);
    case _ =>
  }

  /** The thread an action is a step of, if any. */
  predicate StepOf(a: Action, t: nat) {
    (a.Runs? || a.Start?) && a.t == t
  }

  /** What others do can only wake a thread. */
  lemma OthersNudge(sys: System, a: Action, t: nat)
    requires !StepOf(a, t)
    ensures Nudged(At(sys.threads, t), At(Next(sys, a).threads, t))
  {
    match a
    case Runs(u, o, pick) => StretchNudges(sys, u, o, pick);
    case PollEvent(input) =>
      InReadOnlyReads(sys, input);
      StirringNudges(sys, InRead(sys, input).0, t + 1);
    case _ =>
  }

  // ----- numbers are given out, and the queue is filled, by sending alone -----

  /** Nothing is issued, the queue's memory is left alone, and a failed connection does not recover. */
  predicate SameLog(sys: System, s: System) {
    && s.request == sys.request && s.log == sys.log && s.queue == sys.queue
    && (sys.hasError ==> s.hasError)
    && (s.written == sys.written || s.written == sys.request)
  }

  /** Nor is anything sent. */
  predicate Silent(sys: System, s: System) {
    SameLog(sys, s) && s.wire == sys.wire
  }

  lemma FinishSilent(sys: System, t: nat, ret: bool, purpose: Purpose, pick: nat)
    ensures Silent(sys, FinishWrite(sys, t, ret, purpose, pick))
  {
  }

  lemma WriteLoopSilent(sys: System, t: nat, f: InFlight, purpose: Purpose, ret: bool, pick: nat)
    ensures Silent(sys, WriteLoop(sys, t, f, purpose, ret, pick))
  {
    FinishSilent(sys, t, ret, purpose, pick);
  }

  lemma FlushSilent(sys: System, t: nat, to: nat, after: Then, pick: nat)
    ensures Silent(sys, FlushTo(sys, t, to, after, pick)) && Silent(sys, FlushLoop(sys, t, to, after, pick))
  {
  }

  lemma ReplyLoopSilent(sys: System, t: nat, n: nat, pick: nat)
    ensures Silent(sys, ReplyLoop(sys, t, n, pick)) && Silent(sys, LeaveReply(sys, t, n, pick))
  {
  }

  lemma EventLoopSilent(sys: System, t: nat, pick: nat)
    ensures Silent(sys, EventLoop(sys, t, pick))
  {
  }

  lemma ReaderSilent(sys: System, t: nat, o: Outcome, pick: nat)
    requires Polls(At(sys.threads, t))
    ensures Silent(sys, LockedStretch(sys, t, o, pick))
  {
    ReadableOnlyReads(sys, o);
    var s := Readable(sys, o).0;
    match At(sys.threads, t)
    case ReplyWait(n, _) => ReplyLoopSilent(Become(s.(reading := s.reading - 1), t, ReplyWait(n, Woken)), t, n, pick);
    case EventWait(_) => EventLoopSilent(Become(s.(reading := s.reading - 1), t, EventWait(Woken)), t, pick);
    case _ =>
  }

  /** What the kernel takes of a write, if it comes to that. */
  ghost function Accepted(o: Outcome): nat {
    if o.Ready? && !(o.input.Some? && o.input.value.Broken? && !o.input.value.ret) && o.wrote.Some? && o.wrote.value.Count? then o.wrote.value.n else 0
  }

  lemma WriterSends(sys: System, t: nat, f: InFlight, purpose: Purpose, o: Outcome, pick: nat)
    requires At(sys.threads, t) == Writing(f, purpose) && Possible(sys, At(sys.threads, t), o)
    ensures var s := WriterRuns(sys, t, f, purpose, o, pick);
      SameLog(sys, s) && Accepted(o) <= |Bytes(sys.queue, f)| && s.wire == sys.wire + Bytes(sys.queue, f)[..Accepted(o)]
  {
    var s, ok := Readable(sys, o).0, Readable(sys, o).1;
    ReadableOnlyReads(sys, o);
    match WroteOf(sys, o)
    case Some(w) =>
      WriteLoopSilent(Left(Writable(s, f, w).0, t), t, Writable(s, f, w).1, purpose, Writable(s, f, w).2, pick);
    case None =>
      WriteLoopSilent(Left(s, t), t, f, purpose, ok, pick);
  }

  /** A thread about to send, with no write in progress. */
  predicate SendsNow(sys: System, pc: Pc) {
    sys.writing == 0 && ((pc.Entering? && pc.call.Send?) || (pc.SendWait? && pc.awake))
  }

  lemma OthersSilent(sys: System, t: nat, o: Outcome, pick: nat)
    requires Invariant(sys) && !SendsNow(sys, At(sys.threads, t)) && !At(sys.threads, t).Writing?
    ensures Silent(sys, LockedStretch(sys, t, o, pick))
  {
    var pc := At(sys.threads, t);
    assert Fine(sys, pc);
    match pc
    case Entering(Flush) => FlushSilent(sys, t, sys.request, Return, pick);
    case Entering(AwaitReply(n)) => FlushSilent(sys, t, Widen(sys.request, Cookie(n)), ReplyTo(n), pick);
    case Entering(AwaitEvent) => EventLoopSilent(sys, t, pick);
    case FlushWait(to, after, true) => FlushSilent(sys, t, to, after, pick);
    case ReplyWait(n, Woken) => ReplyLoopSilent(sys, t, n, pick);
    case ReplyWait(_, Polling) => ReaderSilent(sys, t, o, pick);
    case EventWait(Woken) => EventLoopSilent(sys, t, pick);
    case EventWait(Polling) => ReaderSilent(sys, t, o, pick);
    case _ =>
  }

  /** What a send puts on the record. */
  ghost predicate Logs(sys: System, s: System, call: Call) {
    call.Send? &&
    var synced := NeedsSync(sys.inb, sys.request, call.isVoid);
    && s.inb == Issue(sys.inb, sys.request, call.isVoid, call.flags)
    && s.request == Number(sys.inb, sys.request, call.isVoid) == |s.log|
    && s.log[s.request - 1] == FrameOf(call.req)
    && (synced ==> s.log[s.request - 2] == SYNC_FRAME)
    && s.log[..s.request - (if synced then 2 else 1)] == sys.log
    && s.written == sys.written && s.wire == sys.wire && s.hasError == sys.hasError
  }

  lemma SendLogs(sys: System, t: nat, call: Call)
    requires Invariant(sys) && call.Send? && sys.writing == 0
    ensures Logs(sys, SendLoop(sys, t, call), call)
  {
    var s := SendLoop(sys, t, call);
    var synced := if NeedsSync(sys.inb, sys.request, call.isVoid) then [SYNC_FRAME] else [];
    assert s.log == sys.log + synced + [FrameOf(call.req)];
    LogGrows(sys.log, synced, FrameOf(call.req));
  }

  lemma LogGrows(log: seq<Frame>, synced: seq<Frame>, frame: Frame)
    ensures var more := log + synced + [frame];
      && more[..|log|] == log && more[|log|..|log| + |synced|] == synced && more[|log| + |synced|] == frame
  {
  }

  lemma StretchSends(sys: System, t: nat, o: Outcome, pick: nat)
    requires Invariant(sys) && Possible(sys, At(sys.threads, t), o)
    ensures var s, pc := LockedStretch(sys, t, o, pick), At(sys.threads, t);
      && (if SendsNow(sys, pc) then Logs(sys, s, pc.call) else SameLog(sys, s))
      && (if pc.Writing? then
            Accepted(o) <= |Bytes(sys.queue, pc.rest)| && s.wire == sys.wire + Bytes(sys.queue, pc.rest)[..Accepted(o)]
          else s.wire == sys.wire)
  {
    var pc := At(sys.threads, t);
    assert Fine(sys, pc);
    if SendsNow(sys, pc) {
      assert LockedStretch(sys, t, o, pick) == SendLoop(sys, t, pc.call);
      SendLogs(sys, t, pc.call);
    } else if pc.Writing? {
      WriterSends(sys, t, pc.rest, pc.purpose, o, pick);
    } else {
      OthersSilent(sys, t, o, pick);
    }
  }

  /**
   * Frame k is the request or sync numbered k: a step issues something exactly
   * if it is the step of a thread that is to send and finds no write in
   * progress; it then appends its request, behind at most one sync, and gives
   * it the number at which it stands.
   */
  lemma FrameNumbers(sys: System, a: Action)
    requires Invariant(sys) && Legal(sys, a)
    ensures var s := Next(sys, a);
      if a.Runs? && SendsNow(sys, At(sys.threads, a.t)) then Logs(sys, s, At(sys.threads, a.t).call) else SameLog(sys, s)
  {
    match a
    case Runs(t, o, pick) => StretchSends(sys, t, o, pick);
    case PollEvent(input) => PollEventSilent(sys, input);
    case _ =>
  }

  lemma PollEventSilent(sys: System, input: Input)
    ensures Silent(sys, PollsForEvent(sys, input))
  {
    InReadOnlyReads(sys, input);
  }

  /** Bytes reach the server by the writing thread's step alone, and are the next ones of its vector, as many as the kernel takes. */
  lemma WireGrows(sys: System, a: Action)
    requires Invariant(sys) && Legal(sys, a)
    ensures var s, pc := Next(sys, a), if a.Runs? then At(sys.threads, a.t) else Idle;
      if pc.Writing? then
        Accepted(a.outcome) <= |Bytes(sys.queue, pc.rest)| && s.wire == sys.wire + Bytes(sys.queue, pc.rest)[..Accepted(a.outcome)]
      else s.wire == sys.wire
  {
    match a
    case Runs(t, o, pick) => StretchSends(sys, t, o, pick);
    case PollEvent(input) => PollEventSilent(sys, input);
    case _ =>
  }

  /** While a thread writes, nothing any other thread does changes the bytes it writes. */
  lemma WriteUndisturbed(sys: System, a: Action, t: nat)
    requires Invariant(sys) && Legal(sys, a) && At(sys.threads, t).Writing?
    requires a.Runs? ==> a.t != t
    ensures var s := Next(sys, a);
      At(s.threads, t) == At(sys.threads, t) && Bytes(s.queue, At(s.threads, t).rest) == Bytes(sys.queue, At(sys.threads, t).rest)
  {
    assert SomeWriter(sys.threads) && sys.writing == 1;
    assert !StepOf(a, t);
    OthersNudge(sys, a, t);
    FrameNumbers(sys, a);
  }

  /**
   * A write goes on until all is written: the writing thread comes back from
   * poll(2) to write what is left, or leaves with everything issued counted as
   * written, or the connection has failed.
   */
  lemma WriterGoesOnOrEnds(sys: System, t: nat, f: InFlight, purpose: Purpose, o: Outcome, pick: nat)
    requires Invariant(sys) && At(sys.threads, t) == Writing(f, purpose) && Possible(sys, At(sys.threads, t), o)
    ensures var s := LockedStretch(sys, t, o, pick);
      && Accepted(o) <= |Bytes(sys.queue, f)|
      && (!s.hasError && Accepted(o) < |Bytes(sys.queue, f)| ==>
            && At(s.threads, t).Writing? && At(s.threads, t).purpose == purpose
            && Bytes(s.queue, At(s.threads, t).rest) == Bytes(sys.queue, f)[Accepted(o)..])
      && (!s.hasError && Accepted(o) == |Bytes(sys.queue, f)| ==> !At(s.threads, t).Writing? && s.written == s.request)
  {
    var s, ok := Readable(sys, o).0, Readable(sys, o).1;
    assert SomeWriter(sys.threads) && sys.writing == 1 && Fine(sys, At(sys.threads, t));
    ReadableOnlyReads(sys, o);
    assert Solid(sys.queue, f) && |Bytes(sys.queue, f)| > 0;
    assert !ok ==> s.hasError;
    WritesGoOnOrEnd(s, t, f, purpose, WroteOf(sys, o), ok, pick);
  }

  /** How much a write takes. */
  function Taken(wrote: Option<Socket.Wrote>): nat {
    if wrote.Some? && wrote.value.Count? then wrote.value.n else 0
  }

  lemma WritesGoOnOrEnd(sys: System, t: nat, f: InFlight, purpose: Purpose, wrote: Option<Socket.Wrote>, ok: bool, pick: nat)
    requires sys.writing == 1 && f.from <= f.to <= |sys.queue| && Bytes(sys.queue, f) != []
    requires Taken(wrote) <= |Bytes(sys.queue, f)| && (!ok ==> sys.hasError)
    ensures var s, rest := WriterWrites(sys, t, f, purpose, wrote, ok, pick), Bytes(sys.queue, f)[Taken(wrote)..];
      && (!s.hasError && rest != [] ==>
            At(s.threads, t).Writing? && At(s.threads, t).purpose == purpose && Bytes(s.queue, At(s.threads, t).rest) == rest)
      && (!s.hasError && rest == [] ==> !At(s.threads, t).Writing? && s.written == s.request)
  {
    match wrote
    case Some(w) =>
      BehindBytes(sys.queue, f, Taken(wrote));
      LoopGoesOnOrEnds(Left(Writable(sys, f, w).0, t), t, Writable(sys, f, w).1, purpose, Writable(sys, f, w).2, pick);
    case None =>
      LoopGoesOnOrEnds(Left(sys, t), t, f, purpose, ok, pick);
  }

  lemma LoopGoesOnOrEnds(sys: System, t: nat, f: InFlight, purpose: Purpose, ret: bool, pick: nat)
    requires sys.writing == 0 && At(sys.threads, t) == Idle
    ensures var s := WriteLoop(sys, t, f, purpose, ret, pick);
      if ret && Bytes(sys.queue, f) != [] then At(s.threads, t) == Writing(f, purpose) && s.queue == sys.queue
      else !At(s.threads, t).Writing? && s.written == s.request
    ensures sys.hasError || !ret ==> WriteLoop(sys, t, f, purpose, ret, pick).hasError || !ret
  {
    if !(ret && Bytes(sys.queue, f) != []) {
      var roused := Become(Finished(sys), t, Idle);
      var s := WakeNext(roused, pick);
      SignalStirs(roused.threads, NextSignal(roused.readers), pick);
      assert Stirred(At(roused.threads, t), At(s.threads, t));
      assert At(s.threads, t) == Idle;
      if purpose.Flushing? {
        AfterFlushLeaves(s, t, ret, purpose.after, pick);
      }
    }
  }

  lemma AfterFlushLeaves(sys: System, t: nat, ret: bool, after: Then, pick: nat)
    ensures var s := AfterFlush(sys, t, ret, after, pick);
      !At(s.threads, t).Writing? && s.written == sys.written && s.request == sys.request
  {
    if after.ReplyTo? && ret {
      var linked := sys.(readers := Link(sys.readers, Reader(after.n, t)));
      var left := Become(Asks(linked, Some(t), after.n).(readers := Unlink(linked.readers, Reader(after.n, t))), t, Idle);
      MoveNudges(linked, left, t, Idle, pick);
    } else {
      MoveNudges(sys, Become(sys, t, Idle), t, Idle, pick);
    }
  }
}
