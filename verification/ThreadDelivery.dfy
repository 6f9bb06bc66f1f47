/**
 * What threads are handed: as long as the connection works, what any number of
 * threads do together with a server is a run of Protocol, and each reply and
 * event a thread is given is the one that run hands out.
 */
module ThreadDelivery {
  import opened Wrappers
  import opened Sequence
  import opened Packets
  import opened Inbound
  import Router
  import Protocol
  import Delivery
  import ClientGuarantees
  import opened Threads
  import opened ThreadSafety
  import Readers
  import Socket

  // ----- the trace explains the state -----

  /** The part of the state that a trace determines. */
  datatype Client = Client(inb: Inbound, request: nat, written: nat)

  function View(sys: System): Client {
    Client(sys.inb, sys.request, sys.written)
  }

  function After(c: Client, h: Happening): Client {
    match h
    case Sent(isVoid, flags) => Client(Issue(c.inb, c.request, isVoid, flags), Number(c.inb, c.request, isVoid), c.written)
    case Read(p) => c.(inb := Receive(c.inb, p))
    case Asked(_, n, _) => c.(inb := Poll(c.inb, Cookie(n)).0)
    case Took(_, _) => c.(inb := TakeEvent(c.inb).0)
    case Dropped(n) => c.(inb := Discard(c.inb, c.request, Cookie(n)))
    case Wrote(to) => c.(written := to)
  }

  /** Threads are handed what poll_for_reply and get_event find, and name requests that have been issued. */
  ghost predicate Happens(c: Client, h: Happening) {
    match h
    case Sent(_, _) => c.request + 2 < TWO63
    case Asked(_, n, answer) => Cookie(n) != 0 && n <= c.request && answer == Poll(c.inb, Cookie(n)).1
    case Took(_, event) => TakeEvent(c.inb).1 == Some(event)
    case Dropped(n) => Cookie(n) != 0 && n <= c.request
    case Wrote(to) => to == c.request
    case Read(_) => true
  }

  ghost predicate AllHappen(c: Client, hs: seq<Happening>)
    decreases |hs|
  {
    hs == [] || (Happens(c, hs[0]) && AllHappen(After(c, hs[0]), hs[1..]))
  }

  function AfterAll(c: Client, hs: seq<Happening>): Client
    decreases |hs|
  {
    if hs == [] then c else AfterAll(After(c, hs[0]), hs[1..])
  }

  lemma {:induction false} HappenAppends(c: Client, a: seq<Happening>, b: seq<Happening>)
    ensures AfterAll(c, a + b) == AfterAll(AfterAll(c, a), b)
    ensures AllHappen(c, a + b) <==> AllHappen(c, a) && AllHappen(AfterAll(c, a), b)
    decreases |a|
  {
    if a == [] {
      assert a + b == b;
    } else {
      assert (a + b)[0] == a[0] && (a + b)[1..] == a[1..] + b;
      HappenAppends(After(c, a[0]), a[1..], b);
    }
  }

  /** What has been added to the trace. */
  function Since(sys: System, s: System): seq<Happening>
    requires sys.trace <= s.trace
  {
    s.trace[|sys.trace|..]
  }

  /** The connection has failed, or the longer trace leads from the one state to the other. */
  ghost predicate Explained(sys: System, s: System) {
    && (sys.hasError ==> s.hasError)
    && (!s.hasError ==>
          sys.trace <= s.trace && AllHappen(View(sys), Since(sys, s)) && AfterAll(View(sys), Since(sys, s)) == View(s))
  }

  lemma Still(sys: System, s: System)
    requires s.trace == sys.trace && View(s) == View(sys) && (sys.hasError ==> s.hasError)
    ensures Explained(sys, s)
  {
    assert Since(sys, s) == [];
  }

  lemma OneThing(sys: System, s: System, h: Happening)
    requires s.trace == sys.trace + [h] && Happens(View(sys), h) && View(s) == After(View(sys), h) && s.hasError == sys.hasError
    ensures Explained(sys, s)
  {
    assert Since(sys, s) == [h] && [h][1..] == [];
  }

  lemma ThenExplained(a: System, b: System, c: System)
    requires Explained(a, b) && Explained(b, c)
    ensures Explained(a, c)
  {
    if !c.hasError {
      HappenAppends(View(a), Since(a, b), Since(b, c));
      assert Since(a, c) == Since(a, b) + Since(b, c);
    }
  }

  // ----- reading -----

  lemma {:induction false} ReadPacketsExplained(sys: System, arrivals: seq<Arrival>)
    ensures Explained(sys, ReadPackets(sys, arrivals))
    decreases |arrivals|
  {
    if arrivals == [] {
      Still(sys, sys);
    } else {
      var s := ReadPacket(sys, arrivals[0]);
      OneThing(sys, s, Read(arrivals[0].p));
      ReadPacketsExplained(s, arrivals[1..]);
      ThenExplained(sys, s, ReadPackets(s, arrivals[1..]));
    }
  }

  lemma InReadExplained(sys: System, input: Input)
    ensures Explained(sys, InRead(sys, input).0)
  {
    ReadPacketsExplained(sys, input.arrivals);
  }

  lemma ReadableExplained(sys: System, o: Outcome)
    ensures Explained(sys, Readable(sys, o).0)
  {
    if o.Ready? && o.input.Some? {
      InReadExplained(sys, o.input.value);
    } else {
      Still(sys, Readable(sys, o).0);
    }
  }

  // ----- waiting -----

  lemma AsksExplained(sys: System, who: Option<nat>, n: nat)
    requires n <= sys.request
    ensures Explained(sys, Asks(sys, who, n))
  {
    if Cookie(n) == 0 {
      Still(sys, sys);
    } else {
      OneThing(sys, Asks(sys, who, n), Asked(who, n, Poll(sys.inb, Cookie(n)).1));
    }
  }

  lemma TakesExplained(sys: System, who: Option<nat>)
    ensures Explained(sys, Takes(sys, who))
  {
    if sys.inb.events == [] {
      Still(sys, sys);
    } else {
      OneThing(sys, Takes(sys, who), Took(who, sys.inb.events[0]));
    }
  }

  lemma ReplyLoopExplained(sys: System, t: nat, n: nat, pick: nat)
    requires n <= sys.request
    ensures Explained(sys, ReplyLoop(sys, t, n, pick))
  {
    var s := Asks(sys, Some(t), n);
    AsksExplained(sys, Some(t), n);
    Still(s, ReplyLoop(sys, t, n, pick));
    ThenExplained(sys, s, ReplyLoop(sys, t, n, pick));
  }

  lemma EventLoopExplained(sys: System, t: nat, pick: nat)
    ensures Explained(sys, EventLoop(sys, t, pick))
  {
    var s := Takes(sys, Some(t));
    TakesExplained(sys, Some(t));
    Still(s, EventLoop(sys, t, pick));
    ThenExplained(sys, s, EventLoop(sys, t, pick));
  }

  lemma AfterFlushExplained(sys: System, t: nat, ret: bool, after: Then, pick: nat)
    requires after.ReplyTo? ==> after.n <= sys.request
    ensures Explained(sys, AfterFlush(sys, t, ret, after, pick))
  {
    if after.ReplyTo? && ret {
      var s := sys.(readers := Readers.Link(sys.readers, Readers.Reader(after.n, t)));
      Still(sys, s);
      ReplyLoopExplained(s, t, after.n, pick);
      ThenExplained(sys, s, ReplyLoop(s, t, after.n, pick));
    } else {
      Still(sys, AfterFlush(sys, t, ret, after, pick));
    }
  }

  // ----- writing -----

  lemma FlushExplained(sys: System, t: nat, to: nat, after: Then, pick: nat)
    requires after.ReplyTo? ==> after.n <= sys.request
    ensures Explained(sys, FlushTo(sys, t, to, after, pick)) && Explained(sys, FlushLoop(sys, t, to, after, pick))
  {
    AfterFlushExplained(sys, t, true, after, pick);
    if sys.writing > 0 {
      Still(sys, FlushLoop(sys, t, to, after, pick));
    }
    if sys.written < to && sys.queueLen > 0 {
      Still(sys, FlushTo(sys, t, to, after, pick));
    }
  }

  lemma FinishExplained(sys: System, t: nat, ret: bool, purpose: Purpose, pick: nat)
    requires purpose.Flushing? && purpose.after.ReplyTo? ==> purpose.after.n <= sys.request
    ensures Explained(sys, FinishWrite(sys, t, ret, purpose, pick))
  {
    var s := Finished(sys);
    var s' := WakeNext(Become(s, t, Idle), pick);
    OneThing(sys, s, Wrote(sys.request));
    Still(s, s');
    match purpose {
      case Sending => Still(s', FinishWrite(sys, t, ret, purpose, pick));
      case Flushing(after) => AfterFlushExplained(s', t, ret, after, pick);
    }
    ThenExplained(s, s', FinishWrite(sys, t, ret, purpose, pick));
    ThenExplained(sys, s, FinishWrite(sys, t, ret, purpose, pick));
  }

  lemma WriteLoopExplained(sys: System, t: nat, f: InFlight, purpose: Purpose, ret: bool, pick: nat)
    requires purpose.Flushing? && purpose.after.ReplyTo? ==> purpose.after.n <= sys.request
    ensures Explained(sys, WriteLoop(sys, t, f, purpose, ret, pick))
  {
    if ret && Bytes(sys.queue, f) != [] {
      Still(sys, WriteLoop(sys, t, f, purpose, ret, pick));
    } else {
      FinishExplained(sys, t, ret, purpose, pick);
    }
  }

  lemma WriterExplained(sys: System, t: nat, f: InFlight, purpose: Purpose, o: Outcome, pick: nat)
    requires purpose.Flushing? && purpose.after.ReplyTo? ==> purpose.after.n <= sys.request
    ensures Explained(sys, WriterRuns(sys, t, f, purpose, o, pick))
  {
    var s, ok := Readable(sys, o).0, Readable(sys, o).1;
    ReadableExplained(sys, o);
    ReadableOnlyReads(sys, o);
    WritesExplained(s, t, f, purpose, WroteOf(sys, o), ok, pick);
    ThenExplained(sys, s, WriterRuns(sys, t, f, purpose, o, pick));
  }

  lemma WritesExplained(sys: System, t: nat, f: InFlight, purpose: Purpose, wrote: Option<Socket.Wrote>, ok: bool, pick: nat)
    requires purpose.Flushing? && purpose.after.ReplyTo? ==> purpose.after.n <= sys.request
    ensures Explained(sys, WriterWrites(sys, t, f, purpose, wrote, ok, pick))
  {
    var result := WriterWrites(sys, t, f, purpose, wrote, ok, pick);
    match wrote
    case Some(w) =>
      var s := Left(Writable(sys, f, w).0, t);
      Still(sys, s);
      WriteLoopExplained(s, t, Writable(sys, f, w).1, purpose, Writable(sys, f, w).2, pick);
      ThenExplained(sys, s, result);
    case None =>
      Still(sys, Left(sys, t));
      WriteLoopExplained(Left(sys, t), t, f, purpose, ok, pick);
      ThenExplained(sys, Left(sys, t), result);
  }

  lemma SendExplained(sys: System, t: nat, call: Call)
    requires call.Send? && sys.request + 2 < TWO63
    ensures Explained(sys, SendLoop(sys, t, call))
  {
    if sys.writing > 0 {
      Still(sys, SendLoop(sys, t, call));
    } else {
      var s := Numbered(sys, call.req, call.isVoid, call.flags);
      OneThing(sys, s, Sent(call.isVoid, call.flags));
      Still(s, SendLoop(sys, t, call));
      ThenExplained(sys, s, SendLoop(sys, t, call));
    }
  }

  // ----- every step -----

  lemma ReaderExplained(sys: System, t: nat, o: Outcome, pick: nat)
    requires Polls(At(sys.threads, t)) && Fine(sys, At(sys.threads, t))
    ensures Explained(sys, LockedStretch(sys, t, o, pick))
  {
    var s, ret := Readable(sys, o).0, Readable(sys, o).1;
    var result := LockedStretch(sys, t, o, pick);
    ReadableExplained(sys, o);
    ReadableOnlyReads(sys, o);
    match At(sys.threads, t)
    case ReplyWait(n, _) =>
      var s1 := Become(s.(reading := s.reading - 1), t, ReplyWait(n, Woken));
      Still(s, s1);
      if ret {
        ReplyLoopExplained(s1, t, n, pick);
      } else {
        Still(s1, result);
      }
      ThenExplained(s, s1, result);
      ThenExplained(sys, s, result);
    case EventWait(_) =>
      var s1 := Become(s.(reading := s.reading - 1), t, EventWait(Woken));
      Still(s, s1);
      if ret {
        EventLoopExplained(s1, t, pick);
      } else {
        Still(s1, result);
      }
      ThenExplained(s, s1, result);
      ThenExplained(sys, s, result);
    case _ =>
  }

  lemma BlockExplained(sys: System, t: nat, o: Outcome, pick: nat)
    requires Invariant(sys) && Roomy(sys)
    ensures Explained(sys, LockedStretch(sys, t, o, pick))
  {
    var pc := At(sys.threads, t);
    assert Fine(sys, pc);
    Still(sys, sys);
    match pc
    case Entering(Send(req, isVoid, flags)) => SendExplained(sys, t, Send(req, isVoid, flags));
    case Entering(Flush) => FlushExplained(sys, t, sys.request, Return, pick);
    case Entering(AwaitReply(n)) => FlushExplained(sys, t, Widen(sys.request, Cookie(n)), ReplyTo(n), pick);
    case Entering(AwaitEvent) => EventLoopExplained(sys, t, pick);
    case SendWait(call, true) => SendExplained(sys, t, call);
    case FlushWait(to, after, true) => FlushExplained(sys, t, to, after, pick);
    case Writing(f, purpose) => WriterExplained(sys, t, f, purpose, o, pick);
    case ReplyWait(n, Woken) => ReplyLoopExplained(sys, t, n, pick);
    case ReplyWait(_, Polling) => ReaderExplained(sys, t, o, pick);
    case EventWait(Woken) => EventLoopExplained(sys, t, pick);
    case EventWait(Polling) => ReaderExplained(sys, t, o, pick);
    case _ =>
  }

  /** An application asks about and discards only requests it has issued. */
  ghost predicate NamesIssued(sys: System, a: Action) {
    a.PollReply? || a.DiscardReply? ==> a.n <= sys.request
  }

  lemma PollEventExplained(sys: System, input: Input)
    ensures Explained(sys, PollsForEvent(sys, input))
  {
    if sys.inb.events != [] {
      TakesExplained(sys, None);
    } else {
      var s := InRead(sys, input).0;
      InReadExplained(sys, input);
      TakesExplained(s, None);
      ThenExplained(sys, s, Takes(s, None));
    }
  }

  /** Whatever a thread does, the trace records what it does to the connection and what it is handed. */
  lemma StepExplained(sys: System, a: Action)
    requires Invariant(sys) && Legal(sys, a) && NamesIssued(sys, a)
    ensures Explained(sys, Next(sys, a))
  {
    match a
    case Start(_, _) => Still(sys, Next(sys, a));
    case Refuse => Still(sys, Next(sys, a));
    case Runs(t, o, pick) => BlockExplained(sys, t, o, pick);
    case WakesUp(_) => Still(sys, Next(sys, a));
    case PollReply(n) => AsksExplained(sys, None, n);
    case DiscardReply(n) =>
      if Cookie(n) == 0 {
        Still(sys, sys);
      } else {
        OneThing(sys, Next(sys, a), Dropped(n));
      }
    case PollEvent(input) => PollEventExplained(sys, input);
  }

  // ----- a trace is a run of Protocol -----

  function Project(h: Happening): Protocol.Action {
    match h
    case Sent(isVoid, flags) => Protocol.SendRequest(isVoid, flags, false)
    case Read(_) => Protocol.ReadPacket
    case Asked(_, n, _) => Protocol.PollReply(n)
    case Took(_, _) => Protocol.PollEvent
    case Dropped(n) => Protocol.DiscardReply(n)
    case Wrote(to) => Protocol.FlushTo(to)
  }

  function Projected(hs: seq<Happening>): (acts: seq<Protocol.Action>)
    ensures |acts| == |hs|
  {
    if hs == [] then [] else [Project(hs[0])] + Projected(hs[1..])
  }

  /** What a thread was handed. */
  function Handed(h: Happening): Router.Output {
    match h
    case Asked(_, _, answer) => Router.Answer(answer)
    case Took(_, event) => Router.Taken(Some(event))
    case _ => Router.Quiet
  }

  function AllHanded(hs: seq<Happening>): (outputs: seq<Router.Output>)
    ensures |outputs| == |hs|
  {
    if hs == [] then [] else [Handed(hs[0])] + AllHanded(hs[1..])
  }

  /** The packets read are the next ones the server has sent. */
  ghost predicate FromServer(stream: seq<Protocol.Sent>, taken: nat, hs: seq<Happening>)
    decreases |hs|
  {
    hs == [] ||
    (if hs[0].Read? then taken < |stream| && stream[taken].p == hs[0].p && FromServer(stream, taken + 1, hs[1..])
     else FromServer(stream, taken, hs[1..]))
  }

  predicate Matches(p: Protocol.System, c: Client) {
    p.client == c.inb && p.newest == c.request && p.written == c.written
  }

  lemma HappeningIsStep(p: Protocol.System, c: Client, h: Happening)
    requires Matches(p, c) && Happens(c, h) && p.written <= p.newest
    requires h.Read? ==> p.taken < |p.stream| && p.stream[p.taken].p == h.p
    ensures var next := Protocol.Next(p, Project(h));
      && Protocol.Legal(p, Project(h)) && Matches(next, After(c, h))
      && next.stream == p.stream && next.taken == p.taken + (if h.Read? then 1 else 0)
      && next.written <= next.newest
      && Delivery.Output(p, Project(h)) == Handed(h)
  {
  }

  lemma {:induction false} TraceIsRun(p: Protocol.System, c: Client, hs: seq<Happening>)
    requires Matches(p, c) && AllHappen(c, hs) && FromServer(p.stream, p.taken, hs) && p.written <= p.newest
    ensures var acts := Projected(hs);
      && Protocol.LegalRun(p, acts) && Matches(Protocol.Run(p, acts), AfterAll(c, hs))
      && Protocol.Run(p, acts).written <= Protocol.Run(p, acts).newest
      && Delivery.Outputs(p, acts) == AllHanded(hs)
    decreases |hs|
  {
    if hs != [] {
      HappeningIsStep(p, c, hs[0]);
      TraceIsRun(Protocol.Next(p, Project(hs[0])), After(c, hs[0]), hs[1..]);
      assert Projected(hs)[0] == Project(hs[0]) && Projected(hs)[1..] == Projected(hs[1..]);
    }
  }

  // ----- threads and a server together -----

  datatype Joint = ByThread(a: Action) | ByServer(x: Protocol.Sent)

  /** Both sides' states: the threads', and the run of Protocol that goes with it. */
  datatype Pair = Pair(t: System, p: Protocol.System)

  /** What a joint step is in Protocol. */
  ghost function Acts(pair: Pair, j: Joint): seq<Protocol.Action> {
    match j
    case ByThread(a) =>
      var s := Next(pair.t, a);
      if pair.t.trace <= s.trace then Projected(Since(pair.t, s)) else []
    case ByServer(x) => [Protocol.ServerSends(x)]
  }

  ghost function NextPair(pair: Pair, j: Joint): Pair {
    Pair(if j.ByThread? then Next(pair.t, j.a) else pair.t, Protocol.Run(pair.p, Acts(pair, j)))
  }

  /** The server keeps to the protocol, threads read what it has sent, and the connection has not failed. */
  ghost predicate LegalPair(pair: Pair, j: Joint) {
    match j
    case ByThread(a) =>
      var s := Next(pair.t, a);
      && Legal(pair.t, a) && NamesIssued(pair.t, a) && !s.hasError
      && (pair.t.trace <= s.trace ==> FromServer(pair.p.stream, pair.p.taken, Since(pair.t, s)))
    case ByServer(x) => Protocol.MayEmit(pair.p, x)
  }

  ghost predicate LegalPairs(pair: Pair, js: seq<Joint>)
    decreases |js|
  {
    js == [] || (LegalPair(pair, js[0]) && LegalPairs(NextPair(pair, js[0]), js[1..]))
  }

  ghost function RunPairs(pair: Pair, js: seq<Joint>): Pair
    decreases |js|
  {
    if js == [] then pair else RunPairs(NextPair(pair, js[0]), js[1..])
  }

  ghost function AllActs(pair: Pair, js: seq<Joint>): seq<Protocol.Action>
    decreases |js|
  {
    if js == [] then [] else Acts(pair, js[0]) + AllActs(NextPair(pair, js[0]), js[1..])
  }

  ghost predicate Together(pair: Pair) {
    Invariant(pair.t) && !pair.t.hasError && Matches(pair.p, View(pair.t)) && pair.p.written <= pair.p.newest
  }

  /** The outputs of all actions but the server's. */
  function OfThreads(acts: seq<Protocol.Action>, outputs: seq<Router.Output>): seq<Router.Output>
    requires |acts| == |outputs|
  {
    if acts == [] then [] else (if acts[0].ServerSends? then [] else [outputs[0]]) + OfThreads(acts[1..], outputs[1..])
  }

  lemma {:induction false} OfThreadsAppends(a: seq<Protocol.Action>, x: seq<Router.Output>, b: seq<Protocol.Action>, y: seq<Router.Output>)
    requires |a| == |x| && |b| == |y|
    ensures OfThreads(a + b, x + y) == OfThreads(a, x) + OfThreads(b, y)
  {
    if a == [] {
      assert a + b == b && x + y == y;
    } else {
      assert (a + b)[1..] == a[1..] + b && (x + y)[1..] == x[1..] + y;
      OfThreadsAppends(a[1..], x[1..], b, y);
    }
  }

  lemma {:induction false} NoServer(hs: seq<Happening>)
    ensures OfThreads(Projected(hs), AllHanded(hs)) == AllHanded(hs)
  {
    if hs != [] {
      NoServer(hs[1..]);
      assert Projected(hs)[1..] == Projected(hs[1..]) && AllHanded(hs)[1..] == AllHanded(hs[1..]);
    }
  }

  lemma {:induction false} HandedAppends(a: seq<Happening>, b: seq<Happening>)
    ensures AllHanded(a + b) == AllHanded(a) + AllHanded(b)
  {
    if a == [] {
      assert a + b == b;
    } else {
      assert (a + b)[1..] == a[1..] + b;
      HandedAppends(a[1..], b);
    }
  }

  /** The actions lead from one pair to the other and hand out what has been added to the trace. */
  ghost predicate Leads(pair: Pair, acts: seq<Protocol.Action>, final: Pair) {
    && Protocol.LegalRun(pair.p, acts) && final.p == Protocol.Run(pair.p, acts)
    && pair.t.trace <= final.t.trace && |Delivery.Outputs(pair.p, acts)| == |acts|
    && OfThreads(acts, Delivery.Outputs(pair.p, acts)) == AllHanded(Since(pair.t, final.t))
  }

  lemma SinceTwice(a: System, b: System, c: System)
    requires a.trace <= b.trace <= c.trace
    ensures Since(a, c) == Since(a, b) + Since(b, c)
  {
  }

  lemma LeadsOn(pair: Pair, a: seq<Protocol.Action>, mid: Pair, b: seq<Protocol.Action>, final: Pair)
    requires Leads(pair, a, mid) && Leads(mid, b, final)
    ensures Leads(pair, a + b, final)
  {
    Protocol.RunAppends(pair.p, a, b);
    Delivery.SeenAppends(pair.p, a, b);
    OfThreadsAppends(a, Delivery.Outputs(pair.p, a), b, Delivery.Outputs(mid.p, b));
    SinceTwice(pair.t, mid.t, final.t);
    HandedAppends(Since(pair.t, mid.t), Since(mid.t, final.t));
  }

  lemma ServerStep(pair: Pair, x: Protocol.Sent)
    requires Together(pair) && Protocol.MayEmit(pair.p, x)
    ensures var next, acts := NextPair(pair, ByServer(x)), Acts(pair, ByServer(x));
      Together(next) && Leads(pair, acts, next) && Since(pair.t, next.t) == []
  {
    var act := Protocol.ServerSends(x);
    var acts := [act];
    assert acts[0] == act && acts[1..] == [] && Protocol.Run(pair.p, acts) == Protocol.Next(pair.p, act);
    assert Since(pair.t, pair.t) == [];
  }

  /** A joint step is a run of Protocol that hands out what the trace says. */
  lemma PairStep(pair: Pair, j: Joint)
    requires Together(pair) && LegalPair(pair, j)
    ensures Together(NextPair(pair, j)) && Leads(pair, Acts(pair, j), NextPair(pair, j))
  {
    match j
    case ByThread(a) =>
      var s := Next(pair.t, a);
      StepKeeps(pair.t, a);
      StepExplained(pair.t, a);
      TraceIsRun(pair.p, View(pair.t), Since(pair.t, s));
      NoServer(Since(pair.t, s));
    case ByServer(x) => ServerStep(pair, x);
  }

  /** So is a joint run. */
  lemma {:induction false} PairsRun(pair: Pair, js: seq<Joint>)
    requires Together(pair) && LegalPairs(pair, js)
    ensures Together(RunPairs(pair, js)) && Leads(pair, AllActs(pair, js), RunPairs(pair, js))
    decreases |js|
  {
    if js == [] {
      assert Since(pair.t, pair.t) == [];
    } else {
      var next := NextPair(pair, js[0]);
      PairStep(pair, js[0]);
      PairsRun(next, js[1..]);
      LeadsOn(pair, Acts(pair, js[0]), next, AllActs(next, js[1..]), RunPairs(pair, js));
    }
  }

  // ----- what threads are handed -----

  /** A connection just set up, and a server that has sent nothing. */
  ghost predicate Beginning(pair: Pair) {
    Fresh(pair.t) && pair.p == Protocol.START
  }

  /** The joint run stays within what cookies can express. */
  ghost predicate ProperPairs(pair: Pair, js: seq<Joint>) {
    Beginning(pair) && LegalPairs(pair, js) && ClientGuarantees.Proper(AllActs(pair, js))
  }

  lemma BeginsTogether(pair: Pair)
    requires Beginning(pair)
    ensures Together(pair)
  {
    RunFromStart(pair.t, []);
  }

  /**
   * However threads, signals, reads, writes and the server interleave, it is a
   * run of Protocol, and every thread is handed, in order, what that run and
   * therefore the router hand out.
   */
  lemma ThreadsAreHanded(pair: Pair, js: seq<Joint>)
    requires ProperPairs(pair, js)
    ensures var final, acts := RunPairs(pair, js), AllActs(pair, js);
      var results := Router.Results(Router.START, Delivery.SeenRun(Protocol.START, acts));
      && Protocol.LegalRun(Protocol.START, acts) && final.p == Protocol.Run(Protocol.START, acts)
      && final.t.inb == final.p.client && final.t.request == final.p.newest && final.t.written == final.p.written
      && |results| == |acts|
      && AllHanded(final.t.trace) == OfThreads(acts, results)
  {
    var final, acts := RunPairs(pair, js), AllActs(pair, js);
    BeginsTogether(pair);
    PairsRun(pair, js);
    ClientGuarantees.ProperRun(acts);
    assert Since(pair.t, final.t) == final.t.trace;
  }

  /** The packets threads have been handed for request k. */
  function Given(hs: seq<Happening>, k: nat): seq<Packet> {
    if hs == [] then [] else
      (match hs[0]
       case Asked(_, n, Done(Some(p))) => if n == k then [p] else []
       case _ => []) + Given(hs[1..], k)
  }

  lemma {:induction false} GivenAppends(a: seq<Happening>, b: seq<Happening>, k: nat)
    ensures Given(a + b, k) == Given(a, k) + Given(b, k)
  {
    if a == [] {
      assert a + b == b;
    } else {
      assert (a + b)[1..] == a[1..] + b;
      GivenAppends(a[1..], b, k);
    }
  }

  lemma {:induction false} GivenIsHanded(hs: seq<Happening>, k: nat)
    ensures ClientGuarantees.AnswersHanded(Projected(hs), AllHanded(hs), k) == Given(hs, k)
  {
    if hs != [] {
      GivenIsHanded(hs[1..], k);
      assert Projected(hs)[1..] == Projected(hs[1..]) && AllHanded(hs)[1..] == AllHanded(hs[1..]);
    }
  }

  lemma {:induction false} AnswersAppend(a: seq<Protocol.Action>, x: seq<Router.Output>, b: seq<Protocol.Action>, y: seq<Router.Output>, k: nat)
    requires |a| == |x| && |b| == |y|
    ensures ClientGuarantees.AnswersHanded(a + b, x + y, k)
      == ClientGuarantees.AnswersHanded(a, x, k) + ClientGuarantees.AnswersHanded(b, y, k)
  {
    if a == [] {
      assert a + b == b && x + y == y;
    } else {
      assert (a + b)[1..] == a[1..] + b && (x + y)[1..] == x[1..] + y;
      AnswersAppend(a[1..], x[1..], b, y, k);
    }
  }

  /** The answers to request k among the outputs are those the trace says threads were given. */
  ghost predicate Gives(pair: Pair, acts: seq<Protocol.Action>, final: Pair, k: nat) {
    Leads(pair, acts, final)
    && ClientGuarantees.AnswersHanded(acts, Delivery.Outputs(pair.p, acts), k) == Given(Since(pair.t, final.t), k)
  }

  lemma GivesOn(pair: Pair, a: seq<Protocol.Action>, mid: Pair, b: seq<Protocol.Action>, final: Pair, k: nat)
    requires Gives(pair, a, mid, k) && Gives(mid, b, final, k)
    ensures Gives(pair, a + b, final, k)
  {
    LeadsOn(pair, a, mid, b, final);
    Delivery.SeenAppends(pair.p, a, b);
    AnswersAppend(a, Delivery.Outputs(pair.p, a), b, Delivery.Outputs(mid.p, b), k);
    SinceTwice(pair.t, mid.t, final.t);
    GivenAppends(Since(pair.t, mid.t), Since(mid.t, final.t), k);
  }

  lemma PairGives(pair: Pair, j: Joint, k: nat)
    requires Together(pair) && LegalPair(pair, j)
    ensures Gives(pair, Acts(pair, j), NextPair(pair, j), k)
  {
    PairStep(pair, j);
    match j
    case ByThread(a) =>
      var s := Next(pair.t, a);
      StepExplained(pair.t, a);
      TraceIsRun(pair.p, View(pair.t), Since(pair.t, s));
      GivenIsHanded(Since(pair.t, s), k);
    case ByServer(x) =>
      ServerStep(pair, x);
      var acts := [Protocol.ServerSends(x)];
      assert acts[1..] == [];
  }

  lemma {:induction false} PairsGive(pair: Pair, js: seq<Joint>, k: nat)
    requires Together(pair) && LegalPairs(pair, js)
    ensures Gives(pair, AllActs(pair, js), RunPairs(pair, js), k)
    decreases |js|
  {
    if js == [] {
      assert Since(pair.t, pair.t) == [];
    } else {
      var next := NextPair(pair, js[0]);
      PairStep(pair, js[0]);
      PairGives(pair, js[0], k);
      PairsGive(next, js[1..], k);
      GivesOn(pair, Acts(pair, js[0]), next, AllActs(next, js[1..]), RunPairs(pair, js), k);
    }
  }

  /**
   * The packets all threads together have been handed for a request, followed
   * by those stored for it, are its replies (and its errors, if it was checked)
   * read so far, in the order the server sent them: none is lost, given to two
   * threads, or given to a thread that waits for something else.
   */
  lemma ThreadsGetTheirAnswers(pair: Pair, js: seq<Joint>, k: nat)
    requires ProperPairs(pair, js) && Protocol.DiscardReply(k) !in AllActs(pair, js)
    requires var r := ClientGuarantees.After(AllActs(pair, js));
      k <= r.issued < k + TWO31 && !Router.Registration(r, k).discard
    ensures var final, r := RunPairs(pair, js), ClientGuarantees.After(AllActs(pair, js));
      && final.p.taken <= |final.p.stream|
      && Given(final.t.trace, k) + (if k <= final.t.inb.read then ClientGuarantees.Stored(final.t.inb, k) else [])
         == ClientGuarantees.AnswersIn(final.p.stream[..final.p.taken], k, Router.Registration(r, k).checked)
  {
    var final, acts := RunPairs(pair, js), AllActs(pair, js);
    BeginsTogether(pair);
    PairsRun(pair, js);
    PairsGive(pair, js, k);
    ClientGuarantees.AnswersDelivered(acts, k);
    assert Since(pair.t, final.t) == final.t.trace;
  }

  /**
   * A thread that looks for its reply leaves the wait with just that answer if
   * there is one, or without any if there cannot be; otherwise it stays.
   */
  lemma WaiterIsHanded(sys: System, t: nat, n: nat, pick: nat)
    ensures var s, answer := ReplyLoop(sys, t, n, pick), Poll(sys.inb, Cookie(n)).1;
      && (Cookie(n) != 0 ==> s.trace == sys.trace + [Asked(Some(t), n, answer)])
      && (Cookie(n) == 0 ==> s.trace == sys.trace && answer.Done?)
      && (if answer.Done? then At(s.threads, t) == Idle
          else At(s.threads, t) == ReplyWait(n, if sys.reading > 0 then Asleep else Polling))
  {
    var s := Asks(sys, Some(t), n);
    var left := Become(s.(readers := Readers.Unlink(s.readers, Readers.Reader(n, t))), t, Idle);
    SignalStirs(left.threads, Readers.NextSignal(left.readers), pick);
    assert Stirred(At(left.threads, t), At(WakeNext(left, pick).threads, t));
  }
}
