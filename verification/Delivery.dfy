/**
 * Over whole runs the client hands the application exactly what the Router
 * would: the same answer to every poll and the same event to every request for
 * one, in every interleaving of calls, server and reader.
 */
module Delivery {
  import opened Sequence
  import opened Packets
  import opened Inbound
  import Router
  import opened Refinement
  import opened Protocol

  /** What a step means to the router; which requests get a sync is the client's own affair. */
  function Seen(sys: System, a: Action): Router.Action {
    match a
    case SendRequest(isVoid, flags, _) => Router.Issued(NeedsSync(sys.client, sys.newest, isVoid), flags)
    case ReadPacket =>
      if sys.taken < |sys.stream| then Router.Arrived(sys.stream[sys.taken].n, sys.stream[sys.taken].p) else Router.Idle
    case PollReply(n) => Router.Polling(n)
    case DiscardReply(n) => Router.Discarding(n)
    case PollEvent => Router.Taking
    case _ => Router.Idle
  }

  function SeenRun(sys: System, acts: seq<Action>): seq<Router.Action>
    decreases |acts|
  {
    if acts == [] then [] else [Seen(sys, acts[0])] + SeenRun(Next(sys, acts[0]), acts[1..])
  }

  /** What the application gets back from a step of the client. */
  function Output(sys: System, a: Action): Router.Output {
    match a
    case PollReply(n) => Router.Answer(Poll(sys.client, Cookie(n)).1)
    case PollEvent => Router.Taken(TakeEvent(sys.client).1)
    case _ => Router.Quiet
  }

  function Outputs(sys: System, acts: seq<Action>): seq<Router.Output>
    decreases |acts|
  {
    if acts == [] then [] else [Output(sys, acts[0])] + Outputs(Next(sys, acts[0]), acts[1..])
  }

  /** The application never uses a cookie, or leaves a reply, 2^31 requests behind. */
  ghost predicate Timely(r: Router.Router, acts: seq<Router.Action>)
    decreases |acts|
  {
    && InWindow(r)
    && (acts != [] ==>
          && (acts[0].Polling? || acts[0].Discarding? ==> r.issued - acts[0].n < TWO31)
          && Timely(Router.Next(r, acts[0]), acts[1..]))
  }

  lemma {:induction false} SeenAppends(sys: System, a: seq<Action>, b: seq<Action>)
    ensures SeenRun(sys, a + b) == SeenRun(sys, a) + SeenRun(Run(sys, a), b)
    ensures Outputs(sys, a + b) == Outputs(sys, a) + Outputs(Run(sys, a), b)
    ensures |SeenRun(sys, a)| == |Outputs(sys, a)| == |a|
    decreases |a|
  {
    if a == [] {
      assert a + b == b;
    } else {
      assert (a + b)[0] == a[0] && (a + b)[1..] == a[1..] + b;
      SeenAppends(Next(sys, a[0]), a[1..], b);
    }
  }

  lemma {:induction false} TimelyAppends(r: Router.Router, a: seq<Router.Action>, b: seq<Router.Action>)
    ensures Router.Run(r, a + b) == Router.Run(Router.Run(r, a), b)
    ensures Timely(r, a + b) <==> Timely(r, a) && Timely(Router.Run(r, a), b)
    decreases |a|
  {
    if a == [] {
      assert a + b == b;
    } else {
      assert (a + b)[0] == a[0] && (a + b)[1..] == a[1..] + b;
      TimelyAppends(Router.Next(r, a[0]), a[1..], b);
    }
  }

  ghost predicate InStep(sys: System, r: Router.Router) {
    && Invariant(sys)
    && r.issued == sys.newest
    && Simulates(sys.client, r)
    && (forall n :: n in r.failed ==> Failed(sys.stream[..sys.taken], n))
  }

  lemma FailedGrows(stream: seq<Sent>, more: seq<Sent>, n: nat)
    requires Failed(stream, n)
    ensures Failed(stream + more, n)
  {
    var x :| x in stream && x.n == n && x.p.IsError();
    assert x in stream + more;
  }

  /** The next packet is one the refinement covers. */
  lemma NextMayArrive(sys: System, r: Router.Router)
    requires InStep(sys, r) && sys.taken < |sys.stream|
    ensures MayArrive(r, sys.stream[sys.taken].n, sys.stream[sys.taken].p)
  {
    assert Numbered(sys.stream, sys.taken);
    LastRead(sys.stream, sys.taken);
    LastRead(sys.stream, sys.taken + 1);
  }

  lemma FailuresSeen(stream: seq<Sent>, taken: nat, failed: set<nat>)
    requires taken < |stream| && forall n :: n in failed ==> Failed(stream[..taken], n)
    ensures var failed' := if stream[taken].p.IsError() then failed + {stream[taken].n} else failed;
      forall n :: n in failed' ==> Failed(stream[..taken + 1], n)
  {
    var x := stream[taken];
    assert stream[..taken + 1] == stream[..taken] + [x];
    forall n | n in failed ensures Failed(stream[..taken + 1], n) {
      FailedGrows(stream[..taken], [x], n);
    }
    assert x in stream[..taken + 1];
  }

  lemma ArriveFacts(r: Router.Router, n: nat, p: Packet)
    ensures Router.Arrive(r, n, p).issued == r.issued
    ensures Router.Arrive(r, n, p).failed == if p.IsError() then r.failed + {n} else r.failed
  {
  }

  lemma ReadInStep(sys: System, r: Router.Router)
    requires InStep(sys, r) && InWindow(r) && sys.taken < |sys.stream|
    ensures InStep(Next(sys, ReadPacket), Router.Next(r, Seen(sys, ReadPacket)))
  {
    var x := sys.stream[sys.taken];
    NextMayArrive(sys, r);
    ReceiveSimulates(sys.client, r, x.n, x.p);
    ReadKeeps(sys);
    FailuresSeen(sys.stream, sys.taken, r.failed);
    ArriveFacts(r, x.n, x.p);
  }

  lemma SendInStep(sys: System, r: Router.Router, isVoid: bool, flags: Flags, flushes: bool)
    requires InStep(sys, r) && sys.newest + 2 < TWO63
    ensures var a := SendRequest(isVoid, flags, flushes);
      InStep(Next(sys, a), Router.Next(r, Seen(sys, a)))
  {
    SendKeeps(sys, isVoid, flags, flushes);
    IssueSimulates(sys.client, r, isVoid, flags);
  }

  lemma ServeInStep(sys: System, r: Router.Router, x: Sent)
    requires InStep(sys, r) && MayEmit(sys, x)
    ensures InStep(Next(sys, ServerSends(x)), r)
  {
    EmitKeeps(sys, x);
    assert (sys.stream + [x])[..sys.taken] == sys.stream[..sys.taken];
  }

  lemma PollInStep(sys: System, r: Router.Router, n: nat)
    requires InStep(sys, r) && InWindow(r) && Legal(sys, PollReply(n)) && r.issued - n < TWO31
    ensures InStep(Next(sys, PollReply(n)), Router.Next(r, Router.Polling(n)))
    ensures Router.Answer(Poll(sys.client, Cookie(n)).1) == Router.Result(r, Router.Polling(n))
  {
    StepKeeps(sys, PollReply(n));
    PollSimulates(sys.client, r, n);
  }

  lemma DiscardInStep(sys: System, r: Router.Router, n: nat)
    requires InStep(sys, r) && InWindow(r) && Legal(sys, DiscardReply(n)) && r.issued - n < TWO31
    ensures InStep(Next(sys, DiscardReply(n)), Router.Next(r, Router.Discarding(n)))
  {
    StepKeeps(sys, DiscardReply(n));
    DiscardSimulates(sys.client, r, n);
  }

  lemma TakeInStep(sys: System, r: Router.Router)
    requires InStep(sys, r)
    ensures InStep(Next(sys, PollEvent), Router.Next(r, Router.Taking))
    ensures Router.Taken(TakeEvent(sys.client).1) == Router.Result(r, Router.Taking)
  {
    StepKeeps(sys, PollEvent);
    TakeSimulates(sys.client, r);
  }

  lemma StepInStep(sys: System, r: Router.Router, a: Action)
    requires InStep(sys, r) && Legal(sys, a) && InWindow(r)
    requires a.PollReply? || a.DiscardReply? ==> r.issued - a.n < TWO31
    ensures InStep(Next(sys, a), Router.Next(r, Seen(sys, a)))
    ensures Output(sys, a) == Router.Result(r, Seen(sys, a))
  {
    match a
    case SendRequest(isVoid, flags, flushes) => SendInStep(sys, r, isVoid, flags, flushes);
    case ServerSends(x) => ServeInStep(sys, r, x);
    case ReadPacket => ReadInStep(sys, r);
    case PollReply(n) => PollInStep(sys, r, n);
    case DiscardReply(n) => DiscardInStep(sys, r, n);
    case PollEvent => TakeInStep(sys, r);
    case FlushTo(_) => StepKeeps(sys, a);
  }

  lemma {:induction false} RunInStep(sys: System, r: Router.Router, acts: seq<Action>)
    requires InStep(sys, r) && LegalRun(sys, acts) && Timely(r, SeenRun(sys, acts))
    ensures Outputs(sys, acts) == Router.Results(r, SeenRun(sys, acts))
    ensures InStep(Run(sys, acts), Router.Run(r, SeenRun(sys, acts)))
    decreases |acts|
  {
    if acts != [] {
      var seen := SeenRun(sys, acts);
      var a, rest := acts[0], SeenRun(Next(sys, acts[0]), acts[1..]);
      assert seen[0] == Seen(sys, a) && seen[1..] == rest;
      StepInStep(sys, r, a);
      RunInStep(Next(sys, a), Router.Next(r, Seen(sys, a)), acts[1..]);
    }
  }

  /** The client is observably the router. */
  lemma ClientIsRouter(acts: seq<Action>)
    requires LegalRun(Protocol.START, acts) && Timely(Router.START, SeenRun(Protocol.START, acts))
    ensures Outputs(Protocol.START, acts) == Router.Results(Router.START, SeenRun(Protocol.START, acts))
  {
    assert Simulates(INITIAL, Router.START);
    assert InStep(Protocol.START, Router.START);
    RunInStep(Protocol.START, Router.START, acts);
  }
}
