/**
 * xcb_request_check: does the wait for a void request's error always end?
 * It ends when the server owes a packet with a number above the request's;
 * the function syncs when it thinks none is outstanding.
 */
module RequestCheck {
  import opened Sequence
  import opened Packets
  import opened Inbound
  import opened Protocol
  import opened Delivery
  import opened Refinement
  import Router

  /** A poll for request n would not block. */
  predicate Ready(c: Inbound, n: nat) {
    !Poll(c, Cookie(n)).1.Block?
  }

  /** The test with which xcb_request_check decides to send a GetInputFocus first. */
  predicate Syncs(c: Inbound, n: nat) {
    Compare32(Cookie(n), c.expected) >= 0 && Compare32(Cookie(n), c.completed) > 0
  }

  /** The server has been sent a request above n whose answer has not been read. */
  ghost predicate Outstanding(sys: System, n: nat) {
    exists a :: a in sys.owing && n < a <= sys.written && a > sys.client.read
  }

  /** The call is for an issued request near enough for its cookie to be meaningful. */
  ghost predicate Checkable(sys: System, n: nat) {
    Invariant(sys) && 1 <= n <= sys.newest && Cookie(n) != 0 && sys.newest - n < TWO31 && sys.newest - sys.client.completed < TWO31
  }

  lemma Comparisons(sys: System, n: nat)
    requires Checkable(sys, n)
    ensures Compare32(Cookie(n), sys.client.read) == n - sys.client.read
    ensures Compare32(Cookie(n), sys.client.completed) == n - sys.client.completed
    ensures Compare32(Cookie(n), sys.client.expected) == n - sys.client.expected
  {
    Compare32Exact(n, sys.client.read);
    Compare32Exact(n, sys.client.completed);
    Compare32Exact(n, sys.client.expected);
    Compare32Residue(n, sys.client.read, n, sys.client.read, 0, 0);
  }

  lemma ReadyMeans(sys: System, n: nat)
    requires Checkable(sys, n)
    ensures var c := sys.client;
      Ready(c, n) <==> n < c.read || n == c.completed || (n == c.read && c.current != [])
  {
    Comparisons(sys, n);
  }

  /** xcb_request_check syncs exactly if nothing beyond the request has been read or is owed, and the request may still fail. */
  lemma SyncsExactly(sys: System, n: nat)
    requires Checkable(sys, n)
    ensures Syncs(sys.client, n) <==>
      (forall a :: a in sys.owing ==> a <= n) && sys.client.read <= n && sys.client.completed < n
  {
    Comparisons(sys, n);
    if Syncs(sys.client, n) {
      assert sys.client.expected <= n;
    }
  }

  /** The sync branch: once the GetInputFocus is written, its answer is outstanding. */
  lemma SyncIsOutstanding(sys: System, n: nat, flags: Flags)
    requires Checkable(sys, n) && sys.newest + 2 < TWO63
    ensures var sent := Next(sys, SendRequest(false, flags, false));
      Outstanding(Next(sent, FlushTo(sent.newest)), n)
  {
    var sent := Next(sys, SendRequest(false, flags, false));
    IssueCounts(sys.client, sys.newest, false, flags);
    assert sent.newest in sent.owing;
  }

  /** Without the sync, something is outstanding after the flush exactly when a request above n gets written. */
  lemma OutstandingExactly(sys: System, n: nat)
    requires Checkable(sys, n) && !Syncs(sys.client, n) && !Ready(sys.client, n)
    ensures Outstanding(Next(sys, FlushTo(n)), n)
      <==> sys.written < n || exists a :: a in sys.owing && n < a <= sys.written
    ensures sys.written >= sys.client.expected ==> Outstanding(Next(sys, FlushTo(n)), n)
  {
    Comparisons(sys, n);
    ReadyMeans(sys, n);
    assert sys.client.expected > n >= sys.client.read;
    assert sys.client.expected in sys.owing;
  }

  // ----- a server that only does what it owes -----

  /** Requests the server has been sent and still has to answer. */
  ghost function Debts(sys: System): set<nat> {
    set a | a in sys.owing && a <= sys.written && !Answered(sys.stream, a)
  }

  /** The reader reads what has been sent; the server answers what it owes and sends nothing else. */
  ghost predicate Serves(sys: System, a: Action) {
    Legal(sys, a) && (a.ReadPacket? || (a.ServerSends? && a.sent.n in Debts(sys) && a.sent.p.IsAnswer()))
  }

  ghost predicate ServingRun(sys: System, acts: seq<Action>)
    decreases |acts|
  {
    acts == [] || (Serves(sys, acts[0]) && ServingRun(Next(sys, acts[0]), acts[1..]))
  }

  /** How many such steps are left. */
  ghost function StepsLeft(sys: System): nat
    requires sys.taken <= |sys.stream|
  {
    2 * |Debts(sys)| + |sys.stream| - sys.taken
  }

  /** Sending an owed answer settles one debt. */
  lemma AnswerSettles(sys: System, x: Sent)
    requires x.n in Debts(sys) && x.p.IsAnswer()
    ensures Debts(Next(sys, ServerSends(x))) == Debts(sys) - {x.n}
  {
    var next := Next(sys, ServerSends(x));
    assert x in next.stream;
    forall k | k in sys.owing ensures Answered(next.stream, k) <==> Answered(sys.stream, k) || k == x.n {
      if Answered(sys.stream, k) {
        var y :| y in sys.stream && y.n == k && y.p.IsAnswer();
        assert y in next.stream;
      }
    }
  }

  lemma ServeCounts(sys: System, a: Action)
    requires Invariant(sys) && Serves(sys, a)
    ensures Invariant(Next(sys, a)) && StepsLeft(Next(sys, a)) == StepsLeft(sys) - 1
  {
    StepKeeps(sys, a);
    if a.ServerSends? {
      AnswerSettles(sys, a.sent);
      assert |Debts(sys) - {a.sent.n}| == |Debts(sys)| - 1;
    } else {
      assert Debts(Next(sys, a)) == Debts(sys);
    }
  }

  lemma {:induction false} LeastOf(s: set<nat>) returns (m: nat)
    requires s != {}
    ensures m in s && forall k :: k in s ==> m <= k
  {
    m :| m in s;
    var rest := s - {m};
    assert forall k :: k in s ==> k == m || k in rest;
    if rest != {} {
      var least := LeastOf(rest);
      m := if least < m then least else m;
    }
  }

  /** Such a server is never stuck before it is done. */
  lemma CanServe(sys: System) returns (a: Action)
    requires Invariant(sys) && StepsLeft(sys) > 0
    ensures Serves(sys, a)
  {
    if sys.taken < |sys.stream| {
      a := ReadPacket;
    } else {
      var m := LeastOf(Debts(sys));
      a := ServerSends(Sent(m, Packet(XCB_REPLY, Low16(m), [])));
      if Failed(sys.stream, m) {
        var x :| x in sys.stream && x.n == m && x.p.IsError();
        assert Answered(sys.stream, m);
        assert false;
      }
      forall k | k in sys.owing && k < m ensures Answered(sys.stream, k) {
        assert k !in Debts(sys);
      }
    }
  }

  /** Once every packet has been read, the last number read is at least any number sent. */
  lemma AllRead(sys: System, y: Sent)
    requires Invariant(sys) && sys.taken == |sys.stream| && y in sys.stream
    ensures y.n <= sys.client.read
  {
    var i :| 0 <= i < |sys.stream| && sys.stream[i] == y;
    LastRead(sys.stream, i + 1);
  }

  lemma {:induction false} ServedAll(sys: System, acts: seq<Action>, a: nat)
    requires Invariant(sys) && ServingRun(sys, acts) && |acts| == StepsLeft(sys)
    requires a in sys.owing && a <= sys.written
    ensures var final := Run(sys, acts);
      Invariant(final) && final.newest == sys.newest && final.client.completed >= sys.client.completed && final.client.read >= a
    decreases |acts|
  {
    if acts == [] {
      assert a !in Debts(sys);
      var y :| y in sys.stream && y.n == a && y.p.IsAnswer();
      AllRead(sys, y);
    } else {
      ServeCounts(sys, acts[0]);
      CountersAdvance(sys, acts[0]);
      ServedAll(Next(sys, acts[0]), acts[1..], a);
    }
  }

  /** While something is outstanding the wait ends, after at most StepsLeft steps. */
  lemma WaitEnds(sys: System, n: nat, acts: seq<Action>)
    requires Checkable(sys, n) && Outstanding(sys, n)
    requires ServingRun(sys, acts) && |acts| == StepsLeft(sys)
    ensures Ready(Run(sys, acts).client, n)
  {
    var a :| a in sys.owing && n < a <= sys.written && a > sys.client.read;
    ServedAll(sys, acts, a);
    ReadyMeans(Run(sys, acts), n);
  }

  /** A packet whose arrival tells that nothing more can come for request n. */
  predicate Tells(x: Sent, n: nat) {
    x.n > n || (x.n == n && x.p.IsError())
  }

  /** Such a packet has been sent and is still to be read. */
  ghost predicate Underway(sys: System, n: nat) {
    exists i :: sys.taken <= i < |sys.stream| && Tells(sys.stream[i], n)
  }

  /** Once the packet that tells has been read, the answer is known, and stays so. */
  lemma {:induction false} ToldInTheEnd(sys: System, n: nat, acts: seq<Action>, i: nat)
    requires Invariant(sys) && ServingRun(sys, acts) && |acts| == StepsLeft(sys)
    requires sys.taken <= i < |sys.stream| && Tells(sys.stream[i], n)
    ensures var final := Run(sys, acts);
      Invariant(final) && final.newest == sys.newest && final.client.completed >= sys.client.completed && final.client.completed >= n
    decreases |acts|
  {
    var next := Next(sys, acts[0]);
    ServeCounts(sys, acts[0]);
    CountersAdvance(sys, acts[0]);
    if acts[0].ReadPacket? && sys.taken == i {
      ReadExact(sys);
      ReceiveCounts(sys.client, sys.stream[i].p);
      CompletedStays(next, acts[1..]);
    } else {
      ToldInTheEnd(next, n, acts[1..], i);
    }
  }

  lemma {:induction false} CompletedStays(sys: System, acts: seq<Action>)
    requires Invariant(sys) && ServingRun(sys, acts)
    ensures var final := Run(sys, acts);
      Invariant(final) && final.newest == sys.newest && final.client.completed >= sys.client.completed
    decreases |acts|
  {
    if acts != [] {
      ServeCounts(sys, acts[0]);
      CountersAdvance(sys, acts[0]);
      CompletedStays(Next(sys, acts[0]), acts[1..]);
    }
  }

  /** So the wait ends as well when the packet is already on its way. */
  lemma WaitEndsUnderway(sys: System, n: nat, acts: seq<Action>)
    requires Checkable(sys, n) && Underway(sys, n)
    requires ServingRun(sys, acts) && |acts| == StepsLeft(sys)
    ensures Ready(Run(sys, acts).client, n)
  {
    var i :| sys.taken <= i < |sys.stream| && Tells(sys.stream[i], n);
    ToldInTheEnd(sys, n, acts, i);
    ReadyMeans(Run(sys, acts), n);
  }

  /** Nothing decides request n, neither what has been read nor what is on its way nor what is owed. */
  ghost predicate Undecided(sys: System, n: nat) {
    && Checkable(sys, n) && n !in sys.owing && !Ready(sys.client, n)
    && (forall a :: a in sys.owing && a > n ==> a > sys.written)
    && (forall i :: sys.taken <= i < |sys.stream| ==> !Tells(sys.stream[i], n))
    && NoReply(sys.stream, n)
  }

  /** The request is void: the server sends no reply to it. */
  ghost predicate NoReply(stream: seq<Sent>, n: nat) {
    forall x :: x in stream && x.n == n ==> !x.p.IsReply()
  }

  /** A packet that is no answer leaves the current replies alone, or finds them filed away. */
  lemma EventKeepsCurrent(c: Inbound, p: Packet)
    requires !p.IsAnswer()
    ensures Receive(c, p).current == if Receive(c, p).read == c.read then c.current else []
  {
  }

  lemma UndecidedRead(sys: System, n: nat)
    requires Undecided(sys, n) && sys.taken < |sys.stream|
    ensures !Ready(Next(sys, ReadPacket).client, n)
  {
    var x := sys.stream[sys.taken];
    assert x in sys.stream && !Tells(x, n);
    ServeCounts(sys, ReadPacket);
    ReadExact(sys);
    ReceiveCounts(sys.client, x.p);
    ReadyMeans(sys, n);
    ReadyMeans(Next(sys, ReadPacket), n);
    if !x.p.IsAnswer() {
      EventKeepsCurrent(sys.client, x.p);
    }
  }

  lemma UndecidedStays(sys: System, n: nat, a: Action)
    requires Undecided(sys, n) && Serves(sys, a)
    ensures Undecided(Next(sys, a), n)
  {
    ServeCounts(sys, a);
    CountersAdvance(sys, a);
    if a.ReadPacket? {
      UndecidedRead(sys, n);
    }
  }

  /** And otherwise it may never end: the server can do all it owes without deciding the request. */
  lemma {:induction false} WaitHangs(sys: System, n: nat, acts: seq<Action>)
    requires Undecided(sys, n) && ServingRun(sys, acts)
    ensures !Ready(Run(sys, acts).client, n)
    decreases |acts|
  {
    if acts != [] {
      UndecidedStays(sys, n, acts[0]);
      WaitHangs(Next(sys, acts[0]), n, acts[1..]);
    }
  }

  /**
   * xcb_request_check on a void request, in the branch without a sync, is
   * certain to return exactly if the request is not yet written (then all is
   * flushed), a later request that is owed an answer has been written, or a
   * packet that tells is already on its way.
   */
  lemma CheckReturnsExactly(sys: System, n: nat, acts: seq<Action>)
    requires Checkable(sys, n) && n !in sys.owing && NoReply(sys.stream, n)
    requires !Syncs(sys.client, n) && !Ready(sys.client, n)
    requires var waiting := Next(sys, FlushTo(n));
      ServingRun(waiting, acts) && |acts| == StepsLeft(waiting)
    ensures Ready(Run(Next(sys, FlushTo(n)), acts).client, n)
      <==> sys.written < n || (exists a :: a in sys.owing && n < a <= sys.written) || Underway(sys, n)
  {
    var waiting := Next(sys, FlushTo(n));
    OutstandingExactly(sys, n);
    if Outstanding(waiting, n) {
      WaitEnds(waiting, n, acts);
    } else if Underway(sys, n) {
      assert Underway(waiting, n);
      WaitEndsUnderway(waiting, n, acts);
    } else {
      WaitHangs(waiting, n, acts);
    }
  }

  // ----- the wait for the sync's own reply -----

  /** The router would not let a poll for request m block. */
  ghost predicate Got(r: Router.Router, m: nat) {
    Router.Queue(r, m) != [] || Router.Decided(r, m)
  }

  /** An answer to request m has been read. */
  ghost predicate Heard(sys: System, m: nat) {
    exists i :: 0 <= i < sys.taken && i < |sys.stream| && sys.stream[i].n == m && sys.stream[i].p.IsAnswer()
  }

  lemma ArrivalGets(r: Router.Router, n: nat, p: Packet, m: nat)
    requires r.latest <= n && !Router.Registration(r, m).discard
    requires Got(r, m) || (n == m && p.IsAnswer())
    ensures Got(Router.Arrive(r, n, p), m)
  {
  }

  lemma HeardNow(sys: System, m: nat)
    requires sys.taken < |sys.stream|
    ensures Heard(Next(sys, ReadPacket), m)
      <==> Heard(sys, m) || (sys.stream[sys.taken].n == m && sys.stream[sys.taken].p.IsAnswer())
  {
    var next := Next(sys, ReadPacket);
    if Heard(next, m) {
      var i :| 0 <= i < next.taken && i < |next.stream| && next.stream[i].n == m && next.stream[i].p.IsAnswer();
      assert i < sys.taken || i == sys.taken;
    }
  }

  lemma HeardRead(sys: System, r: Router.Router, m: nat)
    requires InStep(sys, r) && sys.taken < |sys.stream|
    requires !Router.Registration(r, m).discard && (Heard(sys, m) ==> Got(r, m))
    ensures var x := sys.stream[sys.taken];
      Heard(Next(sys, ReadPacket), m) ==> Got(Router.Arrive(r, x.n, x.p), m)
  {
    var x := sys.stream[sys.taken];
    NextMayArrive(sys, r);
    HeardNow(sys, m);
    if Heard(Next(sys, ReadPacket), m) {
      ArrivalGets(r, x.n, x.p, m);
    }
  }

  lemma ServeUnheard(sys: System, x: Sent, m: nat)
    requires sys.taken <= |sys.stream|
    ensures Heard(Next(sys, ServerSends(x)), m) <==> Heard(sys, m)
  {
    var next := Next(sys, ServerSends(x));
    assert forall i :: 0 <= i < sys.taken ==> next.stream[i] == sys.stream[i];
  }

  lemma ArriveRegisters(r: Router.Router, n: nat, p: Packet, m: nat)
    ensures Router.Registration(Router.Arrive(r, n, p), m) == Router.Registration(r, m)
  {
  }

  lemma HeardStep(sys: System, r: Router.Router, a: Action, m: nat)
    requires InStep(sys, r) && InWindow(r) && Serves(sys, a)
    requires !Router.Registration(r, m).discard && (Heard(sys, m) ==> Got(r, m))
    ensures var r' := Router.Next(r, Seen(sys, a));
      && InStep(Next(sys, a), r') && !Router.Registration(r', m).discard
      && (Heard(Next(sys, a), m) ==> Got(r', m))
  {
    StepInStep(sys, r, a);
    if a.ReadPacket? {
      HeardRead(sys, r, m);
      ArriveRegisters(r, sys.stream[sys.taken].n, sys.stream[sys.taken].p, m);
    } else {
      ServeUnheard(sys, a.sent, m);
    }
  }

  lemma {:induction false} HeardIsGot(sys: System, r: Router.Router, acts: seq<Action>, m: nat)
    requires InStep(sys, r) && ServingRun(sys, acts) && Timely(r, SeenRun(sys, acts))
    requires !Router.Registration(r, m).discard && (Heard(sys, m) ==> Got(r, m))
    ensures var final, rf := Run(sys, acts), Router.Run(r, SeenRun(sys, acts));
      InStep(final, rf) && InWindow(rf) && (Heard(final, m) ==> Got(rf, m))
    decreases |acts|
  {
    if acts != [] {
      var seen := SeenRun(sys, acts);
      assert seen[0] == Seen(sys, acts[0]) && seen[1..] == SeenRun(Next(sys, acts[0]), acts[1..]);
      HeardStep(sys, r, acts[0], m);
      HeardIsGot(Next(sys, acts[0]), Router.Next(r, Seen(sys, acts[0])), acts[1..], m);
    }
  }

  lemma {:induction false} AllHeard(sys: System, acts: seq<Action>, m: nat)
    requires Invariant(sys) && ServingRun(sys, acts) && |acts| == StepsLeft(sys)
    requires m in sys.owing && m <= sys.written
    ensures Heard(Run(sys, acts), m)
    decreases |acts|
  {
    if acts == [] {
      assert m !in Debts(sys);
      var y :| y in sys.stream && y.n == m && y.p.IsAnswer();
      var i :| 0 <= i < |sys.stream| && sys.stream[i] == y;
      assert i < sys.taken;
    } else {
      ServeCounts(sys, acts[0]);
      AllHeard(Next(sys, acts[0]), acts[1..], m);
    }
  }

  /** A request that is owed an answer gets it: once the server has done what it owes, a poll for it does not block. */
  lemma OwedIsReady(sys: System, r: Router.Router, acts: seq<Action>, m: nat)
    requires InStep(sys, r) && Timely(r, SeenRun(sys, acts))
    requires ServingRun(sys, acts) && |acts| == StepsLeft(sys)
    requires m in sys.owing && m <= sys.written && !Router.Registration(r, m).discard
    requires Cookie(m) != 0 && sys.newest - m < TWO31 && !Heard(sys, m)
    ensures Ready(Run(sys, acts).client, m)
  {
    var final, rf := Run(sys, acts), Router.Run(r, SeenRun(sys, acts));
    HeardIsGot(sys, r, acts, m);
    AllHeard(sys, acts, m);
    CompletedStays(sys, acts);
    PollSimulates(final.client, rf, m);
  }

  /** With the sync, the wait always ends. */
  lemma CheckReturnsAfterSync(sys: System, n: nat, flags: Flags, acts: seq<Action>)
    requires Checkable(sys, n) && sys.newest + 2 < TWO63 && sys.newest + 1 - n < TWO31
    requires sys.newest + 1 - sys.client.completed < TWO31
    requires var sent := Next(sys, SendRequest(false, flags, false));
      var waiting := Next(sent, FlushTo(sent.newest));
      waiting.taken <= |waiting.stream| && ServingRun(waiting, acts) && |acts| == StepsLeft(waiting)
    ensures var sent := Next(sys, SendRequest(false, flags, false));
      Ready(Run(Next(sent, FlushTo(sent.newest)), acts).client, n)
  {
    var sent := Next(sys, SendRequest(false, flags, false));
    StepKeeps(sys, SendRequest(false, flags, false));
    StepKeeps(sent, FlushTo(sent.newest));
    IssueCounts(sys.client, sys.newest, false, flags);
    SyncIsOutstanding(sys, n, flags);
    WaitEnds(Next(sent, FlushTo(sent.newest)), n, acts);
  }

  /** And so does the wait for the reply of the GetInputFocus itself, before it. */
  lemma SyncReturns(sys: System, r: Router.Router, flags: Flags, acts: seq<Action>)
    requires InStep(sys, r) && InWindow(r) && sys.newest + 2 < TWO63 && !flags.discard && Cookie(sys.newest + 1) != 0
    requires var sent := Next(sys, SendRequest(false, flags, false));
      var waiting := Next(sent, FlushTo(sent.newest));
      && waiting.taken <= |waiting.stream| && ServingRun(waiting, acts) && |acts| == StepsLeft(waiting)
      && Timely(Router.Next(r, Router.Issued(false, flags)), SeenRun(waiting, acts))
    ensures var sent := Next(sys, SendRequest(false, flags, false));
      Ready(Run(Next(sent, FlushTo(sent.newest)), acts).client, sent.newest)
  {
    var sent := Next(sys, SendRequest(false, flags, false));
    var waiting := Next(sent, FlushTo(sent.newest));
    SyncSent(sys, r, flags);
    NewIsUnheard(sys, waiting);
    OwedIsReady(waiting, Router.Next(r, Router.Issued(false, flags)), acts, sent.newest);
  }

  /** The GetInputFocus is sent and written; it is owed a reply, which nobody discards. */
  lemma SyncSent(sys: System, r: Router.Router, flags: Flags)
    requires InStep(sys, r) && InWindow(r) && sys.newest + 2 < TWO63 && !flags.discard
    ensures var sent := Next(sys, SendRequest(false, flags, false));
      var waiting, r', m := Next(sent, FlushTo(sent.newest)), Router.Next(r, Router.Issued(false, flags)), sys.newest + 1;
      && InStep(waiting, r') && sent.newest == m == waiting.newest == waiting.written && m in waiting.owing
      && waiting.stream == sys.stream && waiting.taken == sys.taken
      && !Router.Registration(r', m).discard
  {
    StepInStep(sys, r, SendRequest(false, flags, false));
    IssueCounts(sys.client, sys.newest, false, flags);
  }

  lemma NewIsUnheard(sys: System, later: System)
    requires Invariant(sys) && later.stream == sys.stream && later.taken == sys.taken
    ensures !Heard(later, sys.newest + 1)
  {
    if Heard(later, sys.newest + 1) {
      var i :| 0 <= i < later.taken && i < |later.stream| && later.stream[i].n == sys.newest + 1;
      LastRead(sys.stream, i + 1);
      assert false;
    }
  }

  lemma Step(sys: System, a: Action, rest: seq<Action>)
    ensures Run(sys, [a] + rest) == Run(Next(sys, a), rest)
    ensures LegalRun(sys, [a] + rest) <==> Legal(sys, a) && LegalRun(Next(sys, a), rest)
  {
    var acts := [a] + rest;
    assert acts[0] == a && acts[1..] == rest;
  }

  /**
   * So the promise of xcb.h fails: a checked request is written, a request with
   * a reply is queued behind it, and checking the first waits for ever.
   */
  lemma CheckMayHang()
    ensures var sys := Run(START, [SendRequest(true, Flags(true, false), false), FlushTo(1), SendRequest(false, NO_FLAGS, false)]);
      && LegalRun(START, [SendRequest(true, Flags(true, false), false), FlushTo(1), SendRequest(false, NO_FLAGS, false)])
      && Checkable(sys, 1) && !Syncs(sys.client, 1) && !Ready(sys.client, 1)
      && Next(sys, FlushTo(1)) == sys && StepsLeft(sys) == 0
  {
    var a, b, c := SendRequest(true, Flags(true, false), false), FlushTo(1), SendRequest(false, NO_FLAGS, false);
    var acts := [a, b, c];
    var s1 := Next(START, a);
    var s2 := Next(s1, b);
    var s3 := Next(s2, c);
    Step(START, a, [b, c]);
    Step(s1, b, [c]);
    Step(s2, c, []);
    assert [a] + [b, c] == acts && [b] + [c] == [b, c] && [c] + [] == [c];
    assert Invariant(START);
    RunKeeps(START, acts);
    assert Debts(s3) == {};
  }
}
