/**
 * Cookie 0 means that sending failed. src/xcb_out.c (218-224) sets out to keep
 * it from being given to a request that was sent, but compares the 64-bit
 * number, so the guard acts only when that wraps.
 */
module Cookies {
  import opened Sequence
  import opened Packets
  import opened Inbound
  import opened Wrappers
  import opened Protocol
  import opened Delivery
  import opened ClientGuarantees
  import Router
  import Guarantees

  /** A request that is sent gets cookie 0 exactly when its number is a multiple of 2^32. */
  lemma ZeroExactly(s: Inbound, newest: nat, isVoid: bool)
    ensures Cookie(Number(s, newest, isVoid)) == 0
      <==> newest % TWO32 == (if NeedsSync(s, newest, isVoid) then TWO32 - 2 else TWO32 - 1)
  {
    assert newest == newest / TWO32 * TWO32 + newest % TWO32;
  }

  /** And then no poll ever finds its reply, wherever that is stored. */
  lemma ZeroFindsNothing(s: Inbound)
    ensures Poll(s, 0) == (s, Done(None))
  {
  }

  // ----- its replies stay where they are -----

  lemma {:induction false} NeverPolled(sys: System, acts: seq<Action>, n: nat)
    requires LegalRun(sys, acts) && Cookie(n) == 0
    ensures PollReply(n) !in acts && DiscardReply(n) !in acts
    decreases |acts|
  {
    if acts != [] {
      NeverPolled(Next(sys, acts[0]), acts[1..], n);
      assert acts == [acts[0]] + acts[1..];
    }
  }

  lemma {:induction false} NothingHanded(acts: seq<Action>, outputs: seq<Router.Output>, n: nat)
    requires |acts| == |outputs| && PollReply(n) !in acts
    ensures AnswersHanded(acts, outputs, n) == []
  {
    if acts != [] {
      NothingHanded(acts[1..], outputs[1..], n);
      assert acts[0] in acts;
    }
  }

  /** Whatever arrives for a request with cookie 0 stays stored: no poll in any run hands it out. */
  lemma RepliesStay(acts: seq<Action>, n: nat)
    requires Proper(acts) && Cookie(n) == 0 && n <= After(acts).issued < n + TWO31
    requires !Router.Registration(After(acts), n).discard
    ensures var sys := Run(START, acts);
      && sys.taken <= |sys.stream| && |acts| == |Outputs(START, acts)|
      && AnswersHanded(acts, Outputs(START, acts), n) == []
      && (n <= sys.client.read ==>
            Stored(sys.client, n) == AnswersIn(sys.stream[..sys.taken], n, Router.Registration(After(acts), n).checked))
  {
    NeverPolled(START, acts, n);
    AnswersDelivered(acts, n);
    NothingHanded(acts, Outputs(START, acts), n);
  }

  // ----- a run in which that happens -----

  const CALL := SendRequest(false, NO_FLAGS, true)

  function Reply(k: nat): Sent {
    Sent(k, Packet(XCB_REPLY, Low16(k), []))
  }

  /** A request is sent, answered, and the answer read. */
  function Exchange(k: nat): seq<Action> {
    [CALL, ServerSends(Reply(k)), ReadPacket]
  }

  /** The same, and the answer is taken. */
  function Round(k: nat): seq<Action> {
    Exchange(k) + [PollReply(k)]
  }

  /** Requests from k + 1 on, each answered and its reply taken before the next. */
  function Rounds(k: nat, m: nat): seq<Action>
    decreases m
  {
    if m == 0 then [] else Round(k + 1) + Rounds(k + 1, m - 1)
  }

  /** k requests have been made and answered, and all but `left` has been taken. */
  ghost predicate Calm(sys: System, k: nat, left: seq<Packet>) {
    && sys.newest == k && Last(sys.stream) == k && sys.taken == |sys.stream|
    && sys.client == INITIAL.(expected := k, read := k, completed := if k == 0 then 0 else k - 1, current := left)
    && (forall a :: a in sys.owing ==> a <= k && Answered(sys.stream, a))
    && (forall x :: x in sys.stream ==> !x.p.IsError())
    && (k > 0 ==> Reply(k) in sys.stream)
  }

  function CalmRouter(k: nat, left: seq<Packet>): Router.Router {
    Router.START.(issued := k, latest := k, queues := if left == [] then map[] else map[k := left])
  }

  lemma RunsAppend(sys: System, r: Router.Router, a: seq<Action>, b: seq<Action>)
    requires LegalRun(sys, a) && LegalRun(Run(sys, a), b)
    requires Timely(r, SeenRun(sys, a)) && Timely(Router.Run(r, SeenRun(sys, a)), SeenRun(Run(sys, a), b))
    ensures LegalRun(sys, a + b) && Run(sys, a + b) == Run(Run(sys, a), b)
    ensures Timely(r, SeenRun(sys, a + b))
    ensures Router.Run(r, SeenRun(sys, a + b)) == Router.Run(Router.Run(r, SeenRun(sys, a)), SeenRun(Run(sys, a), b))
  {
    RunAppends(sys, a, b);
    SeenAppends(sys, a, b);
    TimelyAppends(r, SeenRun(sys, a), SeenRun(Run(sys, a), b));
  }

  /** One step in front of a run. */
  lemma StepAppends(sys: System, r: Router.Router, act: Action, rest: seq<Action>)
    requires Legal(sys, act) && LegalRun(Next(sys, act), rest) && Refinement.InWindow(r)
    requires act.PollReply? || act.DiscardReply? ==> r.issued - act.n < TWO31
    requires Timely(Router.Next(r, Seen(sys, act)), SeenRun(Next(sys, act), rest))
    ensures LegalRun(sys, [act] + rest) && Run(sys, [act] + rest) == Run(Next(sys, act), rest)
    ensures Timely(r, SeenRun(sys, [act] + rest))
    ensures Router.Run(r, SeenRun(sys, [act] + rest)) == Router.Run(Router.Next(r, Seen(sys, act)), SeenRun(Next(sys, act), rest))
  {
    var acts := [act] + rest;
    assert acts[0] == act && acts[1..] == rest;
    var seen := SeenRun(sys, acts);
    assert seen[0] == Seen(sys, act) && seen[1..] == SeenRun(Next(sys, act), rest);
  }

  lemma CallIs(sys: System, k: nat)
    requires Calm(sys, k, []) && k + 3 < TWO63
    ensures var s := Next(sys, CALL);
      && Legal(sys, CALL) && Seen(sys, CALL) == Router.Issued(false, NO_FLAGS)
      && s == sys.(newest := k + 1, written := k + 1, owing := sys.owing + {k + 1}, client := sys.client.(expected := k + 1))
  {
    assert sys.owing + {} + {k + 1} == sys.owing + {k + 1};
  }

  lemma ReplyIs(sys: System, k: nat)
    requires Calm(sys, k, []) && k + 3 < TWO63
    ensures var s := Next(sys, CALL);
      var s' := Next(s, ServerSends(Reply(k + 1)));
      && Legal(s, ServerSends(Reply(k + 1))) && Last(s'.stream) == k + 1
      && (forall a :: a in s'.owing ==> a <= k + 1 && Answered(s'.stream, a))
      && (forall x :: x in s'.stream ==> !x.p.IsError())
  {
    CallIs(sys, k);
    var s, x := Next(sys, CALL), Reply(k + 1);
    var stream := s.stream + [x];
    assert x in stream;
    forall a | a in s.owing ensures a <= k + 1 && Answered(stream, a) {
      if a != k + 1 {
        var y :| y in s.stream && y.n == a && y.p.IsAnswer();
        assert y in stream;
      }
    }
  }

  lemma ReadIs(c: Inbound, k: nat)
    requires c == INITIAL.(expected := k + 1, read := k, completed := if k == 0 then 0 else k - 1)
    ensures Receive(c, Reply(k + 1).p)
      == INITIAL.(expected := k + 1, read := k + 1, completed := k, current := [Reply(k + 1).p])
  {
    RebuildExact(k, k + 1);
    var p := Reply(k + 1).p;
    assert Advance(c, p) == INITIAL.(expected := k + 1, read := k + 1, completed := k);
  }

  lemma RouterReads(k: nat)
    ensures var r := Router.Next(CalmRouter(k, []), Router.Issued(false, NO_FLAGS));
      Router.Next(r, Router.Arrived(k + 1, Reply(k + 1).p)) == CalmRouter(k + 1, [Reply(k + 1).p])
  {
    var p := Reply(k + 1).p;
    var r := Router.Next(CalmRouter(k, []), Router.Issued(false, NO_FLAGS));
    assert Router.Queue(r, k + 1) + [p] == [p];
    assert r.queues[k + 1 := [p]] == map[k + 1 := [p]];
  }

  lemma CalmWindow(k: nat, left: seq<Packet>)
    requires k + 1 < TWO63
    ensures Refinement.InWindow(CalmRouter(k, left)) && Refinement.InWindow(CalmRouter(k, left).(issued := k + 1))
  {
  }

  lemma ReplyStepRuns(sys: System, r: Router.Router, x: Sent)
    requires Legal(sys, ServerSends(x)) && Refinement.InWindow(r) && sys.taken == |sys.stream|
    requires Refinement.InWindow(Router.Next(r, Router.Arrived(x.n, x.p)))
    ensures var acts := [ServerSends(x), ReadPacket];
      var final := Next(Next(sys, ServerSends(x)), ReadPacket);
      && LegalRun(sys, acts) && Run(sys, acts) == final
      && Timely(r, SeenRun(sys, acts)) && Router.Run(r, SeenRun(sys, acts)) == Router.Next(r, Router.Arrived(x.n, x.p))
  {
    var s := Next(sys, ServerSends(x));
    StepAppends(s, r, ReadPacket, []);
    assert [ReadPacket] + [] == [ReadPacket];
    StepAppends(sys, r, ServerSends(x), [ReadPacket]);
    assert [ServerSends(x)] + [ReadPacket] == [ServerSends(x), ReadPacket];
  }

  lemma ExchangeEnds(sys: System, k: nat)
    requires Calm(sys, k, []) && k + 3 < TWO63
    ensures var s := Next(sys, CALL);
      Calm(Next(Next(s, ServerSends(Reply(k + 1))), ReadPacket), k + 1, [Reply(k + 1).p])
  {
    CallIs(sys, k);
    ReplyIs(sys, k);
    ReadIs(Next(Next(sys, CALL), ServerSends(Reply(k + 1))).client, k);
  }

  lemma ExchangeRuns(sys: System, k: nat)
    requires Calm(sys, k, []) && k + 3 < TWO63
    ensures var acts, r, left := Exchange(k + 1), CalmRouter(k, []), [Reply(k + 1).p];
      && LegalRun(sys, acts) && Calm(Run(sys, acts), k + 1, left)
      && Timely(r, SeenRun(sys, acts)) && Router.Run(r, SeenRun(sys, acts)) == CalmRouter(k + 1, left)
  {
    var x, r := Reply(k + 1), CalmRouter(k, []);
    var r1 := Router.Next(r, Router.Issued(false, NO_FLAGS));
    CallIs(sys, k);
    ReplyIs(sys, k);
    ExchangeEnds(sys, k);
    RouterReads(k);
    CalmWindow(k, []);
    CalmWindow(k + 1, [x.p]);
    assert r1 == r.(issued := k + 1);
    ReplyStepRuns(Next(sys, CALL), r1, x);
    StepAppends(sys, r, CALL, [ServerSends(x), ReadPacket]);
    assert Exchange(k + 1) == [CALL] + [ServerSends(x), ReadPacket];
  }

  lemma TakeRuns(sys: System, k: nat)
    requires Calm(sys, k, [Reply(k).p]) && Cookie(k) != 0 && k + 1 < TWO63
    ensures var acts, r := [PollReply(k)], CalmRouter(k, [Reply(k).p]);
      && LegalRun(sys, acts) && Calm(Run(sys, acts), k, [])
      && Timely(r, SeenRun(sys, acts)) && Router.Run(r, SeenRun(sys, acts)) == CalmRouter(k, [])
  {
    var a, r := PollReply(k), CalmRouter(k, [Reply(k).p]);
    Compare32Exact(k, k);
    CalmWindow(k, [Reply(k).p]);
    CalmWindow(k, []);
    assert Router.Next(r, Router.Polling(k)) == CalmRouter(k, []) by {
      assert r.queues - {k} == map[];
    }
    StepAppends(sys, r, a, []);
    assert [a] + [] == [a];
  }

  /** The actions lead from k requests answered and taken to j. */
  ghost predicate Leads(sys: System, k: nat, acts: seq<Action>, j: nat) {
    && LegalRun(sys, acts) && Calm(Run(sys, acts), j, [])
    && Timely(CalmRouter(k, []), SeenRun(sys, acts))
    && Router.Run(CalmRouter(k, []), SeenRun(sys, acts)) == CalmRouter(j, [])
  }

  lemma LeadsOn(sys: System, k: nat, a: seq<Action>, j: nat, b: seq<Action>, n: nat)
    requires Leads(sys, k, a, j) && Leads(Run(sys, a), j, b, n)
    ensures Leads(sys, k, a + b, n)
  {
    RunsAppend(sys, CalmRouter(k, []), a, b);
  }

  lemma RoundRuns(sys: System, k: nat)
    requires Calm(sys, k, []) && k + 3 < TWO63 && Cookie(k + 1) != 0
    ensures Leads(sys, k, Round(k + 1), k + 1) && Calm(Run(sys, Round(k + 1)), k + 1, [])
  {
    ExchangeRuns(sys, k);
    TakeRuns(Run(sys, Exchange(k + 1)), k + 1);
    RunsAppend(sys, CalmRouter(k, []), Exchange(k + 1), [PollReply(k + 1)]);
  }

  lemma LeadsNowhere(sys: System, k: nat)
    requires Calm(sys, k, []) && k + 1 < TWO63
    ensures Leads(sys, k, [], k)
  {
    CalmWindow(k, []);
  }

  lemma RoundThen(sys: System, k: nat, rest: seq<Action>, n: nat)
    requires Calm(sys, k, []) && k + 3 < TWO63 && Cookie(k + 1) != 0
    requires Leads(Run(sys, Round(k + 1)), k + 1, rest, n)
    ensures Leads(sys, k, Round(k + 1) + rest, n)
  {
    RoundRuns(sys, k);
    LeadsOn(sys, k, Round(k + 1), k + 1, rest, n);
  }

  lemma {:induction false} RoundsRun(sys: System, k: nat, m: nat)
    requires Calm(sys, k, []) && k + m < TWO32
    ensures Leads(sys, k, Rounds(k, m), k + m)
    decreases m
  {
    if m == 0 {
      LeadsNowhere(sys, k);
    } else {
      assert Cookie(k + 1) == k + 1;
      RoundRuns(sys, k);
      RoundsRun(Run(sys, Round(k + 1)), k + 1, m - 1);
      RoundThen(sys, k, Rounds(k + 1, m - 1), k + m);
    }
  }

  /** 2^32 requests, each answered; every reply is taken at once but the last, whose cookie is 0. */
  function LosingRun(): seq<Action> {
    Rounds(0, TWO32 - 1) + Exchange(TWO32)
  }

  lemma LosingRunIs()
    ensures Proper(LosingRun()) && After(LosingRun()) == CalmRouter(TWO32, [Reply(TWO32).p])
    ensures Calm(Run(START, LosingRun()), TWO32, [Reply(TWO32).p]) && Cookie(Run(START, LosingRun()).newest) == 0
  {
    assert START.client == INITIAL.(expected := 0, read := 0, completed := 0, current := []);
    assert Router.START == CalmRouter(0, []);
    RoundsRun(START, 0, TWO32 - 1);
    ExchangeRuns(Run(START, Rounds(0, TWO32 - 1)), TWO32 - 1);
    RunsAppend(START, Router.START, Rounds(0, TWO32 - 1), Exchange(TWO32));
  }

  lemma {:induction false} StaysUnregistered(before: seq<Action>, after: seq<Action>, n: nat)
    requires Continues(before, after) && Cookie(n) == 0 && n <= After(before).issued
    ensures Router.Registration(Router.Run(After(before), SeenRun(Run(START, before), after)), n) == Router.Registration(After(before), n)
  {
    var sys := Run(START, before);
    Continuation(before, after);
    NeverPolled(sys, after, n);
    SeenDiscards(sys, after, n);
    Guarantees.RegistrationStays(After(before), SeenRun(sys, after), n);
  }

  lemma {:induction false} AnswerThere(stream: seq<Sent>, x: Sent, checked: bool)
    requires x in stream && x.p.IsReply()
    ensures x.p in AnswersIn(stream, x.n, checked)
  {
    if stream[0] != x {
      assert stream == [stream[0]] + stream[1..];
      AnswerThere(stream[1..], x, checked);
    }
  }

  lemma ReadIsKept(before: System, after: seq<Action>, x: Sent)
    requires before.taken == |before.stream| && x in before.stream
    ensures Run(before, after).taken <= |Run(before, after).stream|
    ensures x in Run(before, after).stream[..Run(before, after).taken]
  {
    StreamGrows(before, after);
    var final := Run(before, after);
    var i :| 0 <= i < |before.stream| && before.stream[i] == x;
    assert final.stream[..final.taken][i] == x;
  }

  lemma {:induction false} CountersStay(sys: System, acts: seq<Action>)
    requires Invariant(sys) && LegalRun(sys, acts)
    ensures Run(sys, acts).newest >= sys.newest && Run(sys, acts).client.read >= sys.client.read
    decreases |acts|
  {
    if acts != [] {
      StepKeeps(sys, acts[0]);
      CountersAdvance(sys, acts[0]);
      CountersStay(Next(sys, acts[0]), acts[1..]);
    }
  }

  /** What has been read for a request with cookie 0 is never handed out. */
  lemma StaysForEver(before: seq<Action>, after: seq<Action>, x: Sent)
    requires Continues(before, after) && Run(START, before).taken == |Run(START, before).stream|
    requires x in Run(START, before).stream && x.p.IsReply() && Cookie(x.n) == 0
    requires x.n <= Run(START, before).client.read && !Router.Registration(After(before), x.n).discard
    requires Run(START, before + after).newest < x.n + TWO31
    ensures var acts := before + after;
      && |acts| == |Outputs(START, acts)|
      && AnswersHanded(acts, Outputs(START, acts), x.n) == []
      && x.p in Stored(Run(START, acts).client, x.n)
  {
    var acts := before + after;
    ProperRun(before);
    RunsAppend(START, Router.START, before, after);
    ProperRun(acts);
    CountersStay(Run(START, before), after);
    StaysUnregistered(before, after, x.n);
    RepliesStay(acts, x.n);
    ReadIsKept(Run(START, before), after, x);
    AnswerThere(Run(START, acts).stream[..Run(START, acts).taken], x, Router.Registration(After(acts), x.n).checked);
  }

  /**
   * A reply is lost: after that run the reply to the last request has been read
   * and is stored, and however the run goes on, no poll ever hands it out.
   */
  lemma ReplyIsLost(after: seq<Action>)
    requires Continues(LosingRun(), after)
    requires Run(START, LosingRun() + after).newest < TWO32 + TWO31
    ensures var acts := LosingRun() + after;
      && Stored(Run(START, LosingRun()).client, TWO32) == [Reply(TWO32).p]
      && |acts| == |Outputs(START, acts)|
      && AnswersHanded(acts, Outputs(START, acts), TWO32) == []
      && Reply(TWO32).p in Stored(Run(START, acts).client, TWO32)
  {
    LosingRunIs();
    StaysForEver(LosingRun(), after, Reply(TWO32));
  }
}
