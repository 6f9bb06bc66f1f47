/**
 * The Router's promises, kept by the client: statements about what the
 * application is handed in any run of client, wire and server.
 */
module ClientGuarantees {
  import opened Wrappers
  import opened Sequence
  import opened Packets
  import opened Inbound
  import Router
  import Guarantees
  import opened Refinement
  import opened Protocol
  import opened Delivery
  import LinkedMap

  // ----- what the application was handed, and what is stored for it -----

  function EventsHanded(outputs: seq<Router.Output>): seq<Event> {
    if outputs == [] then [] else
      (if outputs[0].Taken? && outputs[0].event.Some? then [outputs[0].event.value] else []) + EventsHanded(outputs[1..])
  }

  /** The packets handed out by the polls for request k. */
  function AnswersHanded(acts: seq<Action>, outputs: seq<Router.Output>, k: nat): seq<Packet>
    requires |acts| == |outputs|
  {
    if acts == [] then [] else
      (match outputs[0]
       case Answer(Done(Some(p))) => if acts[0] == PollReply(k) then [p] else []
       case _ => []) + AnswersHanded(acts[1..], outputs[1..], k)
  }

  /** The packets the reading side holds for request k. */
  function Stored(c: Inbound, k: nat): seq<Packet> {
    if c.read == k then c.current
    else match LinkedMap.Find(c.replies, Cookie(k)) case Some(q) => q case None => []
  }

  lemma StoredIsQueue(c: Inbound, r: Router.Router, k: nat)
    requires Simulates(c, r) && InWindow(r) && k <= r.issued && r.issued - k < TWO31
    ensures k <= c.read ==> Stored(c, k) == Router.Queue(r, k)
    ensures k > c.read ==> Router.Queue(r, k) == []
  {
    if k < c.read {
      FindStored(c, r, k);
    }
  }

  // ----- from the router's results to the client's outputs -----

  lemma {:induction false} EventsHandedAre(r: Router.Router, acts: seq<Router.Action>)
    ensures EventsHanded(Router.Results(r, acts)) == Guarantees.EventsTaken(r, acts)
    decreases |acts|
  {
    if acts != [] {
      EventsHandedAre(Router.Next(r, acts[0]), acts[1..]);
      assert Router.Results(r, acts)[1..] == Router.Results(Router.Next(r, acts[0]), acts[1..]);
    }
  }

  lemma {:induction false} AnswersHandedAre(sys: System, r: Router.Router, acts: seq<Action>, k: nat)
    ensures |SeenRun(sys, acts)| == |acts|
    ensures AnswersHanded(acts, Router.Results(r, SeenRun(sys, acts)), k) == Guarantees.AnswersTaken(r, SeenRun(sys, acts), k)
    decreases |acts|
  {
    if acts != [] {
      var a := Seen(sys, acts[0]);
      var rest := SeenRun(Next(sys, acts[0]), acts[1..]);
      AnswersHandedAre(Next(sys, acts[0]), Router.Next(r, a), acts[1..], k);
      assert SeenRun(sys, acts)[0] == a && SeenRun(sys, acts)[1..] == rest;
      var results := Router.Results(r, SeenRun(sys, acts));
      assert results[0] == Router.Result(r, a) && results[1..] == Router.Results(Router.Next(r, a), rest);
    }
  }

  /** The answers to request k among sent packets. */
  function AnswersIn(stream: seq<Sent>, k: nat, checked: bool): seq<Packet> {
    if stream == [] then [] else
      (if stream[0].n == k && (stream[0].p.IsReply() || (stream[0].p.IsError() && checked)) then [stream[0].p] else [])
      + AnswersIn(stream[1..], k, checked)
  }

  lemma {:induction false} StreamGrows(sys: System, acts: seq<Action>)
    requires sys.taken <= |sys.stream|
    ensures sys.stream <= Run(sys, acts).stream
    ensures sys.taken <= Run(sys, acts).taken <= |Run(sys, acts).stream|
    decreases |acts|
  {
    if acts != [] {
      StreamGrows(Next(sys, acts[0]), acts[1..]);
    }
  }

  lemma AnswersFrom(stream: seq<Sent>, from: nat, to: nat, k: nat, checked: bool)
    requires from < to <= |stream|
    ensures AnswersIn(stream[from..to], k, checked)
      == (if stream[from].n == k && (stream[from].p.IsReply() || (stream[from].p.IsError() && checked)) then [stream[from].p] else [])
         + AnswersIn(stream[from + 1..to], k, checked)
  {
    assert stream[from..to][0] == stream[from] && stream[from..to][1..] == stream[from + 1..to];
  }

  /** The arrivals of a run are the packets it takes from the stream. */
  lemma {:induction false} ArrivalsAreStream(sys: System, acts: seq<Action>, k: nat, checked: bool)
    requires sys.taken <= |sys.stream|
    ensures sys.taken <= Run(sys, acts).taken <= |Run(sys, acts).stream|
    ensures Guarantees.AnswersTo(SeenRun(sys, acts), k, checked)
      == AnswersIn(Run(sys, acts).stream[sys.taken..Run(sys, acts).taken], k, checked)
    decreases |acts|
  {
    StreamGrows(sys, acts);
    if acts != [] {
      var next := Next(sys, acts[0]);
      var final := Run(sys, acts);
      StreamGrows(next, acts[1..]);
      ArrivalsAreStream(next, acts[1..], k, checked);
      var a, rest := Seen(sys, acts[0]), SeenRun(next, acts[1..]);
      assert SeenRun(sys, acts)[0] == a && SeenRun(sys, acts)[1..] == rest;
      if acts[0].ReadPacket? && sys.taken < |sys.stream| {
        AnswersFrom(final.stream, sys.taken, final.taken, k, checked);
      }
    }
  }

  /** A run of the system looks orderly to the router. */
  lemma {:induction false} RunIsOrderly(sys: System, r: Router.Router, acts: seq<Action>)
    requires InStep(sys, r) && LegalRun(sys, acts) && Timely(r, SeenRun(sys, acts))
    ensures Guarantees.Orderly(r, SeenRun(sys, acts))
    decreases |acts|
  {
    if acts != [] {
      var a := Seen(sys, acts[0]);
      var rest := SeenRun(Next(sys, acts[0]), acts[1..]);
      assert SeenRun(sys, acts)[0] == a && SeenRun(sys, acts)[1..] == rest;
      StepInStep(sys, r, acts[0]);
      RunIsOrderly(Next(sys, acts[0]), Router.Next(r, a), acts[1..]);
      if a.Arrived? {
        NextMayArrive(sys, r);
      }
    }
  }

  /** A run from the start that stays within what cookies can express. */
  ghost predicate Proper(acts: seq<Action>) {
    LegalRun(Protocol.START, acts) && Timely(Router.START, SeenRun(Protocol.START, acts))
  }

  /** The router after the run, which remembers how each request was registered. */
  function After(acts: seq<Action>): Router.Router {
    Router.Run(Router.START, SeenRun(Protocol.START, acts))
  }

  lemma ProperRun(acts: seq<Action>)
    requires Proper(acts)
    ensures InStep(Run(Protocol.START, acts), After(acts)) && InWindow(After(acts))
    ensures Outputs(Protocol.START, acts) == Router.Results(Router.START, SeenRun(Protocol.START, acts))
    ensures Guarantees.Orderly(Router.START, SeenRun(Protocol.START, acts))
    ensures |Outputs(Protocol.START, acts)| == |acts| == |SeenRun(Protocol.START, acts)|
  {
    assert InStep(Protocol.START, Router.START) by {
      assert Simulates(INITIAL, Router.START);
    }
    RunInStep(Protocol.START, Router.START, acts);
    RunIsOrderly(Protocol.START, Router.START, acts);
    AnswersHandedAre(Protocol.START, Router.START, acts, 0);
    EndsTimely(Router.START, SeenRun(Protocol.START, acts));
  }

  lemma {:induction false} EndsTimely(r: Router.Router, acts: seq<Router.Action>)
    requires Timely(r, acts)
    ensures InWindow(Router.Run(r, acts))
    decreases |acts|
  {
    if acts != [] {
      EndsTimely(Router.Next(r, acts[0]), acts[1..]);
    }
  }

  lemma {:induction false} SeenDiscards(sys: System, acts: seq<Action>, k: nat)
    ensures Router.Discarding(k) in SeenRun(sys, acts) <==> DiscardReply(k) in acts
    decreases |acts|
  {
    if acts != [] {
      SeenDiscards(Next(sys, acts[0]), acts[1..], k);
      assert acts == [acts[0]] + acts[1..];
    }
  }

  /**
   * The answers to a request that the application has been handed, followed by
   * those stored for it, are all its replies (and its errors, if it was checked)
   * read so far, in the order the server sent them.
   */
  lemma AnswersDelivered(acts: seq<Action>, k: nat)
    requires Proper(acts) && DiscardReply(k) !in acts
    requires k <= After(acts).issued < k + TWO31 && !Router.Registration(After(acts), k).discard
    ensures var sys := Run(Protocol.START, acts);
      && sys.taken <= |sys.stream| && |acts| == |Outputs(Protocol.START, acts)|
      && AnswersHanded(acts, Outputs(Protocol.START, acts), k) + (if k <= sys.client.read then Stored(sys.client, k) else [])
         == AnswersIn(sys.stream[..sys.taken], k, Router.Registration(After(acts), k).checked)
  {
    var seen := SeenRun(Protocol.START, acts);
    var sys := Run(Protocol.START, acts);
    ProperRun(acts);
    SeenDiscards(Protocol.START, acts, k);
    AnswersHandedAre(Protocol.START, Router.START, acts, k);
    Guarantees.AnswersConserved(Router.START, seen, k);
    Guarantees.AnswersArrivedAreAll(Router.START, seen, k);
    ArrivalsAreStream(Protocol.START, acts, k, Router.Registration(After(acts), k).checked);
    StoredIsQueue(sys.client, After(acts), k);
    assert sys.stream[0..sys.taken] == sys.stream[..sys.taken];
  }

  lemma {:induction false} ArrivalIsSent(sys: System, acts: seq<Action>, j: nat, k: nat, p: Packet)
    requires sys.taken <= |sys.stream| && j < |SeenRun(sys, acts)| && SeenRun(sys, acts)[j] == Router.Arrived(k, p)
    ensures Sent(k, p) in Run(sys, acts).stream
    decreases |acts|
  {
    var next := Next(sys, acts[0]);
    assert SeenRun(sys, acts)[0] == Seen(sys, acts[0]) && SeenRun(sys, acts)[1..] == SeenRun(next, acts[1..]);
    if j == 0 {
      StreamGrows(sys, acts);
      assert Sent(k, p) == sys.stream[sys.taken] == Run(sys, acts).stream[sys.taken];
    } else {
      ArrivalIsSent(next, acts[1..], j - 1, k, p);
    }
  }

  /**
   * Whatever a poll hands out for a request is an answer the server sent to
   * that request; if the server sends it no reply, as to a void request, it can
   * only be an error, and poll_for_reply's `reply` stays empty.
   */
  lemma AnswersSound(acts: seq<Action>, i: nat, k: nat, p: Packet)
    requires Proper(acts) && |Outputs(Protocol.START, acts)| == |acts| && i < |acts|
    requires acts[i] == PollReply(k) && Outputs(Protocol.START, acts)[i] == Router.Answer(Done(Some(p)))
    ensures Sent(k, p) in Run(Protocol.START, acts).stream && p.IsAnswer()
    ensures (forall x :: x in Run(Protocol.START, acts).stream && x.n == k ==> !x.p.IsReply()) ==> p.code == XCB_ERROR
  {
    var seen := SeenRun(Protocol.START, acts);
    ProperRun(acts);
    SeenAt(Protocol.START, acts, i);
    Guarantees.AnswersCameIn(Router.START, seen, i, k, p);
    var j :| 0 <= j < i && seen[j] == Router.Arrived(k, p);
    ArrivalIsSent(Protocol.START, acts, j, k, p);
  }

  /** The events among the packets a run takes from the stream, given what was asked and discarded before. */
  function EventsRead(sys: System, acts: seq<Action>, w: Guarantees.Wishes): seq<Event>
    decreases |acts|
  {
    if acts == [] then [] else
      (if acts[0].ReadPacket? && sys.taken < |sys.stream| && w.IsEvent(sys.stream[sys.taken].n, sys.stream[sys.taken].p)
       then [Event(sys.stream[sys.taken].p, Cookie(sys.stream[sys.taken].n))] else [])
      + EventsRead(Next(sys, acts[0]), acts[1..], w.Heard(Seen(sys, acts[0])))
  }

  lemma {:induction false} EventsReadAre(sys: System, acts: seq<Action>, w: Guarantees.Wishes)
    ensures EventsRead(sys, acts, w) == Guarantees.EventsAmong(SeenRun(sys, acts), w)
    decreases |acts|
  {
    if acts != [] {
      EventsReadAre(Next(sys, acts[0]), acts[1..], w.Heard(Seen(sys, acts[0])));
      var seen := SeenRun(sys, acts);
      assert seen[0] == Seen(sys, acts[0]) && seen[1..] == SeenRun(Next(sys, acts[0]), acts[1..]);
    }
  }

  /**
   * The events handed out followed by those queued are, in the order sent, all
   * packets read that are no answers, and the errors of requests sent without
   * flags and not discarded before the error was read.
   */
  lemma EventsDelivered(acts: seq<Action>)
    requires Proper(acts)
    ensures EventsHanded(Outputs(Protocol.START, acts)) + Run(Protocol.START, acts).client.events
      == EventsRead(Protocol.START, acts, Guarantees.NO_WISHES)
  {
    var seen := SeenRun(Protocol.START, acts);
    ProperRun(acts);
    EventsHandedAre(Router.START, seen);
    Guarantees.EventsConserved(Router.START, seen);
    Guarantees.EventsArrivedAreAll(Router.START, seen, Guarantees.NO_WISHES);
    EventsReadAre(Protocol.START, acts, Guarantees.NO_WISHES);
  }

  lemma {:induction false} SeenAt(sys: System, acts: seq<Action>, i: nat)
    requires i < |acts|
    ensures |SeenRun(sys, acts)| == |Outputs(sys, acts)| == |acts|
    ensures acts[i].PollReply? ==> SeenRun(sys, acts)[i] == Router.Polling(acts[i].n)
    ensures SeenRun(sys, acts)[i].Polling? ==> acts[i] == PollReply(SeenRun(sys, acts)[i].n)
    decreases |acts|
  {
    if i > 0 {
      SeenAt(Next(sys, acts[0]), acts[1..], i - 1);
    } else if |acts| > 1 {
      SeenAt(Next(sys, acts[0]), acts[1..], 0);
    }
  }

  /** A run that goes on from where a proper one ended. */
  ghost predicate Continues(before: seq<Action>, after: seq<Action>) {
    && Proper(before)
    && LegalRun(Run(Protocol.START, before), after)
    && Timely(After(before), SeenRun(Run(Protocol.START, before), after))
  }

  lemma Continuation(before: seq<Action>, after: seq<Action>)
    requires Continues(before, after)
    ensures var sys, r := Run(Protocol.START, before), After(before);
      var seen := SeenRun(sys, after);
      && InStep(sys, r) && InWindow(r)
      && InStep(Run(sys, after), Router.Run(r, seen)) && InWindow(Router.Run(r, seen))
      && |seen| == |after|
      && Outputs(sys, after) == Router.Results(r, seen)
      && Guarantees.Orderly(r, seen)
      && (forall i :: 0 <= i < |after| && after[i].PollReply? ==> seen[i] == Router.Polling(after[i].n))
  {
    var sys, r := Run(Protocol.START, before), After(before);
    ProperRun(before);
    RunInStep(sys, r, after);
    RunIsOrderly(sys, r, after);
    EndsTimely(r, SeenRun(sys, after));
    AnswersHandedAre(sys, r, after, 0);
    forall i | 0 <= i < |after| && after[i].PollReply? ensures SeenRun(sys, after)[i] == Router.Polling(after[i].n) {
      SeenAt(sys, after, i);
    }
  }

  /**
   * When a poll says that a request has nothing more, that is so: whatever
   * happens next, no poll for it finds anything and nothing is stored for it.
   */
  lemma NothingMeansNever(before: seq<Action>, k: nat, after: seq<Action>)
    requires Continues(before, after)
    requires var sys := Run(Protocol.START, before);
      Legal(sys, PollReply(k)) && sys.newest - k < TWO31 && Output(sys, PollReply(k)) == Router.Answer(Done(None))
    ensures var sys := Run(Protocol.START, before);
      && |Outputs(sys, after)| == |after|
      && (forall i :: 0 <= i < |after| && after[i] == PollReply(k) ==> Outputs(sys, after)[i] == Router.Answer(Done(None)))
      && (k <= Run(sys, after).newest < k + TWO31 && k <= Run(sys, after).client.read ==> Stored(Run(sys, after).client, k) == [])
  {
    var sys, r := Run(Protocol.START, before), After(before);
    var seen := SeenRun(sys, after);
    Continuation(before, after);
    PollSimulates(sys.client, r, k);
    Guarantees.NothingIsFinal(r, seen, k);
    var final := Run(sys, after);
    if k <= final.newest < k + TWO31 {
      StoredIsQueue(final.client, Router.Run(r, seen), k);
    }
  }

  // ----- discarding -----

  /** Two systems that differ at most in what the client stores and has registered. */
  ghost predicate SameWorld(a: System, b: System) {
    && a.newest == b.newest && a.written == b.written && a.owing == b.owing
    && a.stream == b.stream && a.taken == b.taken
    && a.client.read == b.client.read && a.client.expected == b.client.expected
  }

  lemma SameStep(a: System, b: System, act: Action)
    requires SameWorld(a, b)
    ensures Legal(a, act) <==> Legal(b, act)
    ensures Seen(a, act) == Seen(b, act)
    ensures SameWorld(Next(a, act), Next(b, act))
  {
    match act
    case SendRequest(isVoid, flags, _) =>
      IssueCounts(a.client, a.newest, isVoid, flags);
      IssueCounts(b.client, b.newest, isVoid, flags);
    case ReadPacket =>
      if a.taken < |a.stream| {
        ReceiveCounts(a.client, a.stream[a.taken].p);
        ReceiveCounts(b.client, b.stream[b.taken].p);
      }
    case _ =>
  }

  /** Neither numbering, nor the server, nor the wire depends on what is stored. */
  lemma {:induction false} SameRun(a: System, b: System, acts: seq<Action>)
    requires SameWorld(a, b)
    ensures LegalRun(a, acts) <==> LegalRun(b, acts)
    ensures SeenRun(a, acts) == SeenRun(b, acts)
    decreases |acts|
  {
    if acts != [] {
      SameStep(a, b, acts[0]);
      SameRun(Next(a, acts[0]), Next(b, acts[0]), acts[1..]);
    }
  }

  lemma AlikeWindow(u: Router.Router, d: Router.Router, k: nat)
    requires Guarantees.AlikeBut(u, d, k) && InWindow(u)
    requires forall n :: n in d.queues ==> d.queues[n] != []
    ensures InWindow(d)
  {
    forall n | n in d.queues ensures n in u.queues {
      assert n != k && Guarantees.Same(u, d, n);
    }
  }

  /** Discarding keeps the run within what cookies can express. */
  lemma {:induction false} AlikeTimely(u: Router.Router, d: Router.Router, acts: seq<Router.Action>, k: nat)
    requires Guarantees.AlikeBut(u, d, k) && Timely(u, acts)
    requires forall n :: n in d.queues ==> d.queues[n] != []
    ensures Timely(d, acts)
    decreases |acts|
  {
    AlikeWindow(u, d, k);
    if acts != [] {
      Guarantees.AlikeStep(u, d, acts[0], k);
      AlikeTimely(Router.Next(u, acts[0]), Router.Next(d, acts[0]), acts[1..], k);
    }
  }

  lemma DiscardAlike(r: Router.Router, k: nat)
    requires k <= r.issued
    ensures Guarantees.AlikeBut(r, Router.Next(r, Router.Discarding(k)), k)
  {
    forall n | n != k ensures Guarantees.Same(r, Router.Next(r, Router.Discarding(k)), n) {
    }
  }

  /** A run after a discard and the same run without it, and the routers that match them. */
  ghost predicate Parted(sys: System, r: Router.Router, without: System, d: Router.Router, after: seq<Action>, k: nat) {
    var seen := SeenRun(sys, after);
    && LegalRun(without, after) && SeenRun(without, after) == seen && |seen| == |after|
    && Guarantees.AlikeBut(r, d, k)
    && Outputs(sys, after) == Router.Results(r, seen) && Outputs(without, after) == Router.Results(d, seen)
    && Run(sys, after).client.events == Router.Run(r, seen).events
    && Run(without, after).client.events == Router.Run(d, seen).events
    && (forall i :: 0 <= i < |after| && after[i].PollReply? ==> seen[i] == Router.Polling(after[i].n))
  }

  lemma DiscardParts(before: seq<Action>, k: nat, after: seq<Action>)
    requires Continues(before, after)
    requires Legal(Run(Protocol.START, before), DiscardReply(k)) && Run(Protocol.START, before).newest - k < TWO31
    ensures var sys, r := Run(Protocol.START, before), After(before);
      var d := Router.Next(r, Router.Discarding(k));
      Parted(sys, r, Next(sys, DiscardReply(k)), d, after, k) && sys.client.events == r.events == d.events
  {
    var sys, r := Run(Protocol.START, before), After(before);
    var without, d := Next(sys, DiscardReply(k)), Router.Next(r, Router.Discarding(k));
    var seen := SeenRun(sys, after);
    Continuation(before, after);
    StepInStep(sys, r, DiscardReply(k));
    SameRun(sys, without, after);
    DiscardAlike(r, k);
    AlikeTimely(r, d, seen, k);
    RunInStep(without, d, after);
  }

  lemma PartedPolls(sys: System, r: Router.Router, without: System, d: Router.Router, after: seq<Action>, k: nat)
    requires Parted(sys, r, without, d, after, k)
    ensures var kept, dropped := Outputs(sys, after), Outputs(without, after);
      && |kept| == |dropped| == |after|
      && (forall i :: 0 <= i < |after| && after[i].PollReply? && after[i].n != k ==> dropped[i] == kept[i])
      && (forall i :: 0 <= i < |after| && after[i] == PollReply(k) ==>
            dropped[i] == Router.Answer(Block) || dropped[i] == Router.Answer(Done(None)))
  {
    Guarantees.DiscardIsLocal(r, d, SeenRun(sys, after), k);
  }

  lemma PartedEvents(sys: System, r: Router.Router, without: System, d: Router.Router, after: seq<Action>, k: nat)
    requires Parted(sys, r, without, d, after, k)
    ensures EventsHanded(Outputs(sys, after)) + Run(sys, after).client.events
      == r.events + Guarantees.EventsArrived(r, SeenRun(sys, after))
    ensures EventsHanded(Outputs(without, after)) + Run(without, after).client.events
      == d.events + Guarantees.EventsArrivedBut(r, SeenRun(sys, after), k)
  {
    var seen := SeenRun(sys, after);
    Guarantees.DiscardIsLocal(r, d, seen, k);
    Guarantees.EventsConserved(r, seen);
    Guarantees.EventsConserved(d, seen);
    EventsHandedAre(r, seen);
    EventsHandedAre(d, seen);
  }

  /**
   * Discarding request k and then letting any run happen gives every other
   * request the same answers as not discarding it, gives k none, and gives the
   * same events without the errors of k that arrive afterwards.
   */
  lemma DiscardIsLocal(before: seq<Action>, k: nat, after: seq<Action>)
    requires Continues(before, after)
    requires Legal(Run(Protocol.START, before), DiscardReply(k)) && Run(Protocol.START, before).newest - k < TWO31
    ensures var sys := Run(Protocol.START, before);
      var without := Next(sys, DiscardReply(k));
      var kept, dropped := Outputs(sys, after), Outputs(without, after);
      && LegalRun(without, after)
      && |kept| == |dropped| == |after|
      && (forall i :: 0 <= i < |after| && after[i].PollReply? && after[i].n != k ==> dropped[i] == kept[i])
      && (forall i :: 0 <= i < |after| && after[i] == PollReply(k) ==>
            dropped[i] == Router.Answer(Block) || dropped[i] == Router.Answer(Done(None)))
      && EventsHanded(kept) + Run(sys, after).client.events
         == sys.client.events + Guarantees.EventsArrived(After(before), SeenRun(sys, after))
      && EventsHanded(dropped) + Run(without, after).client.events
         == sys.client.events + Guarantees.EventsArrivedBut(After(before), SeenRun(sys, after), k)
  {
    var sys, r := Run(Protocol.START, before), After(before);
    var without, d := Next(sys, DiscardReply(k)), Router.Next(r, Router.Discarding(k));
    DiscardParts(before, k, after);
    PartedPolls(sys, r, without, d, after, k);
    PartedEvents(sys, r, without, d, after, k);
  }
}
