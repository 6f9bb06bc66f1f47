/**
 * What the Router promises an application over whole runs: nothing is lost,
 * repeated or reordered, a definite "nothing" is final, and discarding one
 * request's answers changes nothing else.
 */
module Guarantees {
  import opened Wrappers
  import opened Sequence
  import opened Packets
  import opened Inbound
  import opened Router

  // ----- conservation -----

  /** The event a step hands out. */
  function EventOut(r: Router, a: Action): seq<Event> {
    if a.Taking? && r.events != [] then [r.events[0]] else []
  }

  /** The event, or the error nobody asked for, that a step brings in. */
  function EventIn(r: Router, a: Action): seq<Event> {
    if a.Arrived? && Destine(r, a.n, a.p) == ToEvents then [Event(a.p, Cookie(a.n))] else []
  }

  /** The answer to request k a step hands out. */
  function AnswerOut(r: Router, a: Action, k: nat): seq<Packet> {
    if a == Polling(k) && Queue(r, k) != [] then [Queue(r, k)[0]] else []
  }

  /** The reply to request k, or its error if that is checked, that a step brings in. */
  function AnswerIn(r: Router, a: Action, k: nat): seq<Packet> {
    if a.Arrived? && a.n == k && Destine(r, k, a.p) == ToRequest then [a.p] else []
  }

  function EventsTaken(r: Router, acts: seq<Action>): seq<Event>
    decreases |acts|
  {
    if acts == [] then [] else EventOut(r, acts[0]) + EventsTaken(Next(r, acts[0]), acts[1..])
  }

  function EventsArrived(r: Router, acts: seq<Action>): seq<Event>
    decreases |acts|
  {
    if acts == [] then [] else EventIn(r, acts[0]) + EventsArrived(Next(r, acts[0]), acts[1..])
  }

  function AnswersTaken(r: Router, acts: seq<Action>, k: nat): seq<Packet>
    decreases |acts|
  {
    if acts == [] then [] else AnswerOut(r, acts[0], k) + AnswersTaken(Next(r, acts[0]), acts[1..], k)
  }

  function AnswersArrived(r: Router, acts: seq<Action>, k: nat): seq<Packet>
    decreases |acts|
  {
    if acts == [] then [] else AnswerIn(r, acts[0], k) + AnswersArrived(Next(r, acts[0]), acts[1..], k)
  }

  /** A queue from which `out` leaves and to which `in_` is added, in two successive stretches. */
  lemma Conserve<T>(out: seq<T>, out': seq<T>, before: seq<T>, between: seq<T>, after: seq<T>, in_: seq<T>, in': seq<T>)
    requires out + between == before + in_ && out' + after == between + in'
    ensures (out + out') + after == before + (in_ + in')
  {
    calc {
      (out + out') + after;
      out + (out' + after);
      (out + between) + in';
      before + (in_ + in');
    }
  }

  lemma EventStep(r: Router, a: Action)
    ensures EventOut(r, a) + Next(r, a).events == r.events + EventIn(r, a)
  {
  }

  /** Events handed out and events still queued are, in order, the events that arrived. */
  lemma {:induction false} EventsConserved(r: Router, acts: seq<Action>)
    ensures EventsTaken(r, acts) + Run(r, acts).events == r.events + EventsArrived(r, acts)
    decreases |acts|
  {
    if acts != [] {
      var next, rest := Next(r, acts[0]), acts[1..];
      EventsConserved(next, rest);
      EventStep(r, acts[0]);
      Conserve(EventOut(r, acts[0]), EventsTaken(next, rest), r.events, next.events, Run(r, acts).events,
               EventIn(r, acts[0]), EventsArrived(next, rest));
    }
  }

  lemma QueueStep(r: Router, a: Action, k: nat)
    requires a != Discarding(k)
    ensures AnswerOut(r, a, k) + Queue(Next(r, a), k) == Queue(r, k) + AnswerIn(r, a, k)
  {
  }

  /** The same for the answers to one request, as long as they are not discarded. */
  lemma {:induction false} AnswersConserved(r: Router, acts: seq<Action>, k: nat)
    requires Discarding(k) !in acts
    ensures AnswersTaken(r, acts, k) + Queue(Run(r, acts), k) == Queue(r, k) + AnswersArrived(r, acts, k)
    decreases |acts|
  {
    if acts != [] {
      var next, rest := Next(r, acts[0]), acts[1..];
      AnswersConserved(next, rest, k);
      QueueStep(r, acts[0], k);
      Conserve(AnswerOut(r, acts[0], k), AnswersTaken(next, rest, k), Queue(r, k), Queue(next, k), Queue(Run(r, acts), k),
               AnswerIn(r, acts[0], k), AnswersArrived(next, rest, k));
    }
  }

  /** A packet handed out for a request had been stored for it, or came in as an answer to it. */
  lemma {:induction false} AnswersCameIn(r: Router, acts: seq<Action>, i: nat, k: nat, p: Packet)
    requires i < |acts| && acts[i] == Polling(k) && Results(r, acts)[i] == Answer(Done(Some(p)))
    ensures p in Queue(r, k) || (p.IsAnswer() && exists j :: 0 <= j < i && acts[j] == Arrived(k, p))
    decreases |acts|
  {
    if i > 0 {
      var a, next := acts[0], Next(r, acts[0]);
      AnswersCameIn(next, acts[1..], i - 1, k, p);
      if p in Queue(next, k) {
        QueueGrows(r, a, k, p);
      } else {
        var j :| 0 <= j < i - 1 && acts[1..][j] == Arrived(k, p);
        assert acts[j + 1] == Arrived(k, p);
      }
    }
  }

  lemma QueueGrows(r: Router, a: Action, k: nat, p: Packet)
    requires p in Queue(Next(r, a), k)
    ensures p in Queue(r, k) || (p.IsAnswer() && a == Arrived(k, p))
  {
  }

  // ----- which answers those are -----

  /** Packets are for requests already issued, numbered in order, none answered after it failed. */
  ghost predicate Orderly(r: Router, acts: seq<Action>)
    decreases |acts|
  {
    && r.latest <= r.issued
    && (forall n :: n in r.registered ==> n <= r.issued)
    && (acts != [] ==>
          && (acts[0].Arrived? ==> r.latest <= acts[0].n <= r.issued && (acts[0].p.IsAnswer() ==> acts[0].n !in r.failed))
          && (acts[0].Discarding? ==> acts[0].n <= r.issued)
          && Orderly(Next(r, acts[0]), acts[1..]))
  }

  /** All packets of a run that answer request k: its replies, and its errors if checked. */
  function AnswersTo(acts: seq<Action>, k: nat, checked: bool): seq<Packet>
    decreases |acts|
  {
    if acts == [] then [] else
      (if acts[0].Arrived? && acts[0].n == k && (acts[0].p.IsReply() || (acts[0].p.IsError() && checked))
       then [acts[0].p] else []) + AnswersTo(acts[1..], k, checked)
  }

  /** Once issued, a request keeps its registration until it is discarded. */
  lemma {:induction false} RegistrationStays(r: Router, acts: seq<Action>, k: nat)
    requires Orderly(r, acts) && Discarding(k) !in acts && k <= r.issued
    ensures Registration(Run(r, acts), k) == Registration(r, k)
    decreases |acts|
  {
    if acts != [] {
      RegistrationStays(Next(r, acts[0]), acts[1..], k);
    }
  }

  /** The answers filed for a request are all its replies, and all its errors if it was checked. */
  lemma {:induction false} AnswersArrivedAreAll(r: Router, acts: seq<Action>, k: nat)
    requires Orderly(r, acts) && Discarding(k) !in acts
    requires !Registration(Run(r, acts), k).discard
    ensures AnswersArrived(r, acts, k) == AnswersTo(acts, k, Registration(Run(r, acts), k).checked)
    decreases |acts|
  {
    if acts != [] {
      AnswersArrivedAreAll(Next(r, acts[0]), acts[1..], k);
      if acts[0].Arrived? && acts[0].n == k {
        RegistrationStays(r, acts, k);
      }
    }
  }

  /** What the application and the library asked for, request by request, and which requests were discarded. */
  datatype Wishes = Wishes(issued: nat, asked: map<nat, Flags>, gone: set<nat>) {
    function Of(n: nat): Flags { if n in asked then asked[n] else NO_FLAGS }

    function Heard(a: Action): Wishes {
      match a
      case Issued(synced, flags) =>
        if synced then Wishes(issued + 2, asked[issued + 1 := DISCARD][issued + 2 := flags], gone)
        else Wishes(issued + 1, asked[issued + 1 := flags], gone)
      case Discarding(n) => Wishes(issued, asked, gone + {n})
      case _ => this
    }

    /** A packet is an event if it is no answer, or the error of a request sent without flags and not discarded so far. */
    predicate IsEvent(n: nat, p: Packet) {
      !p.IsAnswer() || (p.IsError() && Of(n) == NO_FLAGS && n !in gone)
    }
  }

  const NO_WISHES := Wishes(0, map[], {})

  /** All events of a run, told from its packets, requests and discards alone. */
  function EventsAmong(acts: seq<Action>, w: Wishes): seq<Event>
    decreases |acts|
  {
    if acts == [] then [] else
      (if acts[0].Arrived? && w.IsEvent(acts[0].n, acts[0].p) then [Event(acts[0].p, Cookie(acts[0].n))] else [])
      + EventsAmong(acts[1..], w.Heard(acts[0]))
  }

  /** Registrations are the wishes. */
  ghost predicate Heeds(r: Router, w: Wishes) {
    && r.issued == w.issued
    && (forall n :: n in r.registered ==> n <= r.issued)
    && (forall n :: n in w.gone ==> n <= r.issued)
    && (forall n: nat :: n <= r.issued ==> Heeded(r, w, n))
  }

  predicate Heeded(r: Router, w: Wishes, n: nat) {
    Registration(r, n) == w.Of(n).(discard := w.Of(n).discard || n in w.gone)
  }

  lemma IssueHeeds(r: Router, w: Wishes, flags: Flags)
    requires Heeds(r, w)
    ensures Heeds(Register(r, flags), Wishes(w.issued + 1, w.asked[w.issued + 1 := flags], w.gone))
  {
    var r', w' := Register(r, flags), Wishes(w.issued + 1, w.asked[w.issued + 1 := flags], w.gone);
    forall n: nat | n <= r'.issued ensures Heeded(r', w', n) {
      assert n <= r.issued ==> Heeded(r, w, n);
    }
  }

  lemma StepHeeds(r: Router, w: Wishes, a: Action)
    requires Heeds(r, w) && (a.Discarding? ==> a.n <= r.issued)
    ensures Heeds(Next(r, a), w.Heard(a))
  {
    var r', w' := Next(r, a), w.Heard(a);
    match a
    case Issued(synced, flags) =>
      if synced {
        IssueHeeds(r, w, DISCARD);
        IssueHeeds(Register(r, DISCARD), Wishes(w.issued + 1, w.asked[w.issued + 1 := DISCARD], w.gone), flags);
      } else {
        IssueHeeds(r, w, flags);
      }
    case _ =>
      forall n: nat | n <= r'.issued ensures Heeded(r', w', n) {
        assert Heeded(r, w, n);
      }
  }

  /** What the router files as events is exactly that. */
  lemma {:induction false} EventsArrivedAreAll(r: Router, acts: seq<Action>, w: Wishes)
    requires Orderly(r, acts) && Heeds(r, w)
    ensures EventsArrived(r, acts) == EventsAmong(acts, w)
    decreases |acts|
  {
    if acts != [] {
      StepHeeds(r, w, acts[0]);
      EventsArrivedAreAll(Next(r, acts[0]), acts[1..], w.Heard(acts[0]));
      if acts[0].Arrived? {
        assert Heeded(r, w, acts[0].n);
      }
    }
  }

  // ----- a definite nothing -----

  /** Once a poll says there is nothing, no later packet is filed for the request and no poll finds one. */
  lemma {:induction false} NothingIsFinal(r: Router, acts: seq<Action>, k: nat)
    requires Orderly(r, acts) && Decided(r, k) && Queue(r, k) == []
    ensures AnswersArrived(r, acts, k) == [] && Queue(Run(r, acts), k) == []
    ensures forall i :: 0 <= i < |acts| && acts[i] == Polling(k) ==> Results(r, acts)[i] == Answer(Done(None))
    decreases |acts|
  {
    if acts != [] {
      NothingIsFinal(Next(r, acts[0]), acts[1..], k);
    }
  }

  /** And only then: while a poll would block, the server may still answer the request. */
  lemma BlockingIsNeeded(r: Router, k: nat, p: Packet)
    requires r.latest <= k && k !in r.failed && Queue(r, k) == [] && p.IsReply()
    requires !Registration(r, k).discard
    ensures Result(r, Polling(k)) == Answer(Block)
    ensures Result(Next(r, Arrived(k, p)), Polling(k)) == Answer(Done(Some(p)))
  {
  }

  // ----- discarding -----

  /** Two routers that differ only in that one of them has discarded request k. */
  ghost predicate AlikeBut(u: Router, d: Router, k: nat) {
    && u.issued == d.issued >= k && u.latest == d.latest && u.failed == d.failed
    && (forall n :: n != k ==> Same(u, d, n))
    && Registration(d, k).discard && Queue(d, k) == []
  }

  predicate Same(u: Router, d: Router, n: nat) {
    Registration(u, n) == Registration(d, n) && Queue(u, n) == Queue(d, n)
  }

  predicate IsErrorOf(a: Action, k: nat) {
    a.Arrived? && a.n == k && a.p.IsError()
  }

  lemma SameRegister(u: Router, d: Router, flags: Flags, n: nat)
    requires u.issued == d.issued && Same(u, d, n)
    ensures Same(Register(u, flags), Register(d, flags), n)
  {
  }

  lemma ArriveAt(r: Router, m: nat, p: Packet, n: nat)
    ensures Registration(Arrive(r, m, p), n) == Registration(r, n)
    ensures Queue(Arrive(r, m, p), n) == if m == n && Destine(r, n, p) == ToRequest then Queue(r, n) + [p] else Queue(r, n)
  {
  }

  lemma SameArrive(u: Router, d: Router, m: nat, p: Packet, n: nat)
    requires Same(u, d, n)
    ensures Same(Arrive(u, m, p), Arrive(d, m, p), n)
  {
    ArriveAt(u, m, p, n);
    ArriveAt(d, m, p, n);
  }

  /** What a step does to one request depends on nothing else. */
  lemma SameStep(u: Router, d: Router, a: Action, n: nat)
    requires u.issued == d.issued && Same(u, d, n)
    ensures Same(Next(u, a), Next(d, a), n)
  {
    match a
    case Issued(synced, flags) =>
      SameRegister(u, d, DISCARD, n);
      SameRegister(u, d, flags, n);
      SameRegister(Register(u, DISCARD), Register(d, DISCARD), flags, n);
    case Arrived(m, p) => SameArrive(u, d, m, p, n);
    case _ =>
  }

  lemma AlikeOutputs(u: Router, d: Router, a: Action, k: nat)
    requires AlikeBut(u, d, k)
    ensures a.Polling? && a.n != k ==> Result(d, a) == Result(u, a)
    ensures a == Polling(k) ==> Result(d, a) == Answer(if Decided(u, k) then Done(None) else Block)
    ensures EventIn(d, a) == if IsErrorOf(a, k) then [] else EventIn(u, a)
  {
    assert a.Arrived? && a.n != k ==> Same(u, d, a.n);
    assert a.Polling? && a.n != k ==> Same(u, d, a.n);
  }

  lemma StaysDiscarded(d: Router, a: Action, k: nat)
    requires k <= d.issued && Registration(d, k).discard && Queue(d, k) == []
    ensures Registration(Next(d, a), k).discard && Queue(Next(d, a), k) == []
  {
  }

  lemma AlikeStep(u: Router, d: Router, a: Action, k: nat)
    requires AlikeBut(u, d, k)
    ensures AlikeBut(Next(u, a), Next(d, a), k)
    ensures a.Polling? && a.n != k ==> Result(d, a) == Result(u, a)
    ensures a == Polling(k) ==> Result(d, a) == Answer(if Decided(u, k) then Done(None) else Block)
    ensures EventIn(d, a) == if IsErrorOf(a, k) then [] else EventIn(u, a)
  {
    AlikeOutputs(u, d, a, k);
    StaysDiscarded(d, a, k);
    forall n | n != k ensures Same(Next(u, a), Next(d, a), n) {
      SameStep(u, d, a, n);
    }
  }

  /** The events of a run without the errors of request k. */
  function EventsArrivedBut(r: Router, acts: seq<Action>, k: nat): seq<Event>
    decreases |acts|
  {
    if acts == [] then [] else
      (if IsErrorOf(acts[0], k) then [] else EventIn(r, acts[0])) + EventsArrivedBut(Next(r, acts[0]), acts[1..], k)
  }

  /**
   * After a discard every other request is answered as without it, the events
   * are the same but for the request's errors, and the request has no answers.
   */
  lemma {:induction false} DiscardIsLocal(u: Router, d: Router, acts: seq<Action>, k: nat)
    requires AlikeBut(u, d, k)
    ensures forall i :: 0 <= i < |acts| && acts[i].Polling? && acts[i].n != k ==> Results(d, acts)[i] == Results(u, acts)[i]
    ensures forall i :: 0 <= i < |acts| && acts[i] == Polling(k) ==>
        Results(d, acts)[i] == Answer(Block) || Results(d, acts)[i] == Answer(Done(None))
    ensures EventsArrived(d, acts) == EventsArrivedBut(u, acts, k)
    ensures AlikeBut(Run(u, acts), Run(d, acts), k)
    decreases |acts|
  {
    if acts != [] {
      AlikeStep(u, d, acts[0], k);
      DiscardIsLocal(Next(u, acts[0]), Next(d, acts[0]), acts[1..], k);
    }
  }
}
