/**
 * Who is woken by what read_packet stores: no thread sleeps beside its own
 * reply, or for an event that is queued, unless one that comes before it is
 * awake.
 */
module ThreadWaking {
  import opened Wrappers
  import opened Sequence
  import opened Packets
  import opened Inbound
  import opened Readers
  import opened Threads
  import opened ThreadSafety
  import opened ThreadSteps
  import opened ThreadDelivery
  import ClientGuarantees
  import Delivery
  import LinkedMap
  import Protocol
  import Refinement
  import Router

  // ----- one packet -----

  predicate WaitsFor(pc: Pc, n: nat) { pc.ReplyWait? && pc.n == n }

  /** Awake, or polling. */
  predicate Up(pc: Pc) { pc.ReplyWait? && pc.stage != Asleep }

  /** The packet went to the replies of the request it is numbered with. */
  predicate Appended(before: Inbound, p: Packet, after: Inbound) {
    after.current == (if after.read == before.read then before.current else []) + [p]
  }

  /** A reply, or a checked error, leaves one of the threads that wait for its request awake if there is any. */
  lemma ReplyWakes(sys: System, a: Arrival)
    requires ListsWaiters(sys.threads, sys.readers)
    requires var s := ReadPacket(sys, a); Near(sys.readers, s.inb.read) && Appended(sys.inb, a.p, s.inb)
    ensures var s := ReadPacket(sys, a);
      (exists t :: WaitsFor(At(sys.threads, t), s.inb.read)) ==> exists t :: WaitsFor(At(s.threads, t), s.inb.read) && Up(At(s.threads, t))
  {
    var s := ReadPacket(sys, a);
    var n := s.inb.read;
    WaiterIsFound(sys.readers, n);
    if t :| WaitsFor(At(sys.threads, t), n) {
      assert Reader(n, t) in sys.readers;
      var w := FirstWaiting(sys.readers, n).value;
      assert WaitsFor(At(s.threads, w), n) && Up(At(s.threads, w));
    }
  }

  /** An event wakes one of the threads that sleep for one, if there is any. */
  lemma EventWakes(sys: System, a: Arrival)
    requires |ReadPacket(sys, a).inb.events| > |sys.inb.events|
    ensures (exists t :: SleepsForEvent(At(sys.threads, t))) ==>
      exists t :: SleepsForEvent(At(sys.threads, t)) && ReadPacket(sys, a).threads == sys.threads[t := EventWait(Woken)]
  {
  }

  // ----- events -----

  ghost function WokenForEvents(threads: map<nat, Pc>): set<nat> {
    set t | t in threads && threads[t] == EventWait(Woken)
  }

  /** If a thread sleeps for an event, every queued event has a woken thread of its own. */
  ghost predicate EventsHeard(sys: System) {
    (exists t :: SleepsForEvent(At(sys.threads, t))) ==> |sys.inb.events| <= |WokenForEvents(sys.threads)|
  }

  lemma SubsetSize(a: set<nat>, b: set<nat>)
    requires a <= b
    ensures |a| <= |b|
  {
    assert b == a + (b - a);
  }

  /** Events leave the queue only to threads that were not counted on, or take one each. */
  lemma EventsKept(sys: System, s: System, t: nat)
    requires EventsHeard(sys) && Nudges(sys, s, t) && |s.inb.events| <= |sys.inb.events|
    requires SleepsForEvent(At(s.threads, t)) ==> SleepsForEvent(At(sys.threads, t)) || s.inb.events == []
    requires At(sys.threads, t) == EventWait(Woken) ==>
      At(s.threads, t) == EventWait(Woken) || |s.inb.events| < |sys.inb.events| || s.inb.events == []
    ensures EventsHeard(s)
  {
    if (exists u :: SleepsForEvent(At(s.threads, u))) && s.inb.events != [] {
      var u :| SleepsForEvent(At(s.threads, u));
      assert SleepsForEvent(At(sys.threads, u)) by {
        assert u != t ==> Nudged(At(sys.threads, u), At(s.threads, u));
      }
      var before, after := WokenForEvents(sys.threads), WokenForEvents(s.threads);
      forall v | v in before && v != t ensures v in after {
        assert Nudged(At(sys.threads, v), At(s.threads, v));
      }
      if t in before && t !in after {
        SubsetSize(before - {t}, after);
      } else {
        SubsetSize(before, after);
      }
    }
  }

  lemma ReadHearsEvents(sys: System, a: Arrival)
    requires EventsHeard(sys)
    ensures EventsHeard(ReadPacket(sys, a))
  {
    var s := ReadPacket(sys, a);
    OneReadStirs(sys, a);
    if |s.inb.events| <= |sys.inb.events| {
      StirringNudges(sys, s, 0);
      assert Stirred(At(sys.threads, 0), At(s.threads, 0));
      EventsKept(sys, s, 0);
    } else if u :| SleepsForEvent(At(s.threads, u)) {
      assert Stirred(At(sys.threads, u), At(s.threads, u));
      EventWakes(sys, a);
      var t :| SleepsForEvent(At(sys.threads, t)) && s.threads == sys.threads[t := EventWait(Woken)];
      assert WokenForEvents(s.threads) == WokenForEvents(sys.threads) + {t};
    }
  }

  lemma OneReadStirs(sys: System, a: Arrival)
    ensures AllStirred(sys.threads, ReadPacket(sys, a).threads)
  {
    ReadPacketsOnlyReads(sys, [a]);
    assert [a][1..] == [] && ReadPackets(ReadPacket(sys, a), []) == ReadPacket(sys, a);
  }

  // ----- replies -----

  /** Replies are stored for request n. */
  predicate Stored(inb: Inbound, n: nat) {
    (n == inb.read && inb.current != []) || LinkedMap.Find(inb.replies, Cookie(n)).Some?
  }

  /** A thread waiting for this request or an earlier one is awake. */
  ghost predicate Served(threads: map<nat, Pc>, n: nat) {
    exists w :: Up(At(threads, w)) && At(threads, w).n <= n
  }

  /** If replies are stored for a request somebody waits for, somebody who waits for it or an earlier one is awake. */
  ghost predicate RepliesHeard(sys: System) {
    forall t :: At(sys.threads, t).ReplyWait? && Stored(sys.inb, At(sys.threads, t).n) ==> Served(sys.threads, At(sys.threads, t).n)
  }

  /** Cookies tell the numbers in use apart. */
  ghost predicate Window(inb: Inbound, request: nat) {
    && inb.read <= request < inb.read + TWO31
    && forall k :: LinkedMap.Find(inb.replies, k).Some? ==> exists m: nat :: Key(k, m, inb.read, request)
  }

  predicate Key(k: nat, m: nat, read: nat, request: nat) {
    k == Cookie(m) && m < read && request - m < TWO31
  }

  ghost predicate Recent(n: nat, request: nat) {
    n <= request && request - n < TWO31
  }

  lemma StoredIsOld(inb: Inbound, request: nat, n: nat)
    requires Window(inb, request) && Recent(n, request) && LinkedMap.Find(inb.replies, Cookie(n)).Some?
    ensures n < inb.read
  {
    var m: nat :| Key(Cookie(n), m, inb.read, request);
    Compare32Equal(n, m);
  }

  lemma {:induction false} FindAppended(replies: seq<(nat, seq<Packet>)>, key: nat, q: seq<Packet>, k: nat)
    ensures LinkedMap.Find(replies + [(key, q)], k)
      == if LinkedMap.Find(replies, k).Some? then LinkedMap.Find(replies, k) else if k == key then Some(q) else None
  {
    var longer := replies + [(key, q)];
    if replies != [] {
      FindAppended(replies[1..], key, q, k);
      assert longer[1..] == replies[1..] + [(key, q)];
    }
  }

  lemma {:induction false} FindWithout(replies: seq<(nat, seq<Packet>)>, key: nat, k: nat)
    ensures LinkedMap.Find(LinkedMap.Without(replies, key), k).Some? ==> LinkedMap.Find(replies, k).Some?
  {
    if replies != [] {
      FindWithout(replies[1..], key, k);
      if replies[0].0 != key {
        assert ([replies[0]] + LinkedMap.Without(replies[1..], key))[1..] == LinkedMap.Without(replies[1..], key);
      }
    }
  }

  /** Reading a packet stores replies for no request but the one it is numbered with. */
  lemma ReadStores(inb: Inbound, p: Packet, request: nat, n: nat)
    requires Window(inb, request) && Recent(n, request) && Receive(inb, p).read <= request
    ensures Stored(Receive(inb, p), n) ==> Stored(inb, n) || (n == Receive(inb, p).read && Appended(inb, p, Receive(inb, p)))
  {
    if Receive(inb, p).read != inb.read {
      FindAppended(inb.replies, Cookie(inb.read), inb.current, Cookie(n));
      Compare32Equal(n, inb.read);
    }
  }

  lemma ReadWindow(inb: Inbound, p: Packet, request: nat)
    requires Window(inb, request) && Receive(inb, p).read <= request
    ensures inb.read <= Receive(inb, p).read && Window(Receive(inb, p), request)
  {
    var after := Receive(inb, p);
    forall k | LinkedMap.Find(after.replies, k).Some? ensures exists m: nat :: Key(k, m, after.read, request) {
      if after.replies == inb.replies {
        var m: nat :| Key(k, m, inb.read, request);
        assert Key(k, m, after.read, request);
      } else {
        FindAppended(inb.replies, Cookie(inb.read), inb.current, k);
        if LinkedMap.Find(inb.replies, k).Some? {
          var m: nat :| Key(k, m, inb.read, request);
          assert Key(k, m, after.read, request);
        } else {
          assert Key(k, inb.read, after.read, request);
        }
      }
    }
  }

  lemma WaiterIsRecent(sys: System, t: nat)
    requires Sound(sys) && Roomy(sys) && At(sys.threads, t).ReplyWait?
    ensures Recent(At(sys.threads, t).n, sys.request)
  {
    assert Fine(sys, At(sys.threads, t));
    AwaitedNear(sys, t);
  }

  lemma ReadHearsReplies(sys: System, a: Arrival)
    requires RepliesHeard(sys) && Sound(sys) && Roomy(sys)
    requires Window(sys.inb, sys.request) && ReadPacket(sys, a).inb.read <= sys.request
    ensures RepliesHeard(ReadPacket(sys, a))
  {
    var s := ReadPacket(sys, a);
    OneReadStirs(sys, a);
    forall t | At(s.threads, t).ReplyWait? && Stored(s.inb, At(s.threads, t).n) ensures Served(s.threads, At(s.threads, t).n) {
      var n := At(s.threads, t).n;
      assert Stirred(At(sys.threads, t), At(s.threads, t));
      WaiterIsRecent(sys, t);
      ReadStores(sys.inb, a.p, sys.request, n);
      if Stored(sys.inb, n) {
        ServedStirred(sys.threads, s.threads, n);
      } else {
        WaitersNear(sys, n);
        ReplyWakes(sys, a);
        var w :| WaitsFor(At(s.threads, w), n) && Up(At(s.threads, w));
        assert Up(At(s.threads, w)) && At(s.threads, w).n <= n;
      }
    }
  }

  lemma ServedStirred(threads: map<nat, Pc>, threads': map<nat, Pc>, n: nat)
    requires Served(threads, n) && AllStirred(threads, threads')
    ensures Served(threads', n)
  {
    var w :| Up(At(threads, w)) && At(threads, w).n <= n;
    assert Stirred(At(threads, w), At(threads', w));
    assert Up(At(threads', w)) && At(threads', w).n <= n;
  }

  // ----- reading -----

  ghost predicate Heard(sys: System) {
    EventsHeard(sys) && RepliesHeard(sys)
  }

  lemma {:induction false} ReadGrows(sys: System, arrivals: seq<Arrival>)
    ensures sys.inb.read <= ReadPackets(sys, arrivals).inb.read
    decreases |arrivals|
  {
    if arrivals != [] {
      ReadGrows(ReadPacket(sys, arrivals[0]), arrivals[1..]);
    }
  }

  lemma OneReadKeeps(sys: System, a: Arrival)
    requires Sound(sys) && Roomy(sys)
    ensures Sound(ReadPacket(sys, a)) && Roomy(ReadPacket(sys, a)) && ReadPacket(sys, a).request == sys.request
  {
    ReadPacketsOnlyReads(sys, [a]);
    assert [a][1..] == [] && ReadPackets(ReadPacket(sys, a), []) == ReadPacket(sys, a);
    ReadingKeeps(sys, ReadPacket(sys, a));
    RoomyStirred(sys, ReadPacket(sys, a));
  }

  lemma {:induction false} ReadsHear(sys: System, arrivals: seq<Arrival>)
    requires Heard(sys) && Sound(sys) && Roomy(sys)
    requires Window(sys.inb, sys.request) && ReadPackets(sys, arrivals).inb.read <= sys.request
    ensures var s := ReadPackets(sys, arrivals); Heard(s) && Window(s.inb, s.request)
    decreases |arrivals|
  {
    if arrivals != [] {
      var a := arrivals[0];
      var s := ReadPacket(sys, a);
      ReadGrows(s, arrivals[1..]);
      ReadHearsEvents(sys, a);
      ReadHearsReplies(sys, a);
      ReadWindow(sys.inb, a.p, sys.request);
      OneReadKeeps(sys, a);
      ReadsHear(s, arrivals[1..]);
    }
  }

  lemma ReadableHears(sys: System, o: Outcome)
    requires Heard(sys) && Sound(sys) && Roomy(sys) && Window(sys.inb, sys.request)
    requires !Readable(sys, o).0.hasError && Readable(sys, o).0.inb.read <= sys.request
    ensures var s := Readable(sys, o).0; Heard(s) && Window(s.inb, s.request) && s.request == sys.request
  {
    if o.Ready? && o.input.Some? {
      ReadsHear(sys, o.input.value.arrivals);
    }
    ReadableOnlyReads(sys, o);
  }

  // ----- a thread that does not wait goes on -----

  /** What a thread does that takes nothing but replies, and at most goes to wait for one that is not stored. */
  ghost predicate Lands(sys: System, s: System, t: nat) {
    && Nudges(sys, s, t)
    && s.inb.events == sys.inb.events && s.inb.read == sys.inb.read
    && (forall n :: Stored(s.inb, n) ==> Stored(sys.inb, n))
    && !At(s.threads, t).EventWait?
    && (At(s.threads, t).ReplyWait? ==> !Stored(s.inb, At(s.threads, t).n))
  }

  /** An awake waiter other than t stays one. */
  lemma ServedStill(sys: System, s: System, t: nat, n: nat)
    requires Nudges(sys, s, t) && Served(sys.threads, n)
    requires !(Up(At(sys.threads, t)) && At(sys.threads, t).n <= n)
    ensures Served(s.threads, n)
  {
    var w :| Up(At(sys.threads, w)) && At(sys.threads, w).n <= n;
    assert Nudged(At(sys.threads, w), At(s.threads, w));
    assert Up(At(s.threads, w)) && At(s.threads, w).n <= n;
  }

  lemma LandsHears(sys: System, s: System, t: nat)
    requires Heard(sys) && Lands(sys, s, t) && !At(sys.threads, t).ReplyWait? && !At(sys.threads, t).EventWait?
    ensures Heard(s)
  {
    EventsKept(sys, s, t);
    forall u | At(s.threads, u).ReplyWait? && Stored(s.inb, At(s.threads, u).n) ensures Served(s.threads, At(s.threads, u).n) {
      assert Nudged(At(sys.threads, u), At(s.threads, u));
      ServedStill(sys, s, t, At(s.threads, u).n);
    }
  }

  lemma LandsAfter(sys: System, s: System, s': System, t: nat)
    requires Nudges(sys, s, t) && s.inb == sys.inb && Lands(s, s', t)
    ensures Lands(sys, s', t)
  {
    NudgesTwice(sys, s, s', t);
  }

  lemma PollTakes(inb: Inbound, cookie: nat)
    ensures var after := Poll(inb, cookie).0;
      && after.events == inb.events && after.read == inb.read
      && (forall n :: Stored(after, n) ==> Stored(inb, n))
  {
    var after := Poll(inb, cookie).0;
    forall n | Stored(after, n) ensures Stored(inb, n) {
      FindWithout(inb.replies, cookie, Cookie(n));
      if LinkedMap.Find(inb.replies, cookie).Some? && LinkedMap.Find(inb.replies, cookie).value != [] {
        FindAppended(LinkedMap.Without(inb.replies, cookie), cookie, LinkedMap.Find(inb.replies, cookie).value[1..], Cookie(n));
      }
    }
  }

  /** While a poll blocks, nothing is stored for the request or any later one. */
  lemma BlockMeansNone(inb: Inbound, request: nat, n: nat, m: nat)
    requires Window(inb, request) && Recent(n, request) && Recent(m, request)
    requires Poll(inb, Cookie(n)).1.Block? && Stored(inb, m)
    ensures m < n
  {
    Compare32Exact(n, inb.read);
    if LinkedMap.Find(inb.replies, Cookie(m)).Some? {
      StoredIsOld(inb, request, m);
    }
  }

  lemma ReplyLoopLands(sys: System, t: nat, n: nat, pick: nat)
    requires Window(sys.inb, sys.request) && Recent(n, sys.request)
    ensures Lands(sys, ReplyLoop(sys, t, n, pick), t)
  {
    var s := Asks(sys, Some(t), n);
    ReplyLoopNudges(sys, t, n, pick);
    PollTakes(sys.inb, Cookie(n));
    if Poll(sys.inb, Cookie(n)).1.Done? {
      var left := Become(s.(readers := Unlink(sys.readers, Reader(n, t))), t, Idle);
      MoveNudges(s, left, t, Idle, pick);
    } else if Stored(sys.inb, n) {
      BlockMeansNone(sys.inb, sys.request, n, n);
    }
  }

  lemma AfterFlushLands(sys: System, t: nat, ret: bool, after: Then, pick: nat)
    requires Window(sys.inb, sys.request) && (after.ReplyTo? ==> Recent(after.n, sys.request))
    ensures Lands(sys, AfterFlush(sys, t, ret, after, pick), t)
  {
    if after.ReplyTo? && ret {
      var linked := sys.(readers := Link(sys.readers, Reader(after.n, t)));
      ReplyLoopLands(linked, t, after.n, pick);
      LandsAfter(sys, linked, AfterFlush(sys, t, ret, after, pick), t);
    } else {
      MoveNudges(sys, Become(sys, t, Idle), t, Idle, pick);
    }
  }

  lemma FlushLands(sys: System, t: nat, to: nat, after: Then, pick: nat)
    requires Window(sys.inb, sys.request) && (after.ReplyTo? ==> Recent(after.n, sys.request))
    ensures Lands(sys, FlushTo(sys, t, to, after, pick), t) && Lands(sys, FlushLoop(sys, t, to, after, pick), t)
  {
    FlushNudges(sys, t, to, after, pick);
    AfterFlushLands(sys, t, true, after, pick);
  }

  lemma WriteLoopLands(sys: System, t: nat, f: InFlight, purpose: Purpose, ret: bool, pick: nat)
    requires Window(sys.inb, sys.request)
    requires purpose.Flushing? && purpose.after.ReplyTo? ==> Recent(purpose.after.n, sys.request)
    ensures Lands(sys, WriteLoop(sys, t, f, purpose, ret, pick), t)
  {
    WriteLoopNudges(sys, t, f, purpose, ret, pick);
    if !(ret && Bytes(sys.queue, f) != []) {
      var roused := Finished(sys);
      var s := WakeNext(Become(roused, t, Idle), pick);
      MoveNudges(roused, Become(roused, t, Idle), t, Idle, pick);
      NudgesTwice(sys, roused, s, t);
      if purpose.Flushing? {
        AfterFlushLands(s, t, ret, purpose.after, pick);
        LandsAfter(sys, s, WriteLoop(sys, t, f, purpose, ret, pick), t);
      }
    }
  }

  lemma SendLands(sys: System, t: nat, call: Call)
    requires call.Send?
    ensures Lands(sys, SendLoop(sys, t, call), t)
  {
    SendNudges(sys, t, call);
  }

  // ----- a waiting thread goes on -----

  /** Signalling the next reader leaves nobody unserved: the first one waits for the earliest request. */
  lemma WakeNextHears(sys: System, pick: nat)
    requires ListsWaiters(WakeNext(sys, pick).threads, sys.readers)
    ensures RepliesHeard(WakeNext(sys, pick))
  {
    var s := WakeNext(sys, pick);
    forall t | At(s.threads, t).ReplyWait? ensures Served(s.threads, At(s.threads, t).n) {
      assert Reader(At(s.threads, t).n, t) in sys.readers;
      var first := sys.readers[0];
      assert first in sys.readers;
      assert Up(At(s.threads, first.thread)) && At(s.threads, first.thread).n <= At(s.threads, t).n;
    }
  }

  lemma ReplyLoopHears(sys: System, t: nat, n: nat, pick: nat)
    requires Heard(sys) && Sound(sys) && Roomy(sys) && Window(sys.inb, sys.request)
    requires At(sys.threads, t) == ReplyWait(n, Woken)
    ensures Heard(ReplyLoop(sys, t, n, pick))
  {
    var s := ReplyLoop(sys, t, n, pick);
    WaiterIsRecent(sys, t);
    ReplyLoopLands(sys, t, n, pick);
    EventsKept(sys, s, t);
    if Poll(sys.inb, Cookie(n)).1.Done? {
      ReplyLoopKeeps(sys, t, n, pick);
      var asked := Asks(sys, Some(t), n);
      WakeNextHears(Become(asked.(readers := Unlink(asked.readers, Reader(n, t))), t, Idle), pick);
    } else {
      forall u | At(s.threads, u).ReplyWait? && Stored(s.inb, At(s.threads, u).n) ensures Served(s.threads, At(s.threads, u).n) {
        assert u != t && Nudged(At(sys.threads, u), At(s.threads, u));
        WaiterIsRecent(sys, u);
        BlockMeansNone(sys.inb, sys.request, n, At(s.threads, u).n);
        ServedStill(sys, s, t, At(s.threads, u).n);
      }
    }
  }

  lemma EventLoopHears(sys: System, t: nat, pick: nat)
    requires Heard(sys) && !At(sys.threads, t).ReplyWait?
    ensures Heard(EventLoop(sys, t, pick))
  {
    var s := EventLoop(sys, t, pick);
    EventLoopNudges(sys, t, pick);
    if sys.inb.events != [] {
      MoveNudges(sys, Become(Takes(sys, Some(t)), t, Idle), t, Idle, pick);
    }
    EventsKept(sys, s, t);
    forall u | At(s.threads, u).ReplyWait? && Stored(s.inb, At(s.threads, u).n) ensures Served(s.threads, At(s.threads, u).n) {
      assert Nudged(At(sys.threads, u), At(s.threads, u));
      ServedStill(sys, s, t, At(s.threads, u).n);
    }
  }

  // ----- every step -----

  /** Nothing is read, and a failed connection does not recover. */
  predicate NothingRead(sys: System, s: System) {
    s.inb.read == sys.inb.read && s.request == sys.request && (sys.hasError ==> s.hasError)
  }

  lemma WriteLoopReads(sys: System, t: nat, f: InFlight, purpose: Purpose, ret: bool, pick: nat)
    ensures NothingRead(sys, WriteLoop(sys, t, f, purpose, ret, pick))
  {
  }

  lemma WriterHears(sys: System, t: nat, f: InFlight, purpose: Purpose, o: Outcome, pick: nat)
    requires Heard(sys) && Invariant(sys) && Roomy(sys) && Window(sys.inb, sys.request)
    requires At(sys.threads, t) == Writing(f, purpose)
    requires var s := WriterRuns(sys, t, f, purpose, o, pick); !s.hasError && s.inb.read <= s.request
    ensures Heard(WriterRuns(sys, t, f, purpose, o, pick))
  {
    assert Fine(sys, At(sys.threads, t));
    if purpose.Flushing? && purpose.after.ReplyTo? {
      AwaitedNear(sys, t);
    }
    var d, g, ret := WriterIsLoop(sys, t, f, purpose, o, pick);
    WriterHeard(sys, t, o, d, g, purpose, ret, pick);
  }

  /** What a writing thread does once it has read is going round the loop, or ending it, with nothing more read. */
  lemma WriterIsLoop(sys: System, t: nat, f: InFlight, purpose: Purpose, o: Outcome, pick: nat)
    returns (d: System, g: InFlight, ret: bool)
    ensures WriterRuns(sys, t, f, purpose, o, pick) == WriteLoop(d, t, g, purpose, ret, pick)
    ensures var s0 := Readable(sys, o).0;
      d.inb == s0.inb && d.request == s0.request && d.threads == s0.threads[t := Idle] && (s0.hasError ==> d.hasError)
  {
    var s0 := Readable(sys, o).0;
    match WroteOf(sys, o)
    case Some(w) => d, g, ret := Left(Writable(s0, f, w).0, t), Writable(s0, f, w).1, Writable(s0, f, w).2;
    case None => d, g, ret := Left(s0, t), f, Readable(sys, o).1;
  }

  lemma WriterHeard(sys: System, t: nat, o: Outcome, d: System, f: InFlight, purpose: Purpose, ret: bool, pick: nat)
    requires Heard(sys) && Invariant(sys) && Roomy(sys) && Window(sys.inb, sys.request)
    requires purpose.Flushing? && purpose.after.ReplyTo? ==> Recent(purpose.after.n, sys.request)
    requires var s0 := Readable(sys, o).0;
      d.inb == s0.inb && d.request == s0.request && d.threads == s0.threads[t := Idle] && (s0.hasError ==> d.hasError)
    requires At(sys.threads, t).Writing?
    requires var s := WriteLoop(d, t, f, purpose, ret, pick); !s.hasError && s.inb.read <= s.request
    ensures Heard(WriteLoop(d, t, f, purpose, ret, pick))
  {
    var s0 := Readable(sys, o).0;
    ReadableOnlyReads(sys, o);
    assert Stirred(At(sys.threads, t), At(s0.threads, t));
    WriteLoopReads(d, t, f, purpose, ret, pick);
    ReadableHears(sys, o);
    LandsHears(s0, d, t);
    WriteLoopLands(d, t, f, purpose, ret, pick);
    LandsHears(d, WriteLoop(d, t, f, purpose, ret, pick), t);
  }

  lemma ReplyLoopReads(sys: System, t: nat, n: nat, pick: nat)
    ensures NothingRead(sys, ReplyLoop(sys, t, n, pick)) && NothingRead(sys, LeaveReply(sys, t, n, pick))
  {
  }

  lemma EventLoopReads(sys: System, t: nat, pick: nat)
    ensures NothingRead(sys, EventLoop(sys, t, pick))
  {
  }

  lemma ReplyReaderHears(sys: System, t: nat, n: nat, o: Outcome, pick: nat)
    requires Heard(sys) && Invariant(sys) && Roomy(sys) && Window(sys.inb, sys.request)
    requires At(sys.threads, t) == ReplyWait(n, Polling)
    requires var s := LockedStretch(sys, t, o, pick); !s.hasError && s.inb.read <= s.request
    ensures Heard(LockedStretch(sys, t, o, pick))
  {
    var s0, ret := Readable(sys, o).0, Readable(sys, o).1;
    var s1 := Become(s0.(reading := s0.reading - 1), t, ReplyWait(n, Woken));
    ReadableOnlyReads(sys, o);
    ReplyLoopReads(s1, t, n, pick);
    ReadableHears(sys, o);
    ReaderReturns(sys, t, o, ReplyWait(n, Woken));
    assert Stirred(At(sys.threads, t), At(s0.threads, t));
    StaysUp(s0, s1, t);
    ReplyLoopHears(s1, t, n, pick);
  }

  /** A polling thread that is no longer said to poll. */
  lemma StaysUp(sys: System, s: System, t: nat)
    requires Heard(sys) && s.inb == sys.inb && Polls(At(sys.threads, t))
    requires s.threads == Become(sys, t, At(sys.threads, t).(stage := Woken)).threads
    ensures Heard(s)
  {
    EventsKept(sys, s, t);
    forall u | At(s.threads, u).ReplyWait? && Stored(s.inb, At(s.threads, u).n) ensures Served(s.threads, At(s.threads, u).n) {
      var n := At(s.threads, u).n;
      var w :| Up(At(sys.threads, w)) && At(sys.threads, w).n <= n;
      assert Up(At(s.threads, w)) && At(s.threads, w).n <= n;
    }
  }

  lemma EventReaderHears(sys: System, t: nat, o: Outcome, pick: nat)
    requires Heard(sys) && Invariant(sys) && Roomy(sys) && Window(sys.inb, sys.request)
    requires At(sys.threads, t) == EventWait(Polling)
    requires var s := LockedStretch(sys, t, o, pick); !s.hasError && s.inb.read <= s.request
    ensures Heard(LockedStretch(sys, t, o, pick))
  {
    var s0, ret := Readable(sys, o).0, Readable(sys, o).1;
    var s1 := Become(s0.(reading := s0.reading - 1), t, EventWait(Woken));
    ReadableOnlyReads(sys, o);
    EventLoopReads(s1, t, pick);
    ReadableHears(sys, o);
    assert Stirred(At(sys.threads, t), At(s0.threads, t));
    StaysUp(s0, s1, t);
    EventLoopHears(s1, t, pick);
  }

  lemma StretchHears(sys: System, t: nat, o: Outcome, pick: nat)
    requires Heard(sys) && Invariant(sys) && Roomy(sys) && Window(sys.inb, sys.request)
    requires var s := LockedStretch(sys, t, o, pick); !s.hasError && s.inb.read <= s.request
    ensures Heard(LockedStretch(sys, t, o, pick))
  {
    var pc, s := At(sys.threads, t), LockedStretch(sys, t, o, pick);
    assert Fine(sys, pc);
    if Awaited(pc).Some? {
      AwaitedNear(sys, t);
    }
    match pc
    case Entering(Send(req, isVoid, flags)) =>
      SendLands(sys, t, Send(req, isVoid, flags));
      LandsHears(sys, s, t);
    case Entering(Flush) =>
      FlushLands(sys, t, sys.request, Return, pick);
      LandsHears(sys, s, t);
    case Entering(AwaitReply(n)) =>
      FlushLands(sys, t, Widen(sys.request, Cookie(n)), ReplyTo(n), pick);
      LandsHears(sys, s, t);
    case Entering(AwaitEvent) => EventLoopHears(sys, t, pick);
    case SendWait(call, true) =>
      SendLands(sys, t, call);
      LandsHears(sys, s, t);
    case FlushWait(to, after, true) =>
      FlushLands(sys, t, to, after, pick);
      LandsHears(sys, s, t);
    case Writing(f, purpose) => WriterHears(sys, t, f, purpose, o, pick);
    case ReplyWait(n, Woken) => ReplyLoopHears(sys, t, n, pick);
    case ReplyWait(n, Polling) => ReplyReaderHears(sys, t, n, o, pick);
    case EventWait(Woken) => EventLoopHears(sys, t, pick);
    case EventWait(Polling) => EventReaderHears(sys, t, o, pick);
    case _ =>
  }

  /** A step of no thread only takes replies and events away. */
  lemma AwayHears(sys: System, s: System)
    requires Heard(sys) && (forall t :: Nudged(At(sys.threads, t), At(s.threads, t)))
    requires |s.inb.events| <= |sys.inb.events| && forall n :: Stored(s.inb, n) ==> Stored(sys.inb, n)
    ensures Heard(s)
  {
    assert Nudged(At(sys.threads, 0), At(s.threads, 0));
    EventsKept(sys, s, 0);
    forall u | At(s.threads, u).ReplyWait? && Stored(s.inb, At(s.threads, u).n) ensures Served(s.threads, At(s.threads, u).n) {
      var n := At(s.threads, u).n;
      assert Nudged(At(sys.threads, u), At(s.threads, u));
      var w :| Up(At(sys.threads, w)) && At(sys.threads, w).n <= n;
      assert Nudged(At(sys.threads, w), At(s.threads, w));
      assert Up(At(s.threads, w)) && At(s.threads, w).n <= n;
    }
  }

  lemma DiscardTakes(inb: Inbound, newest: nat, cookie: nat)
    ensures var after := Discard(inb, newest, cookie);
      after.events == inb.events && forall n :: Stored(after, n) ==> Stored(inb, n)
  {
    forall n | Stored(Discard(inb, newest, cookie), n) ensures Stored(inb, n) {
      FindWithout(inb.replies, cookie, Cookie(n));
    }
  }

  lemma PollEventHears(sys: System, input: Input)
    requires Heard(sys) && Invariant(sys) && Roomy(sys) && Window(sys.inb, sys.request)
    requires var s := PollsForEvent(sys, input); !s.hasError && s.inb.read <= s.request
    ensures Heard(PollsForEvent(sys, input))
  {
    if sys.inb.events != [] {
      AwayHears(sys, Takes(sys, None));
    } else {
      InReadOnlyReads(sys, input);
      ReadsHear(sys, input.arrivals);
      AwayHears(InRead(sys, input).0, Takes(InRead(sys, input).0, None));
    }
  }

  lemma StepHears(sys: System, a: Action)
    requires Heard(sys) && Invariant(sys) && Legal(sys, a) && Window(sys.inb, sys.request)
    requires var s := Next(sys, a); !s.hasError && s.inb.read <= s.request
    ensures Heard(Next(sys, a))
  {
    var s := Next(sys, a);
    match a
    case Start(t, _) => LandsHears(sys, s, t);
    case Refuse =>
    case Runs(t, o, pick) => StretchHears(sys, t, o, pick);
    case WakesUp(t) =>
      forall u ensures Nudged(At(sys.threads, u), At(s.threads, u)) {
        OthersNudge(sys, a, u);
      }
      AwayHears(sys, s);
    case PollReply(n) =>
      PollTakes(sys.inb, Cookie(n));
      AwayHears(sys, s);
    case DiscardReply(n) =>
      DiscardTakes(sys.inb, sys.request, Cookie(n));
      AwayHears(sys, s);
    case PollEvent(input) => PollEventHears(sys, input);
  }

  // ----- every run of threads and a server -----

  /** What the router says about the reply map. */
  lemma RouterWindow(p: Protocol.System, r: Router.Router)
    requires Delivery.InStep(p, r) && Refinement.InWindow(r)
    ensures Window(p.client, p.newest)
  {
    forall k | LinkedMap.Find(p.client.replies, k).Some? ensures exists m: nat :: Key(k, m, p.client.read, p.newest) {
      LinkedMap.FindIsLookup(p.client.replies, k);
      assert Refinement.StoredKey(r.queues, r.latest, k);
      var m :| m in r.queues && m < r.latest && Cookie(m) == k;
      assert Key(k, m, p.client.read, p.newest);
    }
  }

  lemma {:induction false} PairsHear(pair: Pair, r: Router.Router, js: seq<Joint>)
    requires Together(pair) && Heard(pair.t) && LegalPairs(pair, js)
    requires Delivery.InStep(pair.p, r) && Delivery.Timely(r, Delivery.SeenRun(pair.p, AllActs(pair, js)))
    ensures Heard(RunPairs(pair, js).t)
    decreases |js|
  {
    if js != [] {
      var next, acts, later := NextPair(pair, js[0]), Acts(pair, js[0]), AllActs(NextPair(pair, js[0]), js[1..]);
      var seen := Delivery.SeenRun(pair.p, acts);
      var r' := Router.Run(r, seen);
      PairStep(pair, js[0]);
      Delivery.SeenAppends(pair.p, acts, later);
      Delivery.TimelyAppends(r, seen, Delivery.SeenRun(next.p, later));
      Delivery.RunInStep(pair.p, r, acts);
      if js[0].ByThread? {
        RouterWindow(pair.p, r);
        RouterWindow(next.p, r');
        StepHears(pair.t, js[0].a);
      }
      PairsHear(next, r', js[1..]);
    }
  }

  lemma RunsHear(pair: Pair, js: seq<Joint>)
    requires ProperPairs(pair, js)
    ensures Heard(RunPairs(pair, js).t)
  {
    BeginsTogether(pair);
    ClientGuarantees.ProperRun([]);
    PairsHear(pair, Router.START, js);
  }

  /**
   * However threads, signals, reads, writes and the server interleave: if
   * replies are stored for a request that some thread waits for, a thread that
   * waits for it or an earlier one is awake or polls; and if a thread sleeps
   * for an event, there are at least as many woken threads as queued events.
   */
  lemma NobodySleepsBeside(pair: Pair, js: seq<Joint>)
    requires ProperPairs(pair, js)
    ensures var s := RunPairs(pair, js).t;
      && (forall t :: At(s.threads, t).ReplyWait? && Stored(s.inb, At(s.threads, t).n) ==>
            exists w :: Up(At(s.threads, w)) && At(s.threads, w).n <= At(s.threads, t).n)
      && ((exists t :: SleepsForEvent(At(s.threads, t))) ==> |s.inb.events| <= |WokenForEvents(s.threads)|)
  {
    RunsHear(pair, js);
    var s := RunPairs(pair, js).t;
    forall t | At(s.threads, t).ReplyWait? && Stored(s.inb, At(s.threads, t).n)
      ensures exists w :: Up(At(s.threads, w)) && At(s.threads, w).n <= At(s.threads, t).n
    {
      assert Served(s.threads, At(s.threads, t).n);
    }
  }
}
