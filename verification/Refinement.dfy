/**
 * The reading side (Inbound: 16-bit packet numbers, 32-bit cookies, a pruned
 * list of pending records, a current reply queue and a map of finished ones)
 * simulates the Router step by step.
 */
module Refinement {
  import opened Wrappers
  import opened Sequence
  import opened Packets
  import opened Inbound
  import opened Router
  import LinkedMap

  /**
   * The application may not fall 2^31 requests behind: 32-bit cookies cannot
   * tell numbers apart that are further away.
   */
  ghost predicate InWindow(r: Router) {
    && r.issued < TWO63
    && r.issued - r.latest < TWO31
    && (forall n :: n in r.queues ==> r.issued - n < TWO31)
  }

  /** Records are for single requests, in strictly increasing order between two bounds. */
  ghost predicate Ordered(pending: seq<Pending>, low: nat, high: nat) {
    pending == [] ||
    (low <= pending[0].first == pending[0].last <= high && Ordered(pending[1..], pending[0].first + 1, high))
  }

  ghost predicate Listed(pending: seq<Pending>, n: nat) {
    exists p :: p in pending && p.first == n
  }

  /** For requests that are not completed the list holds exactly what was ever registered. */
  ghost predicate Registers(pending: seq<Pending>, registered: map<nat, Flags>, completed: nat) {
    && (forall p :: p in pending && p.first > completed ==>
          p.first in registered && registered[p.first] == p.flags)
    && (forall n :: n in registered && n > completed ==> Listed(pending, n))
  }

  /** The list of finished replies, read as a map, holds the queues of all requests before the last read. */
  ghost predicate Stores(replies: seq<(nat, seq<Packet>)>, queues: map<nat, seq<Packet>>, latest: nat) {
    var m := LinkedMap.AsMap(replies);
    && LinkedMap.DistinctKeys(replies)
    && (forall n :: n in queues && n < latest ==> Cookie(n) in m && m[Cookie(n)] == queues[n])
    && (forall k :: k in m ==> StoredKey(queues, latest, k))
  }

  ghost predicate StoredKey(queues: map<nat, seq<Packet>>, latest: nat, k: nat) {
    exists n :: n in queues && n < latest && Cookie(n) == k
  }

  /** request_completed follows from the last number and whether it failed. */
  function Completed(r: Router): nat {
    if r.latest == 0 || r.latest in r.failed then r.latest else r.latest - 1
  }

  ghost predicate Sane(r: Router) {
    && r.latest <= r.issued
    && (forall n :: n in r.failed ==> n <= r.latest)
    && (forall n :: n in r.queues ==> n <= r.latest && r.queues[n] != [])
    && (forall n :: n in r.registered ==> 1 <= n <= r.issued)
  }

  ghost predicate Simulates(s: Inbound, r: Router) {
    && Sane(r)
    && s.read == r.latest <= s.expected <= r.issued
    && s.completed == Completed(r)
    && s.current == Queue(r, r.latest)
    && s.events == r.events
    && Stores(s.replies, r.queues, r.latest)
    && Ordered(s.pending, s.read, r.issued)
    && Registers(s.pending, r.registered, s.completed)
  }

  // ----- the pending list -----

  lemma {:induction false} OrderedBounds(pending: seq<Pending>, low: nat, high: nat, p: Pending)
    requires Ordered(pending, low, high) && p in pending
    ensures low <= p.first == p.last <= high
    ensures p == pending[0] || p.first > pending[0].first
  {
    if p != pending[0] {
      OrderedBounds(pending[1..], pending[0].first + 1, high, p);
    }
  }

  lemma {:induction false} OrderedWeaken(pending: seq<Pending>, low: nat, high: nat, high': nat)
    requires Ordered(pending, low, high) && high <= high'
    ensures Ordered(pending, low, high')
  {
    if pending != [] {
      OrderedWeaken(pending[1..], pending[0].first + 1, high, high');
    }
  }

  /** Pruning keeps exactly the records of requests that are not completed. */
  lemma {:induction false} PruneOrdered(pending: seq<Pending>, completed: nat, low: nat, high: nat, n: nat)
    requires Ordered(pending, low, high) && (n <= low || n <= completed + 1)
    ensures Ordered(Prune(pending, completed), n, high)
    ensures forall p :: p in Prune(pending, completed) <==> p in pending && p.first > completed
  {
    if pending != [] {
      assert pending == [pending[0]] + pending[1..];
      if pending[0].last <= completed {
        PruneOrdered(pending[1..], completed, pending[0].first + 1, high, n);
      } else {
        forall p | p in pending ensures p.first > completed {
          OrderedBounds(pending, low, high, p);
        }
      }
    }
  }

  /**
   * Looking only at the head of the pruned list finds the same record as
   * searching everything ever registered, for the first request not yet completed.
   */
  lemma HeadIsSearch(pending: seq<Pending>, registered: map<nat, Flags>, completed: nat, low: nat, high: nat)
    requires Ordered(pending, low, high) && Registers(pending, registered, completed)
    ensures var n := completed + 1;
      Covering(Prune(pending, completed), n)
        == if n in registered then Some(Pending(n, n, registered[n])) else None
  {
    var n := completed + 1;
    var pruned := Prune(pending, completed);
    PruneOrdered(pending, completed, low, high, low);
    if n in registered {
      assert Listed(pending, n);
      var p :| p in pending && p.first == n;
      OrderedBounds(pruned, low, high, p);
      assert pruned[0] in pruned;
    } else if pruned != [] {
      assert pruned[0] in pruned;
    }
  }

  // ----- the stored replies -----

  /** Inside the window a 32-bit key names one request. */
  lemma CookieInjective(r: Router, a: nat, b: nat)
    requires a <= r.issued && r.issued - a < TWO31 && b <= r.issued && r.issued - b < TWO31
    ensures Cookie(a) == Cookie(b) <==> a == b
  {
    assert a == a / TWO32 * TWO32 + Cookie(a);
    assert b == b / TWO32 * TWO32 + Cookie(b);
  }

  /** Moving on to a later number files the current replies under a key that is not in use. */
  lemma StoreCurrent(s: Inbound, r: Router, n: nat)
    requires Simulates(s, r) && InWindow(r) && s.read < n
    ensures Stores(if s.current != [] then s.replies + [(Cookie(s.read), s.current)] else s.replies, r.queues, n)
  {
    var k := Cookie(s.read);
    var m := LinkedMap.AsMap(s.replies);
    if s.current != [] {
      if k in m {
        assert StoredKey(r.queues, r.latest, k);
        var q :| q in r.queues && q < r.latest && Cookie(q) == k;
        CookieInjective(r, q, r.latest);
        assert false;
      }
      LinkedMap.AppendIsUpdate(s.replies, k, s.current);
      forall q | q in r.queues && q < r.latest ensures Cookie(q) != k {
        CookieInjective(r, q, r.latest);
      }
      forall j | j in m ensures StoredKey(r.queues, n, j) {
        assert StoredKey(r.queues, r.latest, j);
      }
      assert StoredKey(r.queues, n, k);
    } else {
      forall j | j in m ensures StoredKey(r.queues, n, j) {
        assert StoredKey(r.queues, r.latest, j);
      }
    }
  }

  // ----- packets -----

  /** What may arrive next: see Protocol for why a server and the sync requests guarantee it. */
  ghost predicate MayArrive(r: Router, n: nat, p: Packet) {
    && r.latest <= n <= r.issued
    && n < r.latest + TWO16
    && (p.IsNumbered() ==> p.low == Low16(n))
    && (!p.IsNumbered() ==> n == r.latest)
    && (p.IsAnswer() ==> n >= 1 && n !in r.failed)
  }

  /** request_completed once request n is being read, before the packet is judged. */
  function CompletedBefore(s: Inbound, n: nat): nat
    requires s.read <= n
  {
    if n != s.read then n - 1 else s.completed
  }

  /** The rebuilt number is the true one, so Advance moves the bookkeeping to request n. */
  lemma AdvanceTo(s: Inbound, r: Router, n: nat, p: Packet)
    requires Simulates(s, r) && MayArrive(r, n, p) && p.IsNumbered()
    ensures Advance(s, p) == s.(
      read := n,
      expected := if n > s.expected then n else s.expected,
      replies := if n != s.read && s.current != [] then s.replies + [(Cookie(s.read), s.current)] else s.replies,
      current := if n != s.read then [] else s.current,
      pending := Prune(s.pending, CompletedBefore(s, n)),
      completed := if p.IsError() then n else CompletedBefore(s, n))
  {
    RebuildExact(s.read, n);
  }

  /** Pruning loses no registration of a request that can still be answered. */
  lemma PrunedRegisters(pending: seq<Pending>, registered: map<nat, Flags>, before: nat, completed: nat, low: nat, high: nat)
    requires Ordered(pending, low, high)
    requires Registers(pending, registered, before) && before <= completed
    ensures Registers(Prune(pending, completed), registered, completed)
  {
    PruneOrdered(pending, completed, low, high, low);
    forall k | k in registered && k > completed ensures Listed(Prune(pending, completed), k) {
      assert Listed(pending, k);
      var p :| p in pending && p.first == k;
      assert p in Prune(pending, completed);
    }
  }

  /** The record applied to an answer is the one ever registered for its request. */
  lemma PendIsRegistration(s: Inbound, r: Router, n: nat, p: Packet)
    requires Simulates(s, r) && MayArrive(r, n, p) && p.IsAnswer()
    ensures Pend(Advance(s, p), p) == if n in r.registered then Some(Pending(n, n, r.registered[n])) else None
  {
    AdvanceTo(s, r, n, p);
    var completed := CompletedBefore(s, n);
    assert n == completed + 1;
    HeadIsSearch(s.pending, r.registered, completed, s.read, r.issued);
  }

  /** The router that has noted the packet's number but not yet filed it. */
  function Note(r: Router, n: nat, p: Packet): Router {
    r.(latest := n, failed := if p.IsError() then r.failed + {n} else r.failed)
  }

  lemma AdvanceSimulates(s: Inbound, r: Router, n: nat, p: Packet)
    requires Simulates(s, r) && InWindow(r) && MayArrive(r, n, p)
    ensures Simulates(Advance(s, p), Note(r, n, p))
  {
    if p.IsNumbered() {
      AdvanceTo(s, r, n, p);
      var completed := CompletedBefore(s, n);
      PruneOrdered(s.pending, completed, s.read, r.issued, n);
      PrunedRegisters(s.pending, r.registered, s.completed, completed, s.read, r.issued);
      if n != s.read {
        StoreCurrent(s, r, n);
      }
    }
  }

  /** Storing does not depend on the current request's queue. */
  lemma StoresBelow(replies: seq<(nat, seq<Packet>)>, q: map<nat, seq<Packet>>, q': map<nat, seq<Packet>>, latest: nat)
    requires Stores(replies, q, latest)
    requires forall n :: n < latest ==> (n in q <==> n in q') && (n in q ==> q[n] == q'[n])
    ensures Stores(replies, q', latest)
  {
    forall k | k in LinkedMap.AsMap(replies) ensures StoredKey(q', latest, k) {
      assert StoredKey(q, latest, k);
    }
  }

  /** Changing only the newest queue, or the events, on both sides keeps them in step. */
  lemma SameNewest(s: Inbound, r: Router, s': Inbound, r': Router)
    requires Simulates(s, r)
    requires s' == s.(current := s'.current, events := s'.events)
    requires r' == r.(queues := r'.queues, events := r'.events)
    requires s'.events == r'.events && s'.current == Queue(r', r.latest)
    requires r'.queues == if s'.current == [] then r.queues - {r.latest} else r.queues[r.latest := s'.current]
    ensures Simulates(s', r')
  {
    StoresBelow(s.replies, r.queues, r'.queues, r.latest);
  }

  /** A packet filed for its request, or as an event, once its number has been noted on both sides. */
  lemma FileSimulates(t: Inbound, note: Router, n: nat, p: Packet)
    requires Simulates(t, note) && t.read == n == note.latest
    requires Pend(t, p) == if p.IsAnswer() && n in note.registered then Some(Pending(n, n, note.registered[n])) else None
    ensures Simulates(File(t, p), match Destine(note, n, p)
      case Dropped => note
      case ToRequest => note.(queues := note.queues[n := Queue(note, n) + [p]])
      case ToEvents => note.(events := note.events + [Event(p, Cookie(n))]))
  {
    match Destine(note, n, p)
    case Dropped =>
    case ToRequest =>
      assert File(t, p) == t.(current := t.current + [p]);
      SameNewest(t, note, File(t, p), note.(queues := note.queues[n := Queue(note, n) + [p]]));
    case ToEvents =>
      assert File(t, p) == t.(events := t.events + [Event(p, Cookie(n))]);
      assert note.queues == if t.current == [] then note.queues - {n} else note.queues[n := t.current];
      SameNewest(t, note, File(t, p), note.(events := note.events + [Event(p, Cookie(n))]));
  }

  /** Reading a packet does what the router does with its true number. */
  lemma ReceiveSimulates(s: Inbound, r: Router, n: nat, p: Packet)
    requires Simulates(s, r) && InWindow(r) && MayArrive(r, n, p)
    ensures Simulates(Receive(s, p), Arrive(r, n, p))
  {
    AdvanceSimulates(s, r, n, p);
    if p.IsAnswer() {
      PendIsRegistration(s, r, n, p);
    }
    FileSimulates(Advance(s, p), Note(r, n, p), n, p);
  }

  // ----- requests -----

  /** A record for the newest request goes to the end of the list. */
  lemma {:induction false} ExpectOrdered(pending: seq<Pending>, low: nat, high: nat, n: nat, flags: Flags)
    requires Ordered(pending, low, high) && low <= n && high < n
    ensures Ordered(pending + [Pending(n, n, flags)], low, n)
  {
    var longer := pending + [Pending(n, n, flags)];
    if pending != [] {
      ExpectOrdered(pending[1..], pending[0].first + 1, high, n, flags);
      assert longer[1..] == pending[1..] + [Pending(n, n, flags)];
    } else {
      assert longer[1..] == [];
    }
  }

  lemma ExpectRegisters(pending: seq<Pending>, registered: map<nat, Flags>, completed: nat, n: nat, flags: Flags)
    requires Registers(pending, registered, completed)
    requires forall p :: p in pending ==> p.first < n
    ensures Registers(pending + [Pending(n, n, flags)], registered[n := flags], completed)
  {
    var longer := pending + [Pending(n, n, flags)];
    forall k | k in registered[n := flags] && k > completed ensures Listed(longer, k) {
      if k == n {
        assert Pending(n, n, flags) in longer;
      } else {
        assert Listed(pending, k);
        var p :| p in pending && p.first == k;
        assert p in longer;
      }
    }
  }

  lemma RegisterSimulates(s: Inbound, r: Router, flags: Flags)
    requires Simulates(s, r)
    ensures Simulates(if flags != NO_FLAGS then Expect(s, r.issued + 1, flags) else s, Register(r, flags))
  {
    if flags != NO_FLAGS {
      RecordSimulates(s, r, flags);
    } else {
      OrderedWeaken(s.pending, s.read, r.issued, r.issued + 1);
    }
  }

  lemma RecordSimulates(s: Inbound, r: Router, flags: Flags)
    requires Simulates(s, r) && flags != NO_FLAGS
    ensures Simulates(Expect(s, r.issued + 1, flags), Register(r, flags))
  {
    RecordKept(s, r, flags);
  }

  lemma RecordKept(s: Inbound, r: Router, flags: Flags)
    requires Ordered(s.pending, s.read, r.issued) && s.read <= r.issued && Registers(s.pending, r.registered, s.completed)
    ensures var longer := s.pending + [Pending(r.issued + 1, r.issued + 1, flags)];
      Ordered(longer, s.read, r.issued + 1) && Registers(longer, r.registered[r.issued + 1 := flags], s.completed)
  {
    ExpectOrdered(s.pending, s.read, r.issued, r.issued + 1, flags);
    forall p | p in s.pending ensures p.first < r.issued + 1 {
      OrderedBounds(s.pending, s.read, r.issued, p);
    }
    ExpectRegisters(s.pending, r.registered, s.completed, r.issued + 1, flags);
  }

  /** request_expected may be anything between the last number read and the newest request. */
  lemma ExpectedIsFree(s: Inbound, r: Router, expected: nat)
    requires Simulates(s, r) && s.read <= expected <= r.issued
    ensures Simulates(s.(expected := expected), r)
  {
  }

  lemma UnsyncedSimulates(s: Inbound, r: Router, isVoid: bool, flags: Flags)
    requires Simulates(s, r) && !NeedsSync(s, r.issued, isVoid)
    ensures Simulates(Issue(s, r.issued, isVoid, flags), Register(r, flags))
  {
    var s1 := if flags != NO_FLAGS then Expect(s, r.issued + 1, flags) else s;
    RegisterSimulates(s, r, flags);
    if isVoid {
      assert Issue(s, r.issued, isVoid, flags) == s1;
    } else {
      ExpectedIsFree(s1, Register(r, flags), r.issued + 1);
      assert Issue(s, r.issued, isVoid, flags) == s1.(expected := r.issued + 1);
    }
  }

  lemma SyncSimulates(s: Inbound, r: Router)
    requires Simulates(s, r)
    ensures Simulates(Synced(s, r.issued), Register(r, DISCARD))
  {
    RegisterSimulates(s, r, DISCARD);
    ExpectedIsFree(Expect(s, r.issued + 1, DISCARD), Register(r, DISCARD), r.issued + 1);
  }

  lemma SyncThenIssue(s: Inbound, newest: nat, isVoid: bool, flags: Flags)
    requires NeedsSync(s, newest, isVoid)
    ensures !NeedsSync(Synced(s, newest), newest + 1, isVoid)
    ensures Issue(s, newest, isVoid, flags) == Issue(Synced(s, newest), newest + 1, isVoid, flags)
  {
  }

  /** A request, and the sync before it, registers with both alike. */
  lemma IssueSimulates(s: Inbound, r: Router, isVoid: bool, flags: Flags)
    requires Simulates(s, r)
    ensures Simulates(Issue(s, r.issued, isVoid, flags), Next(r, Issued(NeedsSync(s, r.issued, isVoid), flags)))
  {
    if NeedsSync(s, r.issued, isVoid) {
      SyncedSimulates(s, r, isVoid, flags);
    } else {
      UnsyncedSimulates(s, r, isVoid, flags);
    }
  }

  lemma SyncedSimulates(s: Inbound, r: Router, isVoid: bool, flags: Flags)
    requires Simulates(s, r) && NeedsSync(s, r.issued, isVoid)
    ensures Simulates(Issue(s, r.issued, isVoid, flags), Register(Register(r, DISCARD), flags))
  {
    var s', r' := Synced(s, r.issued), Register(r, DISCARD);
    SyncSimulates(s, r);
    SyncThenIssue(s, r.issued, isVoid, flags);
    assert r'.issued == r.issued + 1;
    UnsyncedSimulates(s', r', isVoid, flags);
  }

  // ----- delivering -----

  /** A number the application can hold a live cookie for. */
  ghost predicate Live(r: Router, n: nat) {
    1 <= n <= r.issued && r.issued - n < TWO31 && Cookie(n) != 0
  }

  /** Inside the window comparing cookies is comparing numbers. */
  lemma CompareInWindow(r: Router, a: nat, b: nat)
    requires a <= r.issued && r.issued - a < TWO31 && b <= r.issued && r.issued - b < TWO31
    ensures Compare32(Cookie(a), b) == Compare32(a, Cookie(b)) == a - b
  {
    Compare32Exact(a, b);
    Compare32Residue(a, b, a, Cookie(b), 0, -(b / TWO32));
    assert b == b / TWO32 * TWO32 + Cookie(b);
  }

  /** Looking a cookie up among the finished replies finds that request's queue. */
  lemma FindStored(s: Inbound, r: Router, n: nat)
    requires Simulates(s, r) && InWindow(r) && n < r.latest && r.issued - n < TWO31
    ensures LinkedMap.Find(s.replies, Cookie(n)) == if n in r.queues then Some(r.queues[n]) else None
  {
    var m := LinkedMap.AsMap(s.replies);
    LinkedMap.FindIsLookup(s.replies, Cookie(n));
    if n !in r.queues && Cookie(n) in m {
      assert StoredKey(r.queues, r.latest, Cookie(n));
      var q :| q in r.queues && q < r.latest && Cookie(q) == Cookie(n);
      CookieInjective(r, q, n);
      assert false;
    }
  }

  /** The list with one key's entry replaced, or removed when nothing is left, read as a map. */
  lemma ReplaceInMap(replies: seq<(nat, seq<Packet>)>, k: nat, rest: seq<Packet>)
    requires LinkedMap.DistinctKeys(replies)
    ensures var without := LinkedMap.Without(replies, k);
      var replies' := if rest != [] then without + [(k, rest)] else without;
      var m := LinkedMap.AsMap(replies);
      LinkedMap.DistinctKeys(replies') && LinkedMap.AsMap(replies') == if rest != [] then m[k := rest] else m - {k}
  {
    LinkedMap.WithoutIsRemoval(replies, k);
    if rest != [] {
      LinkedMap.AppendIsUpdate(LinkedMap.Without(replies, k), k, rest);
    }
  }

  lemma ReplaceStores(replies: seq<(nat, seq<Packet>)>, r: Router, n: nat, rest: seq<Packet>)
    requires Stores(replies, r.queues, r.latest) && InWindow(r) && n < r.latest <= r.issued && r.issued - n < TWO31
    requires forall q :: q in r.queues ==> q <= r.latest
    ensures var without := LinkedMap.Without(replies, Cookie(n));
      Stores(if rest != [] then without + [(Cookie(n), rest)] else without,
             if rest != [] then r.queues[n := rest] else r.queues - {n}, r.latest)
  {
    var k := Cookie(n);
    var queues := if rest != [] then r.queues[n := rest] else r.queues - {n};
    var m := LinkedMap.AsMap(replies);
    var m' := if rest != [] then m[k := rest] else m - {k};
    ReplaceInMap(replies, k, rest);
    forall q | q in queues && q < r.latest ensures Cookie(q) in m' && m'[Cookie(q)] == queues[q] {
      CookieInjective(r, q, n);
    }
    forall j | j in m' ensures StoredKey(queues, r.latest, j) {
      if j == k {
        assert n in queues;
      } else {
        assert StoredKey(r.queues, r.latest, j);
        var q :| q in r.queues && q < r.latest && Cookie(q) == j;
        assert q in queues;
      }
    }
  }

  /** Replacing one finished queue, in the list and in the router. */
  lemma ReplaceStored(s: Inbound, r: Router, n: nat, rest: seq<Packet>)
    requires Simulates(s, r) && InWindow(r) && n < r.latest && r.issued - n < TWO31
    ensures var without := LinkedMap.Without(s.replies, Cookie(n));
      Simulates(s.(replies := if rest != [] then without + [(Cookie(n), rest)] else without),
                r.(queues := if rest != [] then r.queues[n := rest] else r.queues - {n}))
  {
    ReplaceStores(s.replies, r, n, rest);
  }

  /** poll_for_reply on a cookie answers as the router does on the request's number. */
  lemma PollSimulates(s: Inbound, r: Router, n: nat)
    requires Simulates(s, r) && InWindow(r) && Live(r, n)
    ensures Result(r, Polling(n)) == Answer(Poll(s, Cookie(n)).1)
    ensures Simulates(Poll(s, Cookie(n)).0, Next(r, Polling(n)))
  {
    CompareInWindow(r, n, r.latest);
    var q := Queue(r, n);
    if n < r.latest {
      FindStored(s, r, n);
      ReplaceStored(s, r, n, if q == [] then [] else q[1..]);
      assert r.queues - {n} == r.queues || n in r.queues;
      assert q == [] ==> r.(queues := r.queues - {n}) == r;
    } else if n == r.latest && q != [] {
      SameNewest(s, r, Poll(s, Cookie(n)).0, Next(r, Polling(n)));
    } else {
      Compare32Equal(n, s.completed);
    }
  }

  // ----- discarding -----

  /** Comparing the records with the cookie is comparing them with the request number. */
  ghost predicate Comparable(pending: seq<Pending>, cookie: nat, n: nat) {
    forall p :: p in pending ==> Compare32(p.first, cookie) == p.first - n
  }

  lemma {:induction false} MarkOrInsertOrdered(pending: seq<Pending>, cookie: nat, n: nat, low: nat, high: nat)
    requires Ordered(pending, low, high) && low <= n <= high && Comparable(pending, cookie, n)
    ensures Ordered(MarkOrInsert(pending, cookie, n), low, high)
  {
    var marked := MarkOrInsert(pending, cookie, n);
    if pending == [] || pending[0].first > n {
      assert pending != [] ==> pending[0] in pending;
      assert marked[1..] == pending;
    } else {
      assert pending[0] in pending;
      if pending[0].first == n {
        assert marked[1..] == pending[1..];
      } else {
        MarkOrInsertOrdered(pending[1..], cookie, n, pending[0].first + 1, high);
        assert marked[1..] == MarkOrInsert(pending[1..], cookie, n);
      }
    }
  }

  /** The record left for request n: the old one marked, or a new one. */
  ghost predicate IsDiscard(pending: seq<Pending>, n: nat, p: Pending) {
    if Listed(pending, n) then exists q :: q in pending && q.first == n && p == Mark(q)
    else p == Pending(n, n, DISCARD)
  }

  /** The list keeps every other record and gets a discarding one for the request. */
  lemma {:induction false} MarkOrInsertMembers(pending: seq<Pending>, cookie: nat, n: nat, low: nat, high: nat, p: Pending)
    requires Ordered(pending, low, high) && Comparable(pending, cookie, n)
    ensures var marked := MarkOrInsert(pending, cookie, n);
      && Listed(marked, n)
      && (p.first != n ==> (p in marked <==> p in pending))
      && (p.first == n && p in marked ==> IsDiscard(pending, n, p))
  {
    var marked := MarkOrInsert(pending, cookie, n);
    if pending == [] || pending[0].first > n {
      assert pending != [] ==> pending[0] in pending;
      assert Pending(n, n, DISCARD) in marked;
      forall q | q in pending ensures q.first > n {
        OrderedBounds(pending, low, high, q);
      }
    } else {
      assert pending[0] in pending;
      assert pending == [pending[0]] + pending[1..];
      if pending[0].first == n {
        assert Mark(pending[0]) in marked;
        forall q | q in pending[1..] ensures q.first > n {
          OrderedBounds(pending[1..], n + 1, high, q);
        }
      } else {
        MarkOrInsertMembers(pending[1..], cookie, n, pending[0].first + 1, high, p);
        var q :| q in MarkOrInsert(pending[1..], cookie, n) && q.first == n;
        assert q in marked;
      }
    }
  }

  lemma MarkOrInsertRegisters(pending: seq<Pending>, registered: map<nat, Flags>, completed: nat, low: nat, high: nat, cookie: nat, n: nat)
    requires Ordered(pending, low, high) && Comparable(pending, cookie, n)
    requires Registers(pending, registered, completed)
    ensures var flags := if n in registered then registered[n] else NO_FLAGS;
      Registers(MarkOrInsert(pending, cookie, n), registered[n := flags.(discard := true)], completed)
  {
    var flags := if n in registered then registered[n] else NO_FLAGS;
    var registered' := registered[n := flags.(discard := true)];
    var marked := MarkOrInsert(pending, cookie, n);
    forall p | p in marked && p.first > completed
      ensures p.first in registered' && registered'[p.first] == p.flags
    {
      MarkOrInsertMembers(pending, cookie, n, low, high, p);
    }
    forall k | k in registered' && k > completed ensures Listed(marked, k) {
      if k == n {
        MarkOrInsertMembers(pending, cookie, n, low, high, Pending(n, n, DISCARD));
      } else {
        assert Listed(pending, k);
        var p :| p in pending && p.first == k;
        MarkOrInsertMembers(pending, cookie, n, low, high, p);
      }
    }
  }

  /** A registration of a completed request changes nothing. */
  lemma CompletedRegistration(s: Inbound, r: Router, n: nat, flags: Flags)
    requires Simulates(s, r) && 1 <= n <= s.completed
    ensures Simulates(s, r.(registered := r.registered[n := flags]))
  {
  }

  /** Path one: the request is finished, its queue is among the stored replies. */
  lemma DiscardFinished(s: Inbound, r: Router, n: nat)
    requires Simulates(s, r) && InWindow(r) && Live(r, n) && n < s.read
    ensures Simulates(s.(replies := LinkedMap.Without(s.replies, Cookie(n))), Next(r, Discarding(n)))
  {
    ReplaceStored(s, r, n, []);
    var flags := if n in r.registered then r.registered[n] else NO_FLAGS;
    CompletedRegistration(s.(replies := LinkedMap.Without(s.replies, Cookie(n))), r.(queues := r.queues - {n}), n, flags.(discard := true));
  }

  /** The other paths: the record of the request is marked or inserted, and its replies go. */
  lemma DiscardListed(s: Inbound, r: Router, n: nat)
    requires Simulates(s, r) && InWindow(r) && Live(r, n) && s.read <= n
    ensures Simulates(s.(pending := MarkOrInsert(s.pending, Cookie(n), n), current := if n == s.read then [] else s.current),
                      Next(r, Discarding(n)))
  {
    forall p | p in s.pending ensures Compare32(p.first, Cookie(n)) == p.first - n {
      OrderedBounds(s.pending, s.read, r.issued, p);
      CompareInWindow(r, p.first, n);
    }
    MarkOrInsertOrdered(s.pending, Cookie(n), n, s.read, r.issued);
    MarkOrInsertRegisters(s.pending, r.registered, s.completed, s.read, r.issued, Cookie(n), n);
    StoresBelow(s.replies, r.queues, r.queues - {n}, r.latest);
  }

  /** Path two looks only at the head, which is where the walk would stop. */
  lemma HeadIsWalk(s: Inbound, r: Router)
    requires Simulates(s, r) && InWindow(r)
    ensures MarkOrInsert(s.pending, Cookie(s.read), s.read)
      == if Covering(s.pending, s.read).Some? then [Mark(s.pending[0])] + s.pending[1..]
         else [Pending(s.read, s.read, DISCARD)] + s.pending
  {
    if s.pending != [] {
      CompareInWindow(r, s.pending[0].first, s.read);
    }
  }

  /** Whichever of its four paths discard_reply takes, it does what the router does. */
  lemma DiscardSimulates(s: Inbound, r: Router, n: nat)
    requires Simulates(s, r) && InWindow(r) && Live(r, n)
    ensures Simulates(Discard(s, r.issued, Cookie(n)), Next(r, Discarding(n)))
  {
    CompareInWindow(r, n, s.read);
    if n < s.read {
      DiscardFinished(s, r, n);
    } else {
      DiscardListed(s, r, n);
      HeadIsWalk(s, r);
      WidenExact(r.issued, n);
    }
  }

  lemma TakeSimulates(s: Inbound, r: Router)
    requires Simulates(s, r)
    ensures Result(r, Taking) == Taken(TakeEvent(s).1)
    ensures Simulates(TakeEvent(s).0, Next(r, Taking))
  {
  }
}
