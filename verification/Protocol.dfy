/**
 * A connection as a whole: the client, the server's obligations and the packets
 * the server has sent, some of them not yet read. Runs are arbitrary
 * interleavings of the application's calls, the server and the reader.
 */
module Protocol {
  import opened Sequence
  import opened Packets
  import opened Inbound

  /** A packet with the number of the request the server was at when it sent it. */
  datatype Sent = Sent(n: nat, p: Packet)

  datatype System = System(
    client: Inbound,
    newest: nat,          // out.request
    written: nat,         // out.request_written
    owing: set<nat>,      // requests the server must answer
    stream: seq<Sent>,    // everything the server has sent
    taken: nat)           // how much of it has been read

  const START := System(INITIAL, 0, 0, {}, [], 0)

  datatype Action =
    | SendRequest(isVoid: bool, flags: Flags, flushes: bool)
    | FlushTo(to: nat)
    | ServerSends(sent: Sent)
    | ReadPacket
    | PollReply(n: nat)
    | DiscardReply(n: nat)
    | PollEvent

  function Last(stream: seq<Sent>): nat {
    if stream == [] then 0 else stream[|stream| - 1].n
  }

  predicate Answered(stream: seq<Sent>, n: nat) {
    exists x :: x in stream && x.n == n && x.p.IsAnswer()
  }

  predicate Failed(stream: seq<Sent>, n: nat) {
    exists x :: x in stream && x.n == n && x.p.IsError()
  }

  /**
   * What the core protocol promises about the next packet: numbers never
   * decrease and never exceed the requests made, every request that wants an
   * answer has one before a later number shows up, and an error is the last
   * answer to its request. KeymapNotify carries no number.
   */
  ghost predicate MayEmit(sys: System, x: Sent) {
    && (x.p.IsNumbered() ==> x.p.low == Low16(x.n))
    && (!x.p.IsNumbered() ==> x.n == Last(sys.stream))
    && Last(sys.stream) <= x.n <= sys.newest
    && (forall a :: a in sys.owing && a < x.n ==> Answered(sys.stream, a))
    && (x.p.IsAnswer() ==> x.n >= 1 && !Failed(sys.stream, x.n))
  }

  ghost predicate Legal(sys: System, a: Action) {
    match a
    case SendRequest(_, _, _) => sys.newest + 2 < TWO63
    case FlushTo(to) => to <= sys.newest
    case ServerSends(x) => MayEmit(sys, x)
    case ReadPacket => sys.taken < |sys.stream|
    case PollReply(n) => 1 <= n <= sys.newest && Cookie(n) != 0
    case DiscardReply(n) => 1 <= n <= sys.newest && Cookie(n) != 0
    case PollEvent => true
  }

  /** The requests owed an answer after one more request. */
  function Owing(c: Inbound, newest: nat, owing: set<nat>, isVoid: bool): set<nat> {
    owing + (if NeedsSync(c, newest, isVoid) then {newest + 1} else {}) + (if isVoid then {} else {Number(c, newest, isVoid)})
  }

  function Next(sys: System, a: Action): System {
    match a
    case SendRequest(isVoid, flags, flushes) =>
      var n := Number(sys.client, sys.newest, isVoid);
      sys.(client := Issue(sys.client, sys.newest, isVoid, flags),
           newest := n,
           written := if flushes then n else sys.written,
           owing := Owing(sys.client, sys.newest, sys.owing, isVoid))
    case FlushTo(to) => if sys.written >= to then sys else sys.(written := sys.newest)
    case ServerSends(x) => sys.(stream := sys.stream + [x])
    case ReadPacket =>
      if sys.taken < |sys.stream|
      then sys.(client := Receive(sys.client, sys.stream[sys.taken].p), taken := sys.taken + 1)
      else sys
    case PollReply(n) => sys.(client := Poll(sys.client, Cookie(n)).0)
    case DiscardReply(n) => sys.(client := Discard(sys.client, sys.newest, Cookie(n)))
    case PollEvent => sys.(client := TakeEvent(sys.client).0)
  }

  // ----- the invariant -----

  function Before(stream: seq<Sent>, i: nat): nat
    requires i <= |stream|
  {
    if i == 0 then 0 else stream[i - 1].n
  }

  /** Consecutive packet numbers never decrease and are less than 2^16 apart. */
  ghost predicate Close(stream: seq<Sent>) {
    && (stream != [] ==> stream[0].n < TWO16)
    && (forall i, j :: 0 <= i < j < |stream| && j == i + 1 ==> stream[i].n <= stream[j].n < stream[i].n + TWO16)
  }

  /** From the last packet on, an answer is owed in every 65535 consecutive requests. */
  ghost predicate Dense(owing: set<nat>, last: nat, newest: nat) {
    forall x :: (x == last || (x in owing && x > last)) && x + 65535 <= newest ==> OwedAfter(owing, x)
  }

  ghost predicate OwedAfter(owing: set<nat>, x: nat) {
    exists a :: a in owing && x < a <= x + 65535
  }

  /** Packet i is numbered as the protocol says, given the packets before it. */
  ghost predicate Numbered(stream: seq<Sent>, i: nat)
    requires i < |stream|
  {
    var x := stream[i];
    && (if x.p.IsNumbered() then x.p.low == Low16(x.n) else x.n == Before(stream, i))
    && (x.p.IsAnswer() ==> x.n >= 1 && !Failed(stream[..i], x.n))
  }

  ghost predicate WellFormed(stream: seq<Sent>) {
    forall i {:trigger Numbered(stream, i)} :: 0 <= i < |stream| ==> Numbered(stream, i)
  }

  /** The server's side: what it has sent and what it still has to answer. */
  ghost predicate ServerKeepsUp(stream: seq<Sent>, owing: set<nat>, newest: nat) {
    && WellFormed(stream) && Close(stream)
    && Last(stream) <= newest
    && (forall a :: a in owing && a < Last(stream) ==> Answered(stream, a))
    && Dense(owing, Last(stream), newest)
  }

  /** The client's side: fewer than 65535 requests since the last one an answer is expected for. */
  ghost predicate Counts(c: Inbound, newest: nat, owing: set<nat>) {
    && c.completed <= c.read <= c.completed + 1
    && c.read <= c.expected <= newest <= c.expected + 65534
    && (c.expected == c.read || c.expected in owing)
    && (forall a :: a in owing ==> 1 <= a <= c.expected)
  }

  ghost predicate Invariant(sys: System) {
    && sys.newest < TWO63 && sys.written <= sys.newest
    && sys.taken <= |sys.stream|
    && sys.client.read == Before(sys.stream, sys.taken)
    && Counts(sys.client, sys.newest, sys.owing)
    && ServerKeepsUp(sys.stream, sys.owing, sys.newest)
  }

  /** XCB_SEQUENCE_COMPARE, on any two numbers in use, is the order of the integers. */
  lemma ComparesExactly(sys: System, a: nat, b: nat)
    requires Invariant(sys) && a <= sys.newest && b <= sys.newest
    ensures Compare64(a, b) == a - b
    ensures Compare32(Cookie(a), Cookie(b)) == Compare64(a, b) <==> -TWO31 <= a - b < TWO31
  {
    Compare64Exact(a, b);
    Compare32Exact(a, b);
  }

  // ----- every step keeps it -----

  /** What a request adds: nothing, itself, or the sync before it. */
  ghost predicate Adds(owing: set<nat>, owing': set<nat>, newest: nat, newest': nat, expected: nat) {
    || (owing' == owing && newest' == newest + 1 <= expected + 65534)
    || (owing' == owing + {newest'} && newest' == newest + 1)
    || (owing' == owing + {newest + 1} && newest' == newest + 2 && newest == expected + 65534)
  }

  lemma DenseGrows(owing: set<nat>, owing': set<nat>, last: nat, newest: nat, newest': nat, expected: nat)
    requires Dense(owing, last, newest) && Adds(owing, owing', newest, newest', expected)
    requires last <= newest && expected <= newest <= expected + 65534
    requires expected <= last || expected in owing
    requires forall a :: a in owing ==> a <= expected
    ensures Dense(owing', last, newest')
  {
    forall x | (x == last || (x in owing' && x > last)) && x + 65535 <= newest' ensures OwedAfter(owing', x) {
      if x + 65535 <= newest {
        assert OwedAfter(owing, x);
        var a :| a in owing && x < a <= x + 65535;
        assert a in owing';
      } else if x < expected {
        assert expected in owing';
      } else {
        assert newest + 1 in owing';
      }
    }
  }

  lemma IssueCounts(c: Inbound, newest: nat, isVoid: bool, flags: Flags)
    ensures var c' := Issue(c, newest, isVoid, flags);
      && c'.read == c.read && c'.completed == c.completed
      && c'.expected == (if !isVoid then newest + 1 else if NeedsSync(c, newest, isVoid) then newest + 1 else c.expected)
  {
  }

  lemma SendCounts(c: Inbound, newest: nat, owing: set<nat>, isVoid: bool, flags: Flags)
    requires Counts(c, newest, owing)
    ensures var c', newest', owing' := Issue(c, newest, isVoid, flags), Number(c, newest, isVoid), Owing(c, newest, owing, isVoid);
      Counts(c', newest', owing') && Adds(owing, owing', newest, newest', c.expected)
  {
    IssueCounts(c, newest, isVoid, flags);
    var synced := NeedsSync(c, newest, isVoid);
    assert !synced && isVoid ==> Owing(c, newest, owing, isVoid) == owing;
  }

  lemma ServerSeesMore(stream: seq<Sent>, owing: set<nat>, owing': set<nat>, newest: nat, newest': nat, expected: nat)
    requires ServerKeepsUp(stream, owing, newest) && Adds(owing, owing', newest, newest', expected)
    requires expected <= newest <= expected + 65534 && (expected <= Last(stream) || expected in owing)
    requires forall a :: a in owing ==> a <= expected
    ensures ServerKeepsUp(stream, owing', newest')
  {
    DenseGrows(owing, owing', Last(stream), newest, newest', expected);
    assert forall a :: a in owing' && a < Last(stream) ==> a in owing;
  }

  /**
   * A sync goes out exactly at the last moment: when a void request comes, and
   * the number behind its own could no longer be told from 16 bits if nothing
   * after the last expected answer had been read.
   */
  lemma SyncsInTime(sys: System, isVoid: bool)
    requires Invariant(sys)
    ensures NeedsSync(sys.client, sys.newest, isVoid)
      <==> isVoid && Rebuild(sys.client.expected, Low16(sys.newest + 2)) != sys.newest + 2
    ensures Rebuild(sys.client.expected, Low16(sys.newest + 1)) == sys.newest + 1
  {
    RebuildExact(sys.client.expected, sys.newest + 1);
    RebuildExact(sys.client.expected, sys.newest + 2);
  }

  lemma SendKeeps(sys: System, isVoid: bool, flags: Flags, flushes: bool)
    requires Invariant(sys) && sys.newest + 2 < TWO63
    ensures Invariant(Next(sys, SendRequest(isVoid, flags, flushes)))
  {
    var next := Next(sys, SendRequest(isVoid, flags, flushes));
    SendCounts(sys.client, sys.newest, sys.owing, isVoid, flags);
    LastRead(sys.stream, sys.taken);
    ServerSeesMore(sys.stream, sys.owing, next.owing, sys.newest, next.newest, sys.client.expected);
    IssueCounts(sys.client, sys.newest, isVoid, flags);
  }

  /** Numbers only grow along the stream. */
  lemma {:induction false} LastRead(stream: seq<Sent>, i: nat)
    requires Close(stream) && i <= |stream|
    ensures Before(stream, i) <= Last(stream)
    ensures i < |stream| ==> Before(stream, i) <= stream[i].n < Before(stream, i) + TWO16
    decreases |stream| - i
  {
    if i < |stream| {
      LastRead(stream, i + 1);
    }
  }

  /** The server cannot leave the window: an answer owed in between would have to come first. */
  lemma EmitClose(sys: System, x: Sent)
    requires Invariant(sys) && MayEmit(sys, x)
    ensures x.n < Last(sys.stream) + TWO16
  {
    var last := Last(sys.stream);
    if x.n >= last + TWO16 {
      assert OwedAfter(sys.owing, last);
      var a :| a in sys.owing && last < a <= last + 65535;
      assert Answered(sys.stream, a);
      var y :| y in sys.stream && y.n == a && y.p.IsAnswer();
      var i :| 0 <= i < |sys.stream| && sys.stream[i] == y;
      LastRead(sys.stream, i + 1);
      assert false;
    }
  }

  lemma EmitStream(stream: seq<Sent>, x: Sent)
    requires WellFormed(stream) && Close(stream)
    requires Last(stream) <= x.n < Last(stream) + TWO16
    requires x.p.IsNumbered() ==> x.p.low == Low16(x.n)
    requires !x.p.IsNumbered() ==> x.n == Last(stream)
    requires x.p.IsAnswer() ==> x.n >= 1 && !Failed(stream, x.n)
    ensures WellFormed(stream + [x]) && Close(stream + [x])
  {
    var longer := stream + [x];
    forall i | 0 <= i < |longer| ensures Numbered(longer, i) {
      assert longer[..i] == stream[..i];
      assert i < |stream| ==> Numbered(stream, i);
    }
  }

  /** Following the owed answers from one up to x reaches one after x. */
  lemma {:induction false} OwedFrom(owing: set<nat>, last: nat, newest: nat, x: nat, y: nat)
    requires Dense(owing, last, newest) && last <= y <= x && x + 65535 <= newest
    requires y == last || y in owing
    ensures OwedAfter(owing, x)
    decreases x - y
  {
    assert OwedAfter(owing, y);
    var a :| a in owing && y < a <= y + 65535;
    if a <= x {
      OwedFrom(owing, last, newest, x, a);
    }
  }

  /** From whichever number the server is at, the remaining requests are covered. */
  lemma DenseMoves(owing: set<nat>, last: nat, last': nat, newest: nat)
    requires Dense(owing, last, newest) && last <= last' <= newest
    ensures Dense(owing, last', newest)
  {
    forall x | (x == last' || (x in owing && x > last')) && x + 65535 <= newest ensures OwedAfter(owing, x) {
      OwedFrom(owing, last, newest, x, last);
    }
  }

  lemma EmitKeeps(sys: System, x: Sent)
    requires Invariant(sys) && MayEmit(sys, x)
    ensures Invariant(Next(sys, ServerSends(x)))
  {
    EmitClose(sys, x);
    EmitStream(sys.stream, x);
    DenseMoves(sys.owing, Last(sys.stream), x.n, sys.newest);
    var stream := sys.stream + [x];
    assert Before(stream, sys.taken) == Before(sys.stream, sys.taken);
    forall a | a in sys.owing && a < x.n ensures Answered(stream, a) {
      assert Answered(sys.stream, a);
      var y :| y in sys.stream && y.n == a && y.p.IsAnswer();
      assert y in stream;
    }
  }

  /** The number the client rebuilds is the one the packet was sent with. */
  lemma ReadExact(sys: System)
    requires Invariant(sys) && sys.taken < |sys.stream|
    ensures Next(sys, ReadPacket).client.read == sys.stream[sys.taken].n
  {
    var x := sys.stream[sys.taken];
    assert Numbered(sys.stream, sys.taken);
    LastRead(sys.stream, sys.taken);
    RebuildExact(sys.client.read, x.n);
    ReceiveCounts(sys.client, x.p);
  }

  lemma ReceiveCounts(c: Inbound, p: Packet)
    ensures Receive(c, p).read == if p.IsNumbered() then Rebuild(c.read, p.low) else c.read
    ensures Receive(c, p).completed ==
      if !p.IsNumbered() || (Rebuild(c.read, p.low) == c.read && !p.IsError()) then c.completed
      else if p.IsError() then Rebuild(c.read, p.low) else Rebuild(c.read, p.low) - 1
    ensures Receive(c, p).expected ==
      if p.IsNumbered() && Rebuild(c.read, p.low) > c.expected then Rebuild(c.read, p.low) else c.expected
  {
  }

  lemma ReadKeeps(sys: System)
    requires Invariant(sys) && sys.taken < |sys.stream|
    ensures Invariant(Next(sys, ReadPacket))
  {
    ReadExact(sys);
    ReceiveCounts(sys.client, sys.stream[sys.taken].p);
    LastRead(sys.stream, sys.taken);
    LastRead(sys.stream, sys.taken + 1);
  }

  lemma StepKeeps(sys: System, a: Action)
    requires Invariant(sys) && Legal(sys, a)
    ensures Invariant(Next(sys, a))
  {
    match a
    case SendRequest(isVoid, flags, flushes) => SendKeeps(sys, isVoid, flags, flushes);
    case ServerSends(x) => EmitKeeps(sys, x);
    case ReadPacket => ReadKeeps(sys);
    case _ =>
  }

  /** The three counters never go back, and follow one another closely. */
  lemma CountersAdvance(sys: System, a: Action)
    requires Invariant(sys) && Legal(sys, a)
    ensures var c, c' := sys.client, Next(sys, a).client;
      && c.read <= c'.read && c.completed <= c'.completed && c.expected <= c'.expected
      && c'.read - 1 <= c'.completed <= c'.read <= c'.expected <= Next(sys, a).newest
  {
    StepKeeps(sys, a);
    match a
    case SendRequest(isVoid, flags, flushes) => IssueCounts(sys.client, sys.newest, isVoid, flags);
    case ReadPacket =>
      ReadExact(sys);
      ReceiveCounts(sys.client, sys.stream[sys.taken].p);
      LastRead(sys.stream, sys.taken);
    case _ =>
  }

  // ----- runs -----

  function Run(sys: System, acts: seq<Action>): System
    decreases |acts|
  {
    if acts == [] then sys else Run(Next(sys, acts[0]), acts[1..])
  }

  ghost predicate LegalRun(sys: System, acts: seq<Action>)
    decreases |acts|
  {
    acts == [] || (Legal(sys, acts[0]) && LegalRun(Next(sys, acts[0]), acts[1..]))
  }

  /** Runs can be put together. */
  lemma {:induction false} RunAppends(sys: System, a: seq<Action>, b: seq<Action>)
    ensures Run(sys, a + b) == Run(Run(sys, a), b)
    ensures LegalRun(sys, a + b) <==> LegalRun(sys, a) && LegalRun(Run(sys, a), b)
    decreases |a|
  {
    if a == [] {
      assert a + b == b;
    } else {
      assert (a + b)[0] == a[0] && (a + b)[1..] == a[1..] + b;
      RunAppends(Next(sys, a[0]), a[1..], b);
    }
  }

  lemma {:induction false} RunKeeps(sys: System, acts: seq<Action>)
    requires Invariant(sys) && LegalRun(sys, acts)
    ensures Invariant(Run(sys, acts))
    decreases |acts|
  {
    if acts != [] {
      StepKeeps(sys, acts[0]);
      RunKeeps(Next(sys, acts[0]), acts[1..]);
    }
  }

  /**
   * In every run, after every packet, request_read is the number of the request
   * the server was at, although only 16 bits of it were sent.
   */
  lemma SequenceNumbersAreExact(acts: seq<Action>)
    requires LegalRun(START, acts)
    ensures var sys := Run(START, acts);
      && sys.taken <= |sys.stream|
      && sys.client.read == Before(sys.stream, sys.taken)
      && (sys.taken < |sys.stream| ==> Next(sys, ReadPacket).client.read == sys.stream[sys.taken].n)
      && sys.newest - sys.client.expected <= 65534
  {
    assert Invariant(START);
    RunKeeps(START, acts);
    var sys := Run(START, acts);
    if sys.taken < |sys.stream| {
      ReadExact(sys);
    }
  }
}
