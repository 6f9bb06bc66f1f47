/**
 * The reading side of a connection (src/xcb_in.c, struct _xcb_in in
 * src/xcbint.h) as a value, and what each operation makes of it.
 */
module Inbound {
  import opened Wrappers
  import opened Sequence
  import opened Packets
  import LinkedMap

  /** XCB_REQUEST_CHECKED and XCB_REQUEST_DISCARD_REPLY. */
  datatype Flags = Flags(checked: bool, discard: bool)

  const NO_FLAGS := Flags(false, false)
  const DISCARD := Flags(false, true)

  /** struct pending_reply, without the workarounds. */
  datatype Pending = Pending(first: nat, last: nat, flags: Flags)

  /** A queued event with the 32-bit full_sequence read_packet fills in. */
  datatype Event = Event(packet: Packet, full: nat)

  datatype Inbound = Inbound(
    expected: nat,
    read: nat,
    completed: nat,
    current: seq<Packet>,
    replies: seq<(nat, seq<Packet>)>,
    events: seq<Event>,
    pending: seq<Pending>)

  const INITIAL := Inbound(0, 0, 0, [], [], [], [])

  // ----- read_packet -----

  function Prune(pending: seq<Pending>, completed: nat): seq<Pending> {
    if pending != [] && pending[0].last <= completed then Prune(pending[1..], completed) else pending
  }

  predicate Covers(pend: Pending, n: nat) {
    pend.first <= n <= pend.last
  }

  /** Only the head of the pending list is looked at. */
  function Covering(pending: seq<Pending>, n: nat): Option<Pending> {
    if pending != [] && Covers(pending[0], n) then Some(pending[0]) else None
  }

  /** The sequence-number part of read_packet. */
  function Advance(s: Inbound, p: Packet): Inbound {
    if !p.IsNumbered() then s else
      var read := Rebuild(s.read, p.low);
      var moved := read != s.read;
      var completed := if moved then read - 1 else s.completed;
      s.(
        read := read,
        expected := if read > s.expected then read else s.expected,
        replies := if moved && s.current != [] then s.replies + [(Cookie(s.read), s.current)] else s.replies,
        current := if moved then [] else s.current,
        pending := Prune(s.pending, completed),
        completed := if p.IsError() then read else completed)
  }

  /** The pending record read_packet applies to the packet, after Advance. */
  function Pend(s: Inbound, p: Packet): Option<Pending> {
    if p.IsAnswer() then Covering(s.pending, s.read) else None
  }

  /** Where read_packet puts a packet, after Advance. */
  function File(s: Inbound, p: Packet): Inbound {
    var pend := Pend(s, p);
    if pend.Some? && pend.value.flags.discard then s
    else if p.IsReply() || (p.IsError() && pend.Some? && pend.value.flags.checked)
    then s.(current := s.current + [p])
    else s.(events := s.events + [Event(p, Cookie(s.read))])
  }

  function Receive(s: Inbound, p: Packet): Inbound {
    File(Advance(s, p), p)
  }

  function ReceiveAll(s: Inbound, ps: seq<Packet>): Inbound
    decreases |ps|
  {
    if ps == [] then s else ReceiveAll(Receive(s, ps[0]), ps[1..])
  }

  // ----- poll_for_reply and get_event -----

  /** The answer of poll_for_reply: 0, or 1 with the reply or error it found. */
  datatype Polled = Block | Done(head: Option<Packet>)

  function Poll(s: Inbound, cookie: nat): (Inbound, Polled) {
    if cookie == 0 then (s, Done(None))
    else if Compare32(cookie, s.read) < 0 then
      var found := LinkedMap.Find(s.replies, cookie);
      if found.None? || found.value == [] then (s.(replies := LinkedMap.Without(s.replies, cookie)), Done(None))
      else
        var rest := LinkedMap.Without(s.replies, cookie);
        (s.(replies := if |found.value| > 1 then rest + [(cookie, found.value[1..])] else rest),
         Done(Some(found.value[0])))
    else if Compare32(cookie, s.read) == 0 && s.current != [] then
      (s.(current := s.current[1..]), Done(Some(s.current[0])))
    else if Compare32(cookie, s.completed) == 0 then (s, Done(None))
    else (s, Block)
  }

  function TakeEvent(s: Inbound): (Inbound, Option<Event>) {
    if s.events == [] then (s, None) else (s.(events := s.events[1..]), Some(s.events[0]))
  }

  // ----- discard_reply -----

  function Mark(pend: Pending): Pending {
    pend.(flags := pend.flags.(discard := true))
  }

  /** The walk along the pending list: mark the first match, or insert a record in order. */
  function MarkOrInsert(pending: seq<Pending>, cookie: nat, widened: nat): seq<Pending> {
    if pending == [] || Compare32(pending[0].first, cookie) > 0 then
      [Pending(widened, widened, DISCARD)] + pending
    else if Compare32(pending[0].first, cookie) == 0 then [Mark(pending[0])] + pending[1..]
    else [pending[0]] + MarkOrInsert(pending[1..], cookie, widened)
  }

  function Discard(s: Inbound, newest: nat, cookie: nat): Inbound {
    if Compare32(cookie, s.read) < 0 then s.(replies := LinkedMap.Without(s.replies, cookie))
    else if Compare32(cookie, s.read) == 0 && s.current != [] then
      s.(current := [],
         pending := if Covering(s.pending, s.read).Some? then [Mark(s.pending[0])] + s.pending[1..]
                    else [Pending(s.read, s.read, DISCARD)] + s.pending)
    else s.(pending := MarkOrInsert(s.pending, cookie, Widen(newest, cookie)))
  }

  // ----- numbering a request, from xcb_send_request -----

  /** _xcb_in_expect_reply. */
  function Expect(s: Inbound, n: nat, flags: Flags): Inbound {
    s.(pending := s.pending + [Pending(n, n, flags)])
  }

  /** A void request that would be the 65535th since the last expected answer is preceded by a sync. */
  predicate NeedsSync(s: Inbound, newest: nat, isVoid: bool) {
    isVoid && newest + 1 == s.expected + 0x1_0000 - 1
  }

  /** The number a new request gets. */
  function Number(s: Inbound, newest: nat, isVoid: bool): nat {
    if NeedsSync(s, newest, isVoid) then newest + 2 else newest + 1
  }

  /** The reading side once the sync request is registered. */
  function Synced(s: Inbound, newest: nat): Inbound {
    Expect(s, newest + 1, DISCARD).(expected := newest + 1)
  }

  function Issue(s: Inbound, newest: nat, isVoid: bool, flags: Flags): Inbound {
    var synced := NeedsSync(s, newest, isVoid);
    var s0 := if synced then Synced(s, newest) else s;
    var n := Number(s, newest, isVoid);
    var s1 := if flags != NO_FLAGS then Expect(s0, n, flags) else s0;
    if isVoid then s1 else s1.(expected := n)
  }
}
