/**
 * What the reading side is for, stated without its data structures: one queue
 * of answers per request and one queue of events, addressed by true request
 * numbers, with every registration remembered for ever. This is the reference
 * the library is compared with.
 */
module Router {
  import opened Wrappers
  import opened Sequence
  import opened Packets
  import opened Inbound

  datatype Router = Router(
    issued: nat,
    registered: map<nat, Flags>,
    latest: nat,
    failed: set<nat>,
    queues: map<nat, seq<Packet>>,
    events: seq<Event>)

  const START := Router(0, map[], 0, {}, map[], [])

  datatype Destination = Dropped | ToRequest | ToEvents

  function Registration(r: Router, n: nat): Flags {
    if n in r.registered then r.registered[n] else NO_FLAGS
  }

  /** Each packet goes to exactly one place, decided by its kind and its request's registration. */
  function Destine(r: Router, n: nat, p: Packet): Destination {
    var flags := Registration(r, n);
    if p.IsAnswer() && flags.discard then Dropped
    else if p.IsReply() || (p.IsError() && flags.checked) then ToRequest
    else ToEvents
  }

  function Queue(r: Router, n: nat): seq<Packet> {
    if n in r.queues then r.queues[n] else []
  }

  /** No answer to request n can arrive any more: it failed, or a later number has been seen. */
  predicate Decided(r: Router, n: nat) {
    n < r.latest || n in r.failed
  }

  datatype Action =
    | Issued(synced: bool, flags: Flags)
    | Arrived(n: nat, p: Packet)
    | Polling(n: nat)
    | Discarding(n: nat)
    | Taking
    | Idle

  datatype Output = Quiet | Answer(polled: Polled) | Taken(event: Option<Event>)

  function Register(r: Router, flags: Flags): Router {
    var n := r.issued + 1;
    r.(issued := n, registered := if flags == NO_FLAGS then r.registered else r.registered[n := flags])
  }

  function Arrive(r: Router, n: nat, p: Packet): Router {
    var r1 := r.(latest := n, failed := if p.IsError() then r.failed + {n} else r.failed);
    match Destine(r, n, p)
    case Dropped => r1
    case ToRequest => r1.(queues := r.queues[n := Queue(r, n) + [p]])
    case ToEvents => r1.(events := r.events + [Event(p, Cookie(n))])
  }

  function Next(r: Router, a: Action): Router {
    match a
    case Issued(synced, flags) => Register(if synced then Register(r, DISCARD) else r, flags)
    case Arrived(n, p) => Arrive(r, n, p)
    case Polling(n) =>
      var q := Queue(r, n);
      if |q| == 0 then r
      else r.(queues := if |q| == 1 then r.queues - {n} else r.queues[n := q[1..]])
    case Discarding(n) =>
      r.(queues := r.queues - {n}, registered := r.registered[n := Registration(r, n).(discard := true)])
    case Taking => if r.events == [] then r else r.(events := r.events[1..])
    case Idle => r
  }

  function Result(r: Router, a: Action): Output {
    match a
    case Polling(n) =>
      Answer(if Queue(r, n) != [] then Done(Some(Queue(r, n)[0]))
             else if Decided(r, n) then Done(None)
             else Block)
    case Taking => Taken(if r.events == [] then None else Some(r.events[0]))
    case _ => Quiet
  }

  function Run(r: Router, acts: seq<Action>): Router
    decreases |acts|
  {
    if acts == [] then r else Run(Next(r, acts[0]), acts[1..])
  }

  function Results(r: Router, acts: seq<Action>): (results: seq<Output>)
    ensures |results| == |acts|
    decreases |acts|
  {
    if acts == [] then [] else [Result(r, acts[0])] + Results(Next(r, acts[0]), acts[1..])
  }
}
