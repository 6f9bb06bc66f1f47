/**
 * The allocator of resource identifiers (src/xcb_xid.c). Identifiers are 32-bit
 * words: the client's base with some of the bits of its mask; the mask rule is
 * in chapter 8, "Connection Setup", of the X Window System Protocol.
 */
module Xid {
  import opened Sequence

  // ----- words -----

  function Or(a: nat, b: nat): (r: nat)
    ensures r >= a && r >= b && r <= a + b
  {
    if a == 0 then b else if b == 0 then a
    else 2 * Or(a / 2, b / 2) + (if a % 2 == 1 || b % 2 == 1 then 1 else 0)
  }

  function And(a: nat, b: nat): (r: nat)
    ensures r <= a && r <= b
  {
    if a == 0 || b == 0 then 0
    else 2 * And(a / 2, b / 2) + (if a % 2 == 1 && b % 2 == 1 then 1 else 0)
  }

  /** Wrapping to 32 bits. */
  function Word(x: int): (r: nat)
    ensures r < TWO32
  {
    x % TWO32
  }

  // ----- the allocator -----

  /** What the server would say if asked for more: nothing at all, or a range. */
  datatype Answer = NoExtension | NoReply | Range(start: nat, count: nat)

  datatype Xid = Xid(last: nat, max: nat, base: nat, inc: nat, mask: nat)

  /** What a call comes to: an identifier, the failure value -1, or a failed assertion. */
  datatype Outcome = Id(id: nat) | Failed | Aborted

  /** _xcb_xid_init. */
  function Init(base: nat, mask: nat): Xid {
    Xid(0, 0, base, And(mask, Word(0 - mask)), mask)
  }

  /** xcb_generate_id on a connection without error; `asked` tells whether it used the server's answer. */
  function Generate(x: Xid, answer: Answer): (Xid, Outcome) {
    if !Exhausted(x) then Hand(x.(last := Word(x.last + x.inc)))
    else if x.last != x.max then (x, Aborted)
    else if x.last == 0 then Hand(x.(max := x.mask))
    else match answer
      case NoExtension => (x, Failed)
      case NoReply => (x, Failed)
      case Range(start, count) =>
        if start == 0 && count == 1 then (x, Failed)
        else if count == 0 || start == 0 then (x, Aborted)
        else Hand(x.(last := start, max := Word(start + (count - 1) * x.inc)))
  }

  predicate Exhausted(x: Xid) {
    x.last >= Word(x.max - x.inc + 1)
  }

  predicate Asks(x: Xid) {
    Exhausted(x) && x.last == x.max && x.last != 0
  }

  function Hand(x: Xid): (Xid, Outcome) {
    (x, Id(Or(x.last, x.base)))
  }

  class Allocator {
    var last: nat
    var max: nat
    const base: nat
    const inc: nat
    const mask: nat

    function State(): Xid
      reads this
    {
      Xid(last, max, base, inc, mask)
    }

    constructor (base: nat, mask: nat)
      ensures State() == Init(base, mask)
    {
      last, max := 0, 0;
      this.base, this.mask := base, mask;
      inc := And(mask, Word(0 - mask));
    }

    /** xcb_generate_id. */
    method GenerateId(hasError: bool, answer: Answer) returns (ret: nat, aborted: bool)
      modifies this
      ensures hasError ==> State() == old(State()) && !aborted && ret == TWO32 - 1
      ensures !hasError ==> State() == Generate(old(State()), answer).0
      ensures !hasError ==> match Generate(old(State()), answer).1
        case Id(id) => !aborted && ret == id
        case Failed => !aborted && ret == TWO32 - 1
        case Aborted => aborted
    {
      ret, aborted := TWO32 - 1, false;
      if hasError {
        return;
      }
      if last >= Word(max - inc + 1) {
        if last != max {
          aborted := true;
          return;
        }
        if last == 0 {
          max := mask;
        } else {
          match answer {
            case NoExtension => return;
            case NoReply => return;
            case Range(start, count) =>
              if start == 0 && count == 1 {
                return;
              }
              if !(count > 0 && start > 0) {
                aborted := true;
                return;
              }
              last := start;
              max := Word(start + (count - 1) * inc);
          }
        }
      } else {
        last := Word(last + inc);
      }
      ret := Or(last, base);
    }
  }

  // ----- the increment -----

  function Pow2(k: nat): (p: nat)
    ensures p >= 1
  {
    if k == 0 then 1 else 2 * Pow2(k - 1)
  }

  /** A number has no bit in common with its complement. */
  lemma {:induction false} ComplementApart(m: nat, k: nat)
    requires m < Pow2(k)
    ensures And(m, Pow2(k) - 1 - m) == 0
  {
    if k > 0 {
      var c := Pow2(k) - 1 - m;
      assert c / 2 == Pow2(k - 1) - 1 - m / 2;
      assert m % 2 == 0 || c % 2 == 0;
      ComplementApart(m / 2, k - 1);
    }
  }

  lemma Doubled(a: nat, q: nat, p: nat)
    requires a == q * p
    ensures 2 * a == q * (2 * p)
  {
  }

  lemma OddMask(m: nat, k: nat)
    requires m < Pow2(k) && m % 2 == 1
    ensures And(m, Pow2(k) - m) == 1
  {
    var n := Pow2(k) - m;
    assert n / 2 == Pow2(k - 1) - 1 - m / 2;
    ComplementApart(m / 2, k - 1);
  }

  lemma EvenMask(half: nat, k: nat)
    requires 0 < 2 * half < Pow2(k)
    ensures k > 0 && half < Pow2(k - 1)
    ensures And(2 * half, Pow2(k) - 2 * half) == 2 * And(half, Pow2(k - 1) - half)
  {
    var n := Pow2(k) - 2 * half;
    assert n / 2 == Pow2(k - 1) - half && n % 2 == 0;
  }

  /** p is the lowest bit of m: it divides m an odd number q of times, and it divides 2^k. */
  predicate LowestBit(m: nat, k: nat, p: nat, q: nat, h: nat) {
    p > 0 && m == q * p && q % 2 == 1 && Pow2(k) == h * p && (p == 1 <==> m % 2 == 1)
  }

  lemma LowestBitDoubled(m: nat, k: nat, p: nat, q: nat, h: nat)
    requires LowestBit(m, k, p, q, h)
    ensures LowestBit(2 * m, k + 1, 2 * p, q, h)
  {
    Doubled(m, q, p);
    Doubled(Pow2(k), h, p);
  }

  /** `mask & -mask` is the lowest bit of the mask. */
  lemma {:induction false} IncrementIsLowestBit(m: nat, k: nat) returns (q: nat, h: nat)
    requires 0 < m < Pow2(k)
    ensures LowestBit(m, k, And(m, Pow2(k) - m), q, h)
  {
    if m % 2 == 1 {
      OddMask(m, k);
      q, h := m, Pow2(k);
    } else {
      EvenMask(m / 2, k);
      var p := And(m / 2, Pow2(k - 1) - m / 2);
      q, h := IncrementIsLowestBit(m / 2, k - 1);
      LowestBitDoubled(m / 2, k - 1, p, q, h);
    }
  }

  // ----- runs -----

  /** A stretch of identifiers: start, start + 1, and so on. */
  datatype Block = Block(start: nat, count: nat)

  function Supply(blocks: seq<Block>): seq<Answer> {
    if blocks == [] then [] else [Range(blocks[0].start, blocks[0].count)] + Supply(blocks[1..])
  }

  function FirstAnswer(server: seq<Answer>): Answer {
    if server == [] then NoReply else server[0]
  }

  /** The server's answers after a call. */
  function Rest(x: Xid, server: seq<Answer>): seq<Answer> {
    if Asks(x) && server != [] then server[1..] else server
  }

  /** The outcomes of n calls; the server answers in order, and with nothing in the end. */
  function Drawn(x: Xid, server: seq<Answer>, n: nat): seq<Outcome>
    decreases n
  {
    if n == 0 then [] else
      var g := Generate(x, FirstAnswer(server));
      [g.1] + Drawn(g.0, Rest(x, server), n - 1)
  }

  function Ids(base: nat, from: nat, n: nat): seq<Outcome>
    decreases n
  {
    if n == 0 then [] else [Id(Or(from, base))] + Ids(base, from + 1, n - 1)
  }

  function AllIds(base: nat, blocks: seq<Block>): seq<Outcome> {
    if blocks == [] then [] else Ids(base, blocks[0].start, blocks[0].count) + AllIds(base, blocks[1..])
  }

  /** What the server's answers are worth, one after the other: the identifiers of a range, or one failure. */
  function Told(base: nat, server: seq<Answer>): seq<Outcome> {
    if server == [] then [] else
      (match server[0]
       case Range(start, count) => if start == 0 then [Failed] else Ids(base, start, count)
       case _ => [Failed]) + Told(base, server[1..])
  }

  /** The first n of the outcomes, and failures when they are used up. */
  function Upto(outcomes: seq<Outcome>, n: nat): seq<Outcome> {
    if n == 0 then [] else
      [if outcomes == [] then Failed else outcomes[0]] + Upto(if outcomes == [] then [] else outcomes[1..], n - 1)
  }

  /** Ranges a server gives: not empty, not the code for "none left", and inside 32 bits. */
  ghost predicate Sound(blocks: seq<Block>) {
    forall b :: b in blocks ==> b.start > 0 && b.count > 0 && b.start + b.count - 1 < TWO32
  }

  /** A server that is asked may have no extension or no reply for it, no range left, or a range like that. */
  ghost predicate SoundAnswers(server: seq<Answer>) {
    forall a :: a in server && a.Range? ==>
      (a.start == 0 && a.count == 1) || (a.start > 0 && a.count > 0 && a.start + a.count - 1 < TWO32)
  }

  lemma UptoFirst(h: Outcome, t: seq<Outcome>, n: nat)
    requires n > 0
    ensures Upto([h] + t, n) == [h] + Upto(t, n - 1)
  {
    assert ([h] + t)[1..] == t;
  }

  /** Inside a range the next call hands out the next number. */
  lemma NextInside(x: Xid, answer: Answer)
    requires x.inc == 1 && x.last < x.max < TWO32
    ensures !Asks(x) && Generate(x, answer) == Hand(x.(last := x.last + 1))
  {
    assert Word(x.max) == x.max && Word(x.last + 1) == x.last + 1;
  }

  /** At its end it hands out the first number of the next one. */
  lemma NextRange(x: Xid, b: Block)
    requires x.inc == 1 && x.last == x.max < TWO32 && x.max > 0
    requires b.start > 0 && b.count > 0 && b.start + b.count - 1 < TWO32
    ensures Asks(x) && Generate(x, Range(b.start, b.count)) == Hand(x.(last := b.start, max := b.start + b.count - 1))
  {
  }

  /** Or fails, if there is none, with nothing changed. */
  lemma NextNone(x: Xid, answer: Answer)
    requires x.inc == 1 && x.last == x.max < TWO32 && x.max > 0
    requires answer.Range? ==> answer == Range(0, 1)
    ensures Asks(x) && Generate(x, answer) == (x, Failed)
  {
  }

  /** What is left of the current range, and then what the server says. */
  function Ahead(x: Xid, server: seq<Answer>): seq<Outcome>
    requires x.last <= x.max
  {
    Ids(x.base, x.last + 1, x.max - x.last) + Told(x.base, server)
  }

  lemma AheadInside(x: Xid, server: seq<Answer>)
    requires x.last < x.max
    ensures var x' := x.(last := x.last + 1);
      Ahead(x, server) == [Hand(x').1] + Ahead(x', server)
  {
  }

  lemma AheadRange(x: Xid, b: Block, server: seq<Answer>)
    requires x.last == x.max && server != [] && server[0] == Range(b.start, b.count) && b.start > 0 && b.count > 0
    ensures var x' := x.(last := b.start, max := b.start + b.count - 1);
      Ahead(x, server) == [Hand(x').1] + Ahead(x', server[1..])
  {
    var ids, later := Ids(x.base, b.start + 1, b.count - 1), Told(x.base, server[1..]);
    var first := Id(Or(b.start, x.base));
    assert Ids(x.base, x.last + 1, 0) == [] && Ids(x.base, b.start, b.count) == [first] + ids;
    assert ([first] + ids) + later == [first] + (ids + later);
  }

  lemma AheadNone(x: Xid, server: seq<Answer>)
    requires x.last == x.max && server != [] && (server[0].Range? ==> server[0].start == 0)
    ensures Ahead(x, server) == [Failed] + Ahead(x, server[1..])
  {
    assert Ids(x.base, x.last + 1, 0) == [];
  }

  /** The outcomes of n calls, from the first call on. */
  lemma DrawnFirst(x: Xid, x': Xid, server: seq<Answer>, server': seq<Answer>, n: nat)
    requires n > 0 && Generate(x, FirstAnswer(server)).0 == x' && Rest(x, server) == server'
    ensures Drawn(x, server, n) == [Generate(x, FirstAnswer(server)).1] + Drawn(x', server', n - 1)
  {
  }

  lemma OneThenUpto(h: Outcome, drawn: seq<Outcome>, drawn': seq<Outcome>, ahead: seq<Outcome>, ahead': seq<Outcome>, n: nat)
    requires n > 0 && drawn == [h] + drawn' && drawn' == Upto(ahead', n - 1) && ahead == [h] + ahead'
    ensures drawn == Upto(ahead, n)
  {
    UptoFirst(h, ahead', n);
  }

  lemma {:induction false} DrawnFrom(x: Xid, server: seq<Answer>, n: nat)
    requires x.inc == 1 && x.last <= x.max < TWO32 && x.max > 0 && SoundAnswers(server)
    ensures Drawn(x, server, n) == Upto(Ahead(x, server), n)
    decreases n
  {
    if n == 0 {
    } else if x.last < x.max {
      DrawnInside(x, server, n);
    } else if server != [] {
      assert server[0] in server;
      if server[0].Range? && server[0].start > 0 {
        DrawnRange(x, server, n);
      } else {
        DrawnNone(x, server, n);
      }
    } else {
      DrawnFrom(x, server, n - 1);
      assert Ahead(x, server) == [];
    }
  }

  lemma {:induction false} DrawnInside(x: Xid, server: seq<Answer>, n: nat)
    requires x.inc == 1 && x.last < x.max < TWO32 && SoundAnswers(server) && n > 0
    ensures Drawn(x, server, n) == Upto(Ahead(x, server), n)
    decreases n, 0
  {
    var x' := x.(last := x.last + 1);
    NextInside(x, FirstAnswer(server));
    DrawnFirst(x, x', server, server, n);
    DrawnFrom(x', server, n - 1);
    AheadInside(x, server);
    OneThenUpto(Hand(x').1, Drawn(x, server, n), Drawn(x', server, n - 1), Ahead(x, server), Ahead(x', server), n);
  }

  lemma {:induction false} DrawnRange(x: Xid, server: seq<Answer>, n: nat)
    requires x.inc == 1 && x.last == x.max < TWO32 && x.max > 0 && SoundAnswers(server) && n > 0
    requires server != [] && server[0].Range? && server[0].start > 0
    ensures Drawn(x, server, n) == Upto(Ahead(x, server), n)
    decreases n, 0
  {
    assert server[0] in server;
    var b, rest := Block(server[0].start, server[0].count), server[1..];
    var x' := x.(last := b.start, max := b.start + b.count - 1);
    NextRange(x, b);
    DrawnFirst(x, x', server, rest, n);
    DrawnFrom(x', rest, n - 1);
    AheadRange(x, b, server);
    OneThenUpto(Hand(x').1, Drawn(x, server, n), Drawn(x', rest, n - 1), Ahead(x, server), Ahead(x', rest), n);
  }

  lemma {:induction false} DrawnNone(x: Xid, server: seq<Answer>, n: nat)
    requires x.inc == 1 && x.last == x.max < TWO32 && x.max > 0 && SoundAnswers(server) && n > 0
    requires server != [] && (server[0].Range? ==> server[0] == Range(0, 1))
    ensures Drawn(x, server, n) == Upto(Ahead(x, server), n)
    decreases n, 0
  {
    var rest := server[1..];
    NextNone(x, server[0]);
    DrawnFirst(x, x, server, rest, n);
    DrawnFrom(x, rest, n - 1);
    AheadNone(x, server);
    OneThenUpto(Failed, Drawn(x, server, n), Drawn(x, rest, n - 1), Ahead(x, server), Ahead(x, rest), n);
  }

  lemma WordIsPow2()
    ensures Pow2(32) == TWO32
  {
    assert Pow2(8) == 0x100;
    assert Pow2(16) == 0x1_0000;
    assert Pow2(24) == 0x100_0000;
  }

  lemma OddIncrement(mask: nat)
    requires mask % 2 == 1 && mask < TWO32
    ensures And(mask, Word(0 - mask)) == 1
  {
    WordIsPow2();
    assert Word(0 - mask) == Pow2(32) - mask;
    OddMask(mask, 32);
  }

  lemma AheadStart(base: nat, mask: nat, server: seq<Answer>)
    requires mask > 0
    ensures Ids(base, 0, mask + 1) + Told(base, server) == [Id(Or(0, base))] + Ahead(Xid(0, mask, base, 1, mask), server)
  {
  }

  /** The first call finishes setting up the initial range. */
  lemma DrawnFromStart(base: nat, mask: nat, server: seq<Answer>, n: nat)
    requires 0 < mask < TWO32 && SoundAnswers(server)
    ensures Drawn(Xid(0, 0, base, 1, mask), server, n) == Upto(Ids(base, 0, mask + 1) + Told(base, server), n)
  {
    if n > 0 {
      var x := Xid(0, 0, base, 1, mask);
      var x' := x.(max := mask);
      DrawnFrom(x', server, n - 1);
      assert Generate(x, FirstAnswer(server)) == Hand(x') && !Asks(x);
      AheadStart(base, mask, server);
      UptoFirst(Hand(x').1, Ahead(x', server), n);
    }
  }

  /**
   * With the lowest bit in the mask, the calls hand out base|0 to base|mask in
   * order. From then on each answer of the server counts once: a range for
   * exactly its identifiers, in order; no extension, no reply or none left for
   * one failed call, which changes nothing. No assertion fails.
   */
  lemma DrawsInOrder(base: nat, mask: nat, server: seq<Answer>, n: nat)
    requires mask % 2 == 1 && mask < TWO32 && SoundAnswers(server)
    ensures Drawn(Init(base, mask), server, n) == Upto(Ids(base, 0, mask + 1) + Told(base, server), n)
  {
    OddIncrement(mask);
    DrawnFromStart(base, mask, server, n);
  }

  lemma {:induction false} SupplyTells(base: nat, blocks: seq<Block>)
    requires Sound(blocks)
    ensures SoundAnswers(Supply(blocks)) && Told(base, Supply(blocks)) == AllIds(base, blocks)
  {
    if blocks != [] {
      assert blocks[0] in blocks && forall b :: b in blocks[1..] ==> b in blocks;
      SupplyTells(base, blocks[1..]);
      assert Supply(blocks)[1..] == Supply(blocks[1..]);
    }
  }

  /** After a range is taken, the next call's assertion holds exactly if the range does not run past 32 bits. */
  lemma AssertionHoldsExactly(x: Xid, b: Block, answer: Answer)
    requires Asks(x) && x.inc == 1 && 0 < b.start < TWO32 && 0 < b.count < TWO32
    requires answer.Range? ==> answer.start > 0 && answer.count > 0
    ensures Generate(Generate(x, Range(b.start, b.count)).0, answer).1 != Aborted <==> b.start + b.count - 1 < TWO32
  {
  }

  // ----- the identifiers are the client's own, and none comes twice -----

  /** b with w zero bits behind it. */
  function Shift(b: nat, w: nat): nat {
    if w == 0 then b else 2 * Shift(b, w - 1)
  }

  /** One more bit in front of u, and a zero in front of s. */
  lemma OrBit(u: nat, d: nat, s: nat)
    requires d <= 1
    ensures Or(2 * u + d, 2 * s) == 2 * Or(u, s) + d
  {
    var a, b: nat := 2 * u + d, 2 * s;
    assert a / 2 == u && a % 2 == d && b / 2 == s && b % 2 == 0;
    if a != 0 && b != 0 {
      assert Or(a, b) == 2 * Or(a / 2, b / 2) + (if a % 2 == 1 || b % 2 == 1 then 1 else 0);
    }
  }

  lemma {:induction false} OrApart(v: nat, b: nat, w: nat)
    requires v < Pow2(w)
    ensures Or(v, Shift(b, w)) == v + Shift(b, w)
  {
    if w > 0 {
      OrApart(v / 2, b, w - 1);
      OrBit(v / 2, v % 2, Shift(b, w - 1));
    }
  }

  lemma {:induction false} OrSame(b: nat)
    ensures Or(b, b) == b
  {
    if b > 0 {
      OrSame(b / 2);
    }
  }

  lemma {:induction false} OrAbsorbs(v: nat, b: nat, w: nat)
    requires v < Pow2(w)
    ensures Or(v + Shift(b, w), Shift(b, w)) == v + Shift(b, w)
  {
    if w > 0 {
      OrAbsorbs(v / 2, b, w - 1);
      OrBit(v / 2 + Shift(b, w - 1), v % 2, Shift(b, w - 1));
    } else {
      OrSame(b);
    }
  }

  function Interval(from: nat, n: nat): seq<nat>
    decreases n
  {
    if n == 0 then [] else [from] + Interval(from + 1, n - 1)
  }

  function Values(blocks: seq<Block>): seq<nat> {
    if blocks == [] then [] else Interval(blocks[0].start, blocks[0].count) + Values(blocks[1..])
  }

  function AsIds(values: seq<nat>): seq<Outcome> {
    if values == [] then [] else [Id(values[0])] + AsIds(values[1..])
  }

  /** The range holds identifiers of the client whose base is Shift(b, w) and whose mask has the w lowest bits. */
  predicate Own(r: Block, b: nat, w: nat) {
    Shift(b, w) <= r.start && r.start + r.count <= Shift(b, w) + Pow2(w)
  }

  lemma {:induction false} OwnIds(b: nat, w: nat, from: nat, n: nat)
    requires Own(Block(from, n), b, w)
    ensures Ids(Shift(b, w), from, n) == AsIds(Interval(from, n))
    decreases n
  {
    if n > 0 {
      OrAbsorbs(from - Shift(b, w), b, w);
      OwnIds(b, w, from + 1, n - 1);
    }
  }

  lemma {:induction false} FirstIds(b: nat, w: nat, from: nat, n: nat)
    requires from + n <= Pow2(w)
    ensures Ids(Shift(b, w), from, n) == AsIds(Interval(Shift(b, w) + from, n))
    decreases n
  {
    if n > 0 {
      OrApart(from, b, w);
      FirstIds(b, w, from + 1, n - 1);
    }
  }

  lemma AsIdsFirst(v: nat, rest: seq<nat>)
    ensures AsIds([v] + rest) == [Id(v)] + AsIds(rest)
  {
    assert ([v] + rest)[1..] == rest;
  }

  lemma {:induction false} AsIdsConcat(a: seq<nat>, b: seq<nat>)
    ensures AsIds(a + b) == AsIds(a) + AsIds(b)
  {
    if a == [] {
      assert a + b == b;
    } else {
      var first: nat, rest: seq<nat> := a[0], a[1..];
      assert a == [first] + rest && a + b == [first] + (rest + b);
      AsIdsFirst(first, rest);
      AsIdsFirst(first, rest + b);
      AsIdsConcat(rest, b);
    }
  }

  lemma {:induction false} AllOwnIds(b: nat, w: nat, blocks: seq<Block>)
    requires forall r :: r in blocks ==> Own(r, b, w)
    ensures AllIds(Shift(b, w), blocks) == AsIds(Values(blocks))
  {
    if blocks != [] {
      assert blocks[0] in blocks;
      OwnIds(b, w, blocks[0].start, blocks[0].count);
      AllOwnIds(b, w, blocks[1..]);
      AsIdsConcat(Interval(blocks[0].start, blocks[0].count), Values(blocks[1..]));
    }
  }

  lemma OwnBlocksIds(b: nat, w: nat, blocks: seq<Block>)
    requires forall r :: r in blocks ==> Own(r, b, w)
    ensures Ids(Shift(b, w), 0, Pow2(w)) + AllIds(Shift(b, w), blocks)
      == AsIds(Values([Block(Shift(b, w), Pow2(w))] + blocks))
  {
    FirstIds(b, w, 0, Pow2(w));
    AllOwnIds(b, w, blocks);
    AsIdsConcat(Interval(Shift(b, w), Pow2(w)), Values(blocks));
    assert ([Block(Shift(b, w), Pow2(w))] + blocks)[1..] == blocks;
  }

  /** A client with base b * 2^w and the w lowest bits as its mask gets its own identifiers, block by block. */
  lemma HandsOutBlocks(b: nat, w: nat, blocks: seq<Block>, n: nat)
    requires 1 <= w <= 32 && Sound(blocks) && forall r :: r in blocks ==> Own(r, b, w)
    ensures Drawn(Init(Shift(b, w), Pow2(w) - 1), Supply(blocks), n)
      == Upto(AsIds(Values([Block(Shift(b, w), Pow2(w))] + blocks)), n)
  {
    Pow2Grows(w, 32);
    WordIsPow2();
    SupplyTells(Shift(b, w), blocks);
    DrawsInOrder(Shift(b, w), Pow2(w) - 1, Supply(blocks), n);
    OwnBlocksIds(b, w, blocks);
  }

  lemma {:induction false} Pow2Grows(v: nat, w: nat)
    requires v <= w
    ensures Pow2(v) <= Pow2(w)
  {
    if v < w {
      Pow2Grows(v, w - 1);
    }
  }

  ghost predicate NoRepeats(s: seq<nat>) {
    s == [] || (s[0] !in s[1..] && NoRepeats(s[1..]))
  }

  predicate Overlap(a: Block, b: Block) {
    a.start < b.start + b.count && b.start < a.start + a.count
  }

  ghost predicate Disjoint(blocks: seq<Block>) {
    blocks == [] || ((forall b :: b in blocks[1..] ==> !Overlap(blocks[0], b)) && Disjoint(blocks[1..]))
  }

  lemma {:induction false} NoRepeatsConcat(a: seq<nat>, b: seq<nat>)
    ensures NoRepeats(a + b) <==> NoRepeats(a) && NoRepeats(b) && forall x :: x in a ==> x !in b
  {
    if a == [] {
      assert a + b == b;
    } else {
      NoRepeatsConcat(a[1..], b);
      assert (a + b)[1..] == a[1..] + b && a == [a[0]] + a[1..];
    }
  }

  lemma {:induction false} IntervalHolds(from: nat, n: nat)
    ensures NoRepeats(Interval(from, n)) && forall x :: x in Interval(from, n) <==> from <= x < from + n
    decreases n
  {
    if n > 0 {
      IntervalHolds(from + 1, n - 1);
    }
  }

  lemma {:induction false} ValuesHold(blocks: seq<Block>, x: nat)
    ensures x in Values(blocks) <==> exists b :: b in blocks && b.start <= x < b.start + b.count
  {
    if blocks != [] {
      IntervalHolds(blocks[0].start, blocks[0].count);
      ValuesHold(blocks[1..], x);
      assert blocks == [blocks[0]] + blocks[1..];
    }
  }

  /** No identifier is handed out twice exactly if the blocks, the initial one among them, are disjoint. */
  lemma {:induction false} RepeatsExactly(blocks: seq<Block>)
    requires forall b :: b in blocks ==> b.count > 0
    ensures NoRepeats(Values(blocks)) <==> Disjoint(blocks)
  {
    if blocks != [] {
      var first, rest := blocks[0], blocks[1..];
      assert blocks == [first] + rest;
      RepeatsExactly(rest);
      IntervalHolds(first.start, first.count);
      NoRepeatsConcat(Interval(first.start, first.count), Values(rest));
      forall b | b in rest && Overlap(first, b) ensures exists x :: x in Interval(first.start, first.count) && x in Values(rest) {
        var x := if first.start < b.start then b.start else first.start;
        ValuesHold(rest, x);
        assert x in Interval(first.start, first.count) && x in Values(rest);
      }
      forall x | x in Interval(first.start, first.count) && x in Values(rest) ensures exists b :: b in rest && Overlap(first, b) {
        ValuesHold(rest, x);
      }
    }
  }

  // ----- masks without the lowest bit -----

  /** max is still 0 and last counts in steps of inc, which divide 2^32. */
  ghost predicate Drifts(x: Xid, k: nat, h: nat) {
    x.max == 0 && x.inc > 1 && x.last == k * x.inc && TWO32 == h * x.inc && k < h
  }

  lemma DriftStep(x: Xid, k: nat, h: nat, answer: Answer)
    requires Drifts(x, k, h)
    ensures !Exhausted(x)
    ensures var k' := if k + 1 == h then 0 else k + 1;
      var x' := x.(last := k' * x.inc);
      Drifts(x', k', h) && x'.last == Word(x.last + x.inc) && Generate(x, answer) == Hand(x')
  {
    assert k * x.inc + x.inc == (k + 1) * x.inc;
    assert (k + 1) * x.inc <= h * x.inc;
    assert k + 1 < h ==> (k + 1) * x.inc + x.inc == (k + 2) * x.inc <= h * x.inc;
    assert Word(x.max - x.inc + 1) == TWO32 - x.inc + 1;
  }

  /** The allocator after n calls. */
  function After(x: Xid, server: seq<Answer>, n: nat): Xid
    decreases n
  {
    if n == 0 then x else After(Generate(x, FirstAnswer(server)).0, Rest(x, server), n - 1)
  }

  lemma WordTwice(a: nat, b: nat)
    ensures Word(Word(a) + b) == Word(a + b)
  {
  }

  lemma OneMore(i: nat, inc: nat)
    ensures inc + i * inc == (i + 1) * inc
  {
  }

  /** The n-th call from here on, counting from 0. */
  function Nth(x: Xid, n: nat): Outcome {
    Id(Or(Word(x.last + (n + 1) * x.inc), x.base))
  }

  lemma NthNext(x: Xid, last: nat, n: nat)
    requires n > 0 && last == Word(x.last + x.inc)
    ensures Nth(x.(last := last), n - 1) == Nth(x, n)
  {
    OneMore(n, x.inc);
    WordTwice(x.last + x.inc, n * x.inc);
  }

  /** It goes on like that for ever: the server is never asked, the mask is never looked at. */
  lemma {:induction false} DriftRun(x: Xid, k: nat, h: nat, server: seq<Answer>, n: nat, i: nat)
    requires Drifts(x, k, h) && i < n
    ensures After(x, server, n).max == 0 && |Drawn(x, server, n)| == n
    ensures Drawn(x, server, n)[i] == Nth(x, i)
    decreases n
  {
    var k' := if k + 1 == h then 0 else k + 1;
    var x' := x.(last := k' * x.inc);
    DriftStep(x, k, h, FirstAnswer(server));
    if n > 1 {
      DriftRun(x', k', h, server, n - 1, if i == 0 then 0 else i - 1);
    }
    if i > 0 {
      NthNext(x, x'.last, i);
    }
  }

  lemma EvenDrifts(base: nat, mask: nat) returns (h: nat)
    requires 0 < mask < TWO32 && mask % 2 == 0
    ensures Drifts(Init(base, mask), 0, h)
  {
    WordIsPow2();
    assert Word(0 - mask) == Pow2(32) - mask;
    var q: nat;
    q, h := IncrementIsLowestBit(mask, 32);
  }

  /** The initial range is set up, now or ever, exactly if the mask has the lowest bit. */
  lemma SetUpExactly(base: nat, mask: nat, server: seq<Answer>)
    requires 0 < mask < TWO32
    ensures (exists n :: After(Init(base, mask), server, n).max == mask) <==> mask % 2 == 1
  {
    if mask % 2 == 1 {
      OddIncrement(mask);
      FirstCall(base, mask, server);
      assert After(Init(base, mask), server, 1).max == mask;
    } else {
      var h := EvenDrifts(base, mask);
      forall n ensures After(Init(base, mask), server, n).max != mask {
        if n > 0 {
          DriftRun(Init(base, mask), 0, h, server, n, 0);
        }
      }
    }
  }

  lemma FirstCall(base: nat, mask: nat, server: seq<Answer>)
    requires 0 < mask < TWO32
    ensures After(Xid(0, 0, base, 1, mask), server, 1).max == mask
  {
    var x := Xid(0, 0, base, 1, mask);
    assert After(x, server, 1) == After(x.(max := mask), Rest(x, server), 0);
  }

  lemma OnceAround(x: Xid, h: nat)
    requires h * x.inc == TWO32
    ensures Nth(x, h) == Nth(x, 0)
  {
    OneMore(h, x.inc);
    var next := x.last + x.inc;
    assert x.last + (h + 1) * x.inc == next + TWO32;
    assert Word(next + TWO32) == Word(next);
  }

  lemma DriftRepeats(x: Xid, h: nat, server: seq<Answer>)
    requires Drifts(x, 0, h)
    ensures var ids := Drawn(x, server, h + 1);
      |ids| == h + 1 && ids[0].Id? && ids[0] == ids[h]
  {
    DriftRun(x, 0, h, server, h + 1, 0);
    DriftRun(x, 0, h, server, h + 1, h);
    OnceAround(x, h);
  }

  /**
   * Without the lowest bit in the mask the first identifier comes a second
   * time, whatever the base and whatever the server would say.
   */
  lemma EvenMaskRepeats(base: nat, mask: nat, server: seq<Answer>) returns (h: nat)
    requires 0 < mask < TWO32 && mask % 2 == 0
    ensures h > 0
    ensures var ids := Drawn(Init(base, mask), server, h + 1);
      |ids| == h + 1 && ids[0].Id? && ids[0] == ids[h]
  {
    h := EvenDrifts(base, mask);
    DriftRepeats(Init(base, mask), h, server);
  }

  // ----- when no identifier comes twice -----

  ghost predicate NoIdTwice(outcomes: seq<Outcome>) {
    forall i, j :: 0 <= i < j < |outcomes| && outcomes[i].Id? ==> outcomes[i] != outcomes[j]
  }

  /** However often it is called, an allocator gives no identifier twice. */
  ghost predicate NeverTwice(x: Xid, server: seq<Answer>) {
    forall n :: NoIdTwice(Drawn(x, server, n))
  }

  lemma {:induction false} UptoAt(values: seq<nat>, n: nat, i: nat)
    requires i < n
    ensures |Upto(AsIds(values), n)| == n
    ensures Upto(AsIds(values), n)[i] == if i < |values| then Id(values[i]) else Failed
    decreases n
  {
    var rest := if values == [] then [] else values[1..];
    if i > 0 {
      UptoAt(rest, n - 1, i - 1);
    } else if n > 1 {
      UptoAt(rest, n - 1, 0);
    }
  }

  lemma {:induction false} NoRepeatsMeans(values: seq<nat>)
    ensures NoRepeats(values) <==> forall i, j :: 0 <= i < j < |values| ==> values[i] != values[j]
  {
    if values != [] {
      var rest := values[1..];
      NoRepeatsMeans(rest);
      if forall i, j :: 0 <= i < j < |values| ==> values[i] != values[j] {
        forall i, j | 0 <= i < j < |rest| ensures rest[i] != rest[j] {
          assert values[i + 1] != values[j + 1];
        }
        forall j | 0 <= j < |rest| ensures rest[j] != values[0] {
          assert values[0] != values[j + 1];
        }
      }
      if NoRepeats(values) {
        forall i, j | 0 <= i < j < |values| ensures values[i] != values[j] {
          assert values[j] == rest[j - 1] && (i > 0 ==> values[i] == rest[i - 1]);
        }
      }
    }
  }

  lemma UptoTwice(values: seq<nat>)
    ensures (forall n :: NoIdTwice(Upto(AsIds(values), n))) <==> NoRepeats(values)
  {
    NoRepeatsMeans(values);
    if NoRepeats(values) {
      forall n, i, j | 0 <= i < j < n ensures |Upto(AsIds(values), n)| == n
        && (Upto(AsIds(values), n)[i].Id? ==> Upto(AsIds(values), n)[i] != Upto(AsIds(values), n)[j])
      {
        UptoAt(values, n, i);
        UptoAt(values, n, j);
      }
      forall n: nat ensures NoIdTwice(Upto(AsIds(values), n)) {
        if n > 0 {
          UptoAt(values, n, 0);
        }
      }
    } else {
      var i, j :| 0 <= i < j < |values| && values[i] == values[j];
      UptoAt(values, |values|, i);
      UptoAt(values, |values|, j);
      assert !NoIdTwice(Upto(AsIds(values), |values|));
    }
  }

  lemma {:induction false} ShiftBelow(m: nat, w: nat, s: nat, t: nat)
    requires m < Pow2(w) && t == w + s
    ensures Shift(m, s) < Pow2(t) && (m > 0 ==> Shift(m, s) > 0)
    decreases s
  {
    if s > 0 {
      ShiftBelow(m, w, s - 1, t - 1);
    }
  }

  lemma ShiftEven(m: nat, s: nat)
    requires s > 0
    ensures Shift(m, s) % 2 == 0
  {
    assert Shift(m, s) == 2 * Shift(m, s - 1);
  }

  lemma EvenMaskTwice(base: nat, mask: nat, server: seq<Answer>)
    requires 0 < mask < TWO32 && mask % 2 == 0
    ensures !NeverTwice(Init(base, mask), server)
  {
    var h := EvenMaskRepeats(base, mask, server);
    assert !NoIdTwice(Drawn(Init(base, mask), server, h + 1));
  }

  lemma SameOutcomes(x: Xid, server: seq<Answer>, values: seq<nat>)
    requires forall n :: Drawn(x, server, n) == Upto(AsIds(values), n)
    ensures NeverTwice(x, server) <==> NoRepeats(values)
  {
    UptoTwice(values);
    if NoRepeats(values) {
      forall n: nat ensures NoIdTwice(Drawn(x, server, n)) {
        assert Drawn(x, server, n) == Upto(AsIds(values), n);
      }
    } else {
      var n: nat :| !NoIdTwice(Upto(AsIds(values), n));
      assert Drawn(x, server, n) == Upto(AsIds(values), n);
    }
  }

  lemma LowMaskTwice(b: nat, w: nat, blocks: seq<Block>)
    requires 1 <= w <= 32 && Sound(blocks) && forall r :: r in blocks ==> Own(r, b, w)
    ensures NeverTwice(Init(Shift(b, w), Pow2(w) - 1), Supply(blocks))
      <==> Disjoint([Block(Shift(b, w), Pow2(w))] + blocks)
  {
    var x, all := Init(Shift(b, w), Pow2(w) - 1), [Block(Shift(b, w), Pow2(w))] + blocks;
    forall n ensures Drawn(x, Supply(blocks), n) == Upto(AsIds(Values(all)), n) {
      HandsOutBlocks(b, w, blocks, n);
    }
    SameOutcomes(x, Supply(blocks), Values(all));
    RepeatsExactly(all);
  }

  lemma ShiftedMaskTwice(base: nat, w: nat, s: nat, server: seq<Answer>)
    requires 1 <= w && w + s <= 32 && s > 0
    ensures !NeverTwice(Init(base, Shift(Pow2(w) - 1, s)), server)
  {
    WordIsPow2();
    Pow2Grows(w + s, 32);
    ShiftBelow(Pow2(w) - 1, w, s, w + s);
    ShiftEven(Pow2(w) - 1, s);
    EvenMaskTwice(base, Shift(Pow2(w) - 1, s), server);
  }

  /**
   * For the masks the protocol allows (w consecutive bits, s zero bits behind
   * them, the base's bits in front) and a server that gives the client ranges of
   * its own, no run hands out an identifier twice if and only if the mask has
   * the lowest bit and the ranges overlap neither each other nor the initial one.
   */
  lemma NoneTwiceExactly(b: nat, w: nat, s: nat, blocks: seq<Block>)
    requires 1 <= w && w + s <= 32 && Sound(blocks) && forall r :: r in blocks ==> Own(r, b, w + s)
    ensures var base, mask := Shift(b, w + s), Shift(Pow2(w) - 1, s);
      NeverTwice(Init(base, mask), Supply(blocks)) <==> s == 0 && Disjoint([Block(base, mask + 1)] + blocks)
  {
    if s == 0 {
      LowMaskTwice(b, w, blocks);
    } else {
      ShiftedMaskTwice(Shift(b, w + s), w, s, Supply(blocks));
    }
  }
}
