/**
 * How a request is laid out on the wire (xcb_send_request in src/xcb_out.c) and
 * how a server cuts the byte stream into requests again: a 16-bit length in
 * units of four bytes, or, when that is zero, a 32-bit length after it, as in
 * the "Description" section of the X11 BIG-REQUESTS Extension.
 */
module Framing {
  import opened Wrappers
  import opened Sequence
  import opened Packets

  /** Concatenation of the parts of an I/O vector. */
  function Flat(parts: seq<seq<Byte>>): seq<Byte> {
    if parts == [] then [] else parts[0] + Flat(parts[1..])
  }

  /** A request as the generated code hands it over; an extension's request carries its minor opcode. */
  datatype Request = Request(opcode: Byte, minor: Option<Byte>, parts: seq<seq<Byte>>) {
    ghost predicate Valid() {
      parts != [] && |parts[0]| >= 4 && |Flat(parts)| % 4 == 0
    }

    function Words(): nat { |Flat(parts)| / 4 }
  }

  function Le16(n: nat): seq<Byte>
    requires n < TWO16
  {
    [n % 0x100, n / 0x100]
  }

  function Le32(n: nat): seq<Byte>
    requires n < TWO32
  {
    Le16(n % TWO16) + Le16(n / TWO16)
  }

  /** The GetInputFocus request used as a sync. */
  const SYNC_BYTES: seq<Byte> := [43, 0, 1, 0]

  /** The first four bytes: major opcode, minor opcode or request data, 16-bit length. */
  function FirstWord(req: Request, shortlen: nat): seq<Byte>
    requires req.Valid() && shortlen < TWO16
  {
    [req.opcode, match req.minor case Some(m) => m case None => req.parts[0][1]] + Le16(shortlen)
  }

  /** The bytes sent for a request; `prefix[2]` is the 32-bit length, computed in 32 bits. */
  function Encode(req: Request, maxShort: nat): seq<Byte>
    requires req.Valid() && maxShort < TWO16
  {
    var body := Flat(req.parts);
    if req.Words() <= maxShort then FirstWord(req, req.Words()) + body[4..]
    else
      var longlen := (req.Words() + 1) % TWO32;
      if longlen != 0 then FirstWord(req, 0) + Le32(longlen) + body[4..]
      else FirstWord(req, 0) + body[4..]
  }

  // ----- the server's view -----

  datatype Frame = Frame(opcode: Byte, data: Byte, body: seq<Byte>)

  const SYNC_FRAME := Frame(43, 0, [])

  /** Where the next request ends, once enough of it is there to tell. */
  function FrameEnd(b: seq<Byte>): Option<nat> {
    if |b| < 4 then None
    else if U16(b, 2) != 0 then Some(4 * U16(b, 2))
    else if |b| < 8 || U32(b, 4) < 2 then None
    else Some(4 * U32(b, 4))
  }

  predicate Complete(b: seq<Byte>) {
    FrameEnd(b).Some? && FrameEnd(b).value <= |b|
  }

  function FirstFrame(b: seq<Byte>): Frame
    requires Complete(b)
  {
    Frame(b[0], b[1], b[if U16(b, 2) != 0 then 4 else 8..FrameEnd(b).value])
  }

  /** All complete requests at the front of a byte stream. */
  function Frames(b: seq<Byte>): seq<Frame>
    decreases |b|
  {
    if !Complete(b) then [] else [FirstFrame(b)] + Frames(b[FrameEnd(b).value..])
  }

  function Unframed(b: seq<Byte>): seq<Byte>
    decreases |b|
  {
    if !Complete(b) then b else Unframed(b[FrameEnd(b).value..])
  }

  lemma {:induction false} FramesConcat(a: seq<Byte>, b: seq<Byte>)
    ensures Frames(a + b) == Frames(a) + Frames(Unframed(a) + b)
    ensures Unframed(a + b) == Unframed(Unframed(a) + b)
    decreases |a|
  {
    if Complete(a) {
      var end := FrameEnd(a).value;
      assert FrameEnd(a + b) == Some(end);
      assert (a + b)[end..] == a[end..] + b;
      assert FirstFrame(a + b) == FirstFrame(a);
      FramesConcat(a[end..], b);
    }
  }

  /** The frame a request is meant to be. */
  function FrameOf(req: Request): Frame
    requires req.Valid()
  {
    FlatLength(req.parts);
    Frame(req.opcode, match req.minor case Some(m) => m case None => req.parts[0][1], Flat(req.parts)[4..])
  }

  lemma {:induction false} FlatLength(parts: seq<seq<Byte>>)
    ensures parts != [] ==> |Flat(parts)| >= |parts[0]|
  {
  }

  lemma Le32IsU32(n: nat, b: seq<Byte>, at: nat)
    requires n < TWO32 && at + 4 <= |b| && b[at..at + 4] == Le32(n)
    ensures U32(b, at) == n
  {
    var w := Le32(n);
    assert forall i :: 0 <= i < 4 ==> b[at + i] == b[at..at + 4][i] == w[i];
    assert U16(b, at) == n % TWO16 && U16(b, at + 2) == n / TWO16;
  }

  /** Requests whose 32-bit length does not wrap are read back as they were meant. */
  predicate Representable(words: nat, maxShort: nat) {
    words <= maxShort || words + 1 < TWO32
  }

  lemma EncodeShort(req: Request, maxShort: nat)
    requires req.Valid() && maxShort < TWO16 && req.Words() <= maxShort
    ensures var b := Encode(req, maxShort);
      |b| == 4 * req.Words() && FrameEnd(b) == Some(|b|) && FirstFrame(b) == FrameOf(req)
  {
    FlatLength(req.parts);
    var b := Encode(req, maxShort);
    var n: nat := req.Words();
    assert n >= 1;
    assert b[2] == n % 0x100 && b[3] == n / 0x100;
    assert U16(b, 2) == n;
    assert b[4..] == Flat(req.parts)[4..];
  }

  /** A zero length, a 32-bit one, and that many words in all are one frame. */
  lemma LongFrame(head: seq<Byte>, n: nat, body: seq<Byte>)
    requires |head| == 4 && head[2] == 0 && head[3] == 0 && 2 <= n < TWO32 && 8 + |body| == 4 * n
    ensures var b := head + Le32(n) + body;
      |b| == 4 * n && FrameEnd(b) == Some(|b|) && FirstFrame(b) == Frame(head[0], head[1], body)
  {
    var b := head + Le32(n) + body;
    assert b[2] == 0 && b[3] == 0 && U16(b, 2) == 0;
    assert b[4..8] == Le32(n);
    Le32IsU32(n, b, 4);
    assert b[8..] == body;
  }

  lemma EncodeLong(req: Request, maxShort: nat)
    requires req.Valid() && maxShort < TWO16 && maxShort < req.Words() && req.Words() + 1 < TWO32
    ensures var b := Encode(req, maxShort);
      |b| == 4 * (req.Words() + 1) && FrameEnd(b) == Some(|b|) && FirstFrame(b) == FrameOf(req)
  {
    FlatLength(req.parts);
    LongFrame(FirstWord(req, 0), req.Words() + 1, Flat(req.parts)[4..]);
  }

  /** The server reads an encoded request back as what it was meant to be, and goes on behind it. */
  lemma EncodedIsFrame(req: Request, maxShort: nat, rest: seq<Byte>)
    requires req.Valid() && maxShort < TWO16 && Representable(req.Words(), maxShort)
    ensures Frames(Encode(req, maxShort) + rest) == [FrameOf(req)] + Frames(rest)
    ensures Unframed(Encode(req, maxShort)) == []
  {
    var b := Encode(req, maxShort);
    if req.Words() <= maxShort {
      EncodeShort(req, maxShort);
    } else {
      EncodeLong(req, maxShort);
    }
    assert b[|b|..] == [] && Frames(b) == [FirstFrame(b)] + Frames([]);
    FramesConcat(b, rest);
    assert [] + rest == rest;
  }

  /** The one length at which the 32-bit length field wraps to zero is not read back. */
  lemma EncodeWraps(req: Request, maxShort: nat)
    requires req.Valid() && maxShort < TWO16 && req.Words() == TWO32 - 1
    ensures Frames(Encode(req, maxShort)) != [FrameOf(req)]
  {
    FlatLength(req.parts);
    var b := Encode(req, maxShort);
    assert b == FirstWord(req, 0) + Flat(req.parts)[4..];
    assert U16(b, 2) == 0;
    if Complete(b) {
      assert Frames(b)[0] == FirstFrame(b);
      assert |FirstFrame(b).body| == FrameEnd(b).value - 8;
      assert |FrameOf(req).body| == |b| - 4;
    }
  }

  /** A request is read back exactly if its length in words is below 2^32 - 1. */
  lemma ReadBackExactly(req: Request, maxShort: nat, maxBig: nat)
    requires req.Valid() && maxShort < TWO16 && maxBig < TWO32 && (req.Words() <= maxShort || req.Words() <= maxBig)
    ensures Frames(Encode(req, maxShort)) == [FrameOf(req)] <==> Representable(req.Words(), maxShort)
  {
    if Representable(req.Words(), maxShort) {
      EncodedIsFrame(req, maxShort, []);
      assert Encode(req, maxShort) + [] == Encode(req, maxShort);
    } else {
      EncodeWraps(req, maxShort);
    }
  }

  /**
   * The limit is tested before the extra length word is counted, so a request
   * of exactly maxBig words is accepted and sent one word too long.
   */
  lemma WithinLimitExactly(req: Request, maxShort: nat, maxBig: nat)
    requires req.Valid() && maxShort < TWO16 && maxBig < TWO32 && (req.Words() <= maxShort || req.Words() <= maxBig)
    requires Representable(req.Words(), maxShort)
    ensures |Encode(req, maxShort)| / 4 <= (if req.Words() <= maxShort then maxShort else maxBig)
      <==> req.Words() <= maxShort || req.Words() < maxBig
  {
    if req.Words() <= maxShort {
      EncodeShort(req, maxShort);
    } else {
      EncodeLong(req, maxShort);
    }
  }

  lemma SyncIsFrame(rest: seq<Byte>)
    ensures Frames(SYNC_BYTES + rest) == [SYNC_FRAME] + Frames(rest)
    ensures Unframed(SYNC_BYTES) == []
  {
    var b := SYNC_BYTES;
    assert U16(b, 2) == 1 && FrameEnd(b) == Some(4) && b[4..] == [] && b[4..4] == [];
    assert Frames(b) == [FirstFrame(b)] + Frames([]);
    FramesConcat(b, rest);
    assert [] + rest == rest;
  }
}
