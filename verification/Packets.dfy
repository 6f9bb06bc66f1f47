/**
 * Packets the server sends: an 8-byte header inside the first 32 bytes gives the
 * response type, 16 bits of sequence number and a length (src/xcb.h).
 * Multi-byte fields are little-endian, the byte order the client announces.
 */
module Packets {
  import opened Sequence

  type Byte = x: int | 0 <= x < 256

  lemma Reassociate(a: seq<Byte>, b: seq<Byte>, c: seq<Byte>)
    ensures a + (b + c) == (a + b) + c
  {
  }

  lemma CutJoins(a: seq<Byte>, b: seq<Byte>, n: nat)
    requires n <= |b|
    ensures (a + b[..n]) + b[n..] == a + b
  {
  }

  const XCB_ERROR: Byte := 0
  const XCB_REPLY: Byte := 1
  const XCB_KEYMAP_NOTIFY: Byte := 11
  const XCB_XGE_EVENT: Byte := 35

  /** A packet as read_packet sees it: response type, echoed sequence bits, all its bytes. */
  datatype Packet = Packet(code: Byte, low: Low, bytes: seq<Byte>) {
    predicate IsError() { code == XCB_ERROR }
    predicate IsReply() { code == XCB_REPLY }
    /** Replies and errors answer a request; everything else is an event. */
    predicate IsAnswer() { IsError() || IsReply() }
    /** KeymapNotify is the one packet without a sequence number. */
    predicate IsNumbered() { code % 128 != XCB_KEYMAP_NOTIFY }
  }

  function U16(b: seq<Byte>, at: nat): Low
    requires at + 2 <= |b|
  {
    var lo: nat, hi: nat := b[at], b[at + 1];
    lo + 0x100 * hi
  }

  function U32(b: seq<Byte>, at: nat): (r: nat)
    requires at + 4 <= |b|
    ensures r < TWO32
  {
    U16(b, at) + TWO16 * U16(b, at + 2)
  }

  function Decode(bytes: seq<Byte>): Packet
    requires |bytes| >= 32
  {
    Packet(bytes[0], U16(bytes, 2), bytes)
  }

  /** The bytes a packet takes on the wire: 32, and 4 * length more for replies and XGE events. */
  function PacketSize(header: seq<Byte>): (n: nat)
    requires |header| >= 8
    ensures n >= 32
  {
    if header[0] == XCB_REPLY || header[0] == XCB_XGE_EVENT then 32 + 4 * U32(header, 4) else 32
  }

  /** The C int `length` of read_packet, computed in 32 bits. */
  function FirstLength(header: seq<Byte>): int
    requires |header| >= 8
  {
    if header[0] == XCB_REPLY then AsInt32(32 + U32(header, 4) * 4) else 32
  }

  /** The C int `eventlength` of read_packet. */
  function ExtraLength(header: seq<Byte>): int
    requires |header| >= 8
  {
    if header[0] == XCB_XGE_EVENT then AsInt32(U32(header, 4) * 4) else 0
  }

  /** The length field is small enough for C int arithmetic. */
  predicate Fits(header: seq<Byte>)
    requires |header| >= 8
  {
    && (header[0] == XCB_REPLY ==> U32(header, 4) < 0x2000_0000 - 8)
    && (header[0] == XCB_XGE_EVENT ==> U32(header, 4) < 0x2000_0000)
  }

  /** The two C lengths add up to the size on the wire exactly for packets that fit. */
  lemma LengthsExact(header: seq<Byte>)
    requires |header| >= 8
    ensures FirstLength(header) + ExtraLength(header) == PacketSize(header) <==> Fits(header)
  {
    AsInt32Window(32 + U32(header, 4) * 4);
    AsInt32Window(U32(header, 4) * 4);
  }

  /** The complete packets at the front of a byte stream. */
  function Parse(stream: seq<Byte>): (packets: seq<Packet>)
    decreases |stream|
  {
    if |stream| < 32 || |stream| < PacketSize(stream) then []
    else
      var size := PacketSize(stream);
      [Decode(stream[..size])] + Parse(stream[size..])
  }

  /** The bytes after the last complete packet. */
  function Unparsed(stream: seq<Byte>): (rest: seq<Byte>)
    ensures |rest| <= |stream|
    decreases |stream|
  {
    if |stream| < 32 || |stream| < PacketSize(stream) then stream
    else Unparsed(stream[PacketSize(stream)..])
  }

  /** Every packet in the stream has a length field that fits. */
  ghost predicate AllFit(stream: seq<Byte>)
    decreases |stream|
  {
    |stream| >= 32 ==>
      Fits(stream) && (PacketSize(stream) <= |stream| ==> AllFit(stream[PacketSize(stream)..]))
  }

  /** Parsing goes on where it stopped: bytes that arrive later are parsed after the earlier ones. */
  lemma {:induction false} ParseConcat(a: seq<Byte>, b: seq<Byte>)
    ensures Parse(a + b) == Parse(a) + Parse(Unparsed(a) + b)
    ensures Unparsed(a + b) == Unparsed(Unparsed(a) + b)
    decreases |a|
  {
    if |a| >= 32 && |a| >= PacketSize(a) {
      var size := PacketSize(a);
      assert PacketSize(a + b) == size;
      assert (a + b)[..size] == a[..size];
      assert (a + b)[size..] == a[size..] + b;
      ParseConcat(a[size..], b);
    }
  }
}
