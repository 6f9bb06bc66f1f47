/**
 * The server's side of what Packets reads: the layout of replies, errors and
 * events as the core protocol and the Generic Event Extension have it.
 */
module ServerPackets {
  import opened Sequence
  import opened Packets

  /** `fields` are the bytes this model does not look into. */
  datatype Message =
    | Error(detail: Byte, number: Low, fields: seq<Byte>)
    | Reply(detail: Byte, number: Low, words: nat, fields: seq<Byte>, more: seq<Byte>)
    | Event(code: Byte, detail: Byte, number: Low, fields: seq<Byte>)
    | KeymapNotify(sent: bool, keys: seq<Byte>)
    | GenericEvent(extension: Byte, number: Low, words: nat, fields: seq<Byte>, more: seq<Byte>)
  {
    /** Events have codes 2 to 127, and 128 more if a client sent them with SendEvent. */
    predicate Valid() {
      match this
      case Error(_, _, fields) => |fields| == 28
      case Reply(_, _, words, fields, more) => words < TWO32 && |fields| == 24 && |more| == 4 * words
      case Event(code, _, _, fields) => code % 128 !in {0, 1, 11} && code != 35 && |fields| == 28
      case KeymapNotify(_, keys) => |keys| == 31
      case GenericEvent(_, _, words, fields, more) => words < TWO32 && |fields| == 24 && |more| == 4 * words
    }
  }

  /** The first byte, one that varies, and the sequence number. */
  function Head(code: Byte, detail: Byte, number: Low): seq<Byte> {
    [code, detail, number % 256, number / 256]
  }

  /** A length in four bytes. */
  function Length(words: nat): seq<Byte>
    requires words < TWO32
  {
    [words % 256, words / 256 % 256, words / 0x1_0000 % 256, words / 0x100_0000]
  }

  function Bytes(m: Message): seq<Byte>
    requires m.Valid()
  {
    match m
    case Error(detail, number, fields) => Head(0, detail, number) + fields
    case Reply(detail, number, words, fields, more) => Head(1, detail, number) + Length(words) + fields + more
    case Event(code, detail, number, fields) => Head(code, detail, number) + fields
    case KeymapNotify(sent, keys) => [if sent then 139 else 11] + keys
    case GenericEvent(extension, number, words, fields, more) => Head(35, extension, number) + Length(words) + fields + more
  }

  /** The packet has the message's bytes, is of its kind, and carries its number if it has one. */
  ghost predicate Means(p: Packet, m: Message)
    requires m.Valid()
  {
    && p.bytes == Bytes(m)
    && (p.IsError() <==> m.Error?) && (p.IsReply() <==> m.Reply?)
    && (p.IsNumbered() <==> !m.KeymapNotify?)
    && (!m.KeymapNotify? ==> p.low == m.number)
  }

  lemma NumberReads(code: Byte, detail: Byte, number: Low, rest: seq<Byte>)
    ensures var b := Head(code, detail, number) + rest; b[0] == code && U16(b, 2) == number
  {
  }

  lemma LengthReads(a: Byte, b: Byte, c: Byte, d: Byte, words: nat, rest: seq<Byte>)
    requires words < TWO32
    ensures U32([a, b, c, d] + Length(words) + rest, 4) == words
  {
    var s := [a, b, c, d] + Length(words) + rest;
    assert s[4] == words % 256 && s[5] == words / 256 % 256 && s[6] == words / 0x1_0000 % 256 && s[7] == words / 0x100_0000;
    assert words / 256 / 256 == words / 0x1_0000 && words / 0x1_0000 / 256 == words / 0x100_0000;
  }

  lemma OneReads(m: Message, rest: seq<Byte>)
    requires m.Valid()
    ensures |Bytes(m)| >= 32 && PacketSize(Bytes(m) + rest) == |Bytes(m)| && Means(Decode(Bytes(m)), m)
  {
    var b := Bytes(m);
    assert forall i :: 0 <= i < |b| ==> (b + rest)[i] == b[i];
    match m
    case Error(detail, number, fields) => NumberReads(0, detail, number, fields);
    case Event(code, detail, number, fields) => NumberReads(code, detail, number, fields);
    case KeymapNotify(_, _) =>
    case Reply(detail, number, words, fields, more) => LongReads(1, detail, number, words, fields, more, rest);
    case GenericEvent(extension, number, words, fields, more) => LongReads(35, extension, number, words, fields, more, rest);
  }

  lemma LongReads(code: Byte, detail: Byte, number: Low, words: nat, fields: seq<Byte>, more: seq<Byte>, rest: seq<Byte>)
    requires words < TWO32 && |fields| == 24
    ensures var b := Head(code, detail, number) + Length(words) + fields + more;
      && b[0] == code && U16(b, 2) == number && U32(b, 4) == words
      && (b + rest)[0] == code && U32(b + rest, 4) == words
  {
    var head := Head(code, detail, number);
    var b := head + Length(words) + fields + more;
    assert b == head + (Length(words) + fields + more);
    NumberReads(code, detail, number, Length(words) + fields + more);
    assert b == head + Length(words) + (fields + more);
    LengthReads(code, detail, number % 256, number / 256, words, fields + more);
    assert b + rest == head + Length(words) + (fields + more + rest);
    LengthReads(code, detail, number % 256, number / 256, words, fields + more + rest);
  }

  ghost predicate AllValid(ms: seq<Message>) {
    forall m :: m in ms ==> m.Valid()
  }

  function Stream(ms: seq<Message>): seq<Byte>
    requires AllValid(ms)
  {
    if ms == [] then [] else
      assert ms[0] in ms;
      Bytes(ms[0]) + Stream(ms[1..])
  }

  /** What the server sends is read back message by message, with nothing left over. */
  lemma {:induction false} StreamReads(ms: seq<Message>)
    requires AllValid(ms)
    ensures var ps := Parse(Stream(ms));
      && |ps| == |ms| && Unparsed(Stream(ms)) == []
      && (forall i :: 0 <= i < |ms| ==> Means(ps[i], ms[i]))
  {
    if ms != [] {
      var b, rest := Bytes(ms[0]), Stream(ms[1..]);
      assert ms[0] in ms;
      OneReads(ms[0], rest);
      StreamReads(ms[1..]);
      assert (b + rest)[..|b|] == b && (b + rest)[|b|..] == rest;
      assert Parse(b + rest) == [Decode(b)] + Parse(rest);
    }
  }
}
