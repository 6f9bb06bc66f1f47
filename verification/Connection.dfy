/** xcb_send_request (src/xcb_out.c): both sides of a connection together. */
module Connection {
  import opened Wrappers
  import opened Sequence
  import opened Packets
  import opened Inbound
  import opened Framing
  import opened IoVectors
  import opened Socket
  import opened InboundSide
  import opened OutboundSide

  /** Whether the request belongs to an extension, and what the server said about that extension. */
  datatype Extension = Core | Absent | Present(major: Byte)

  function Zeros(n: nat): seq<Byte> {
    seq(n, _ => 0)
  }

  /** The bytes a part stands for: padding is zero. */
  ghost function Part(v: Iovec): seq<Byte>
    reads v.base
    requires v.base != null ==> Usable(v)
  {
    if v.base == null then Zeros(v.len) else View(v)
  }

  ghost function Parts(vs: seq<Iovec>): seq<seq<Byte>>
    reads Bases(vs)
    requires forall v :: v in vs ==> v.base != null ==> Usable(v)
  {
    if vs == [] then [] else [Part(vs[0])] + Parts(vs[1..])
  }

  class Connection {
    const inbound: InboundSide
    const outbound: OutboundSide
    /** `static const char pad[3]`. */
    const pad: array<Byte>
    /** setup->maximum_request_length, and what xcb_get_maximum_request_length returns. */
    const maxShort: nat
    const maxBig: nat

    ghost predicate Valid()
      reads this, inbound, inbound.queue, inbound.replies, inbound.replies.Repr, outbound, pad
    {
      && inbound.Valid() && outbound.Valid()
      && pad.Length == 3 && pad[..] == Zeros(3)
      && pad != outbound.queue && pad != inbound.queue && inbound.queue != outbound.queue
      && inbound !in inbound.replies.Repr && outbound !in inbound.replies.Repr
      && outbound.queue !in inbound.replies.Repr && pad !in inbound.replies.Repr
      && maxShort < TWO16 && maxBig < TWO32
    }

    constructor (bufferSize: nat, maxShort: nat, maxBig: nat)
      requires maxShort < TWO16 && maxBig < TWO32
      ensures Valid() && inbound.State() == INITIAL && outbound.request == 0 && outbound.Queued() == []
    {
      var inb := new InboundSide();
      var outb := new OutboundSide(bufferSize);
      inbound, outbound := inb, outb;
      pad := new Byte[3](_ => 0);
      this.maxShort, this.maxBig := maxShort, maxBig;
    }

    /**
     * Under the lock: give the request its number, with a sync before it if it
     * is needed, and arrange for delivery. `request == 0` is the test for the
     * wrap of a 64-bit number.
     */
    method NumberRequest(isVoid: bool, flags: Flags) returns (request: nat, synced: bool)
      requires Valid() && outbound.request + 2 < TWO63
      modifies inbound`expected, inbound`pending, outbound`request
      ensures Valid()
      ensures synced == NeedsSync(old(inbound.State()), old(outbound.request), isVoid)
      ensures request == outbound.request == Number(old(inbound.State()), old(outbound.request), isVoid)
      ensures inbound.State() == Issue(old(inbound.State()), old(outbound.request), isVoid, flags)
    {
      outbound.request := outbound.request + 1;
      request := outbound.request;
      synced := false;
      ghost var before := inbound.State();
      while (isVoid && outbound.request == inbound.expected + 0x1_0000 - 1) || request % TWO64 == 0
        invariant Valid() && request == outbound.request
        invariant synced ==> NeedsSync(before, old(outbound.request), isVoid)
        invariant request == old(outbound.request) + if synced then 2 else 1
        invariant inbound.State() == if synced then Synced(before, old(outbound.request)) else before
        decreases !synced
      {
        synced := true;
        inbound.ExpectReply(request, DISCARD);
        inbound.expected := outbound.request;
        outbound.request := outbound.request + 1;
        request := outbound.request;
      }
      if flags != NO_FLAGS {
        inbound.ExpectReply(request, flags);
      }
      if !isVoid {
        inbound.expected := outbound.request;
      }
    }

    /** No write is in progress: everything is written or something is queued. */
    ghost predicate Settled()
      reads outbound
    {
      outbound.written == outbound.request || outbound.queueLen > 0
    }

    /** xcb_send_request; 0 is returned if the request was not sent. */
    method SendRequest(sock: Socket, isVoid: bool, flags: Flags, vector: array<Iovec>, start: nat, count: nat, ext: Extension, opcode: Byte)
      returns (cookie: nat)
      requires Valid() && Settled() && outbound.request + 2 < TWO63
      requires 2 <= start && start + count <= vector.Length && Parted(pad, vector[start..start + count])
      requires TotalLength(vector[start..start + count]) % 4 == 0
      requires Apart(vector[start..start + count]) && sock !in inbound.replies.Repr
      modifies inbound`expected, inbound`pending, inbound`hasError
      modifies outbound`queueLen, outbound`request, outbound`written, outbound`hasError, outbound.queue
      modifies sock, vector, vector[start].base
      ensures Valid()
      ensures var req := old(RequestOf(vector[start..start + count], ext, opcode));
        && req.Valid()
        && (ext.Absent? || (req.Words() > maxShort && req.Words() > maxBig) || old(inbound.hasError) || old(outbound.hasError) ==>
              && cookie == 0 && (inbound.hasError || outbound.hasError)
              && outbound.request == old(outbound.request) && inbound.State() == old(inbound.State())
              && sock.outgoing == old(sock.outgoing) && outbound.Queued() == old(outbound.Queued()))
        && (!(ext.Absent? || (req.Words() > maxShort && req.Words() > maxBig) || old(inbound.hasError) || old(outbound.hasError)) && !sock.broken ==>
              !inbound.hasError && !outbound.hasError)
        && (!inbound.hasError && !outbound.hasError ==>
              var before, newest := old(inbound.State()), old(outbound.request);
              && Settled()
              && outbound.request == Number(before, newest, isVoid) && cookie == Cookie(outbound.request)
              && inbound.State() == Issue(before, newest, isVoid, flags)
              && sock.outgoing + outbound.Queued()
                 == old(sock.outgoing) + old(outbound.Queued())
                    + ((if NeedsSync(before, newest, isVoid) then SYNC_BYTES else []) + Encode(req, maxShort)))
    {
      ghost var vs := vector[start..start + count];
      ghost var req := RequestOf(vs, ext, opcode);
      RequestIsValid(pad, vs, ext, opcode);
      if inbound.hasError || outbound.hasError {
        return 0;
      }
      if ext.Absent? {
        inbound.hasError := true;
        return 0;
      }
      var ok, longlen := Prepare(pad, maxShort, maxBig, vector, start, count, ext, opcode);
      if !ok {
        inbound.hasError := true;
        return 0;
      }
      cookie := SendPrepared(sock, isVoid, flags, vector, start, count, longlen, req);
    }

    /** Everything xcb_send_request does under the lock. */
    method SendPrepared(sock: Socket, isVoid: bool, flags: Flags, vector: array<Iovec>, start: nat, count: nat, longlen: nat, ghost req: Request)
      returns (cookie: nat)
      requires Valid() && outbound.request + 2 < TWO63 && longlen < TWO32
      requires 2 <= start && 0 < count && start + count <= vector.Length
      requires AllUsable(vector[start..start + count]) && vector[start].len >= 4 && outbound.queue !in Bases(vector[start..start + count])
      requires req.Valid() && Laid(req, maxShort, longlen, Gather(vector[start..start + count]))
      modifies inbound`expected, inbound`pending, inbound`hasError
      modifies outbound`queueLen, outbound`request, outbound`written, outbound`hasError, outbound.queue
      modifies sock, vector
      ensures Valid()
      ensures var before, newest := old(inbound.State()), old(outbound.request);
        !inbound.hasError && !outbound.hasError ==>
          && Settled()
          && outbound.request == Number(before, newest, isVoid) && cookie == Cookie(outbound.request)
          && inbound.State() == Issue(before, newest, isVoid, flags)
          && sock.outgoing + outbound.Queued()
             == old(sock.outgoing) + old(outbound.Queued())
                + ((if NeedsSync(before, newest, isVoid) then SYNC_BYTES else []) + Encode(req, maxShort))
      ensures !sock.broken ==> inbound.hasError == old(inbound.hasError) && outbound.hasError == old(outbound.hasError)
    {
      var request, synced := NumberRequest(isVoid, flags);
      GatherUnchanged(vector[start..start + count]);
      var ok := WriteRequest(sock, vector, start, count, synced, longlen, req);
      if !ok {
        inbound.hasError := true;
        return 0;
      }
      cookie := Cookie(request);
    }

    /** The prefix goes in front, and all is queued or written. */
    method WriteRequest(sock: Socket, vector: array<Iovec>, start: nat, count: nat, synced: bool, longlen: nat, ghost req: Request)
      returns (ok: bool)
      requires Valid() && longlen < TWO32
      requires 2 <= start && 0 < count && start + count <= vector.Length
      requires AllUsable(vector[start..start + count]) && vector[start].len >= 4 && outbound.queue !in Bases(vector[start..start + count])
      requires req.Valid() && Laid(req, maxShort, longlen, Gather(vector[start..start + count]))
      modifies outbound`queueLen, outbound`written, outbound`hasError, outbound.queue, sock, vector
      ensures Valid() && inbound.State() == old(inbound.State())
      ensures ok ==> Settled() && outbound.hasError == old(outbound.hasError)
      ensures ok ==>
          sock.outgoing + outbound.Queued()
          == old(sock.outgoing) + old(outbound.Queued()) + ((if synced then SYNC_BYTES else []) + Encode(req, maxShort))
      ensures !ok ==> outbound.hasError && sock.broken
    {
      var start', count' := PutPrefix(vector, start, count, synced, longlen, req, maxShort);
      ghost var sent := Gather(vector[start'..start' + count']);
      ok := outbound.WriteBlock(sock, vector, start', count');
      Reassociate(old(sock.outgoing), old(outbound.Queued()), sent);
    }

    /** The caller's memory is none of the connection's own. */
    ghost predicate Apart(vs: seq<Iovec>)
      reads this, inbound, inbound.replies, outbound
    {
      {outbound.queue, inbound.queue, pad} !! Bases(vs) && inbound.replies.Repr !! Bases(vs)
    }
  }

  lemma PrefixIsEncode(req: Request, maxShort: nat, longlen: nat, synced: bool, bytes: seq<Byte>)
    requires req.Valid() && maxShort < TWO16 && longlen < TWO32
    requires |Flat(req.parts)| >= 4
    requires var body := FirstWord(req, if req.Words() <= maxShort then req.Words() else 0) + Flat(req.parts)[4..];
      Laid(req, maxShort, longlen, body) && bytes == WithPrefix(synced, longlen, body)
    ensures bytes == (if synced then SYNC_BYTES else []) + Encode(req, maxShort) && |bytes| >= 4
  {
  }

  /** The parts xcb_send_request is given: a header of its own, and padding of at most three bytes. */
  ghost predicate Parted(pad: array<Byte>, vs: seq<Iovec>) {
    && vs != [] && vs[0].base != null && vs[0].len >= 4
    && (forall v :: v in vs ==> if v.base == null then v.len <= 3 else Usable(v) && v.base != pad)
    && (forall v :: v in vs[1..] ==> v.base != vs[0].base)
  }

  /** The vector the generated code builds: each part is followed by its padding. */
  function Padded(parts: seq<Iovec>): seq<Iovec> {
    if parts == [] then [] else [parts[0], Iovec(null, 0, Pad(parts[0].len))] + Padded(parts[1..])
  }

  lemma {:induction false} PaddedParts(parts: seq<Iovec>, v: Iovec)
    requires v in Padded(parts)
    ensures v in parts || (v.base == null && v.len <= 3)
  {
    assert Padded(parts)[2..] == Padded(parts[1..]);
    if v != parts[0] && v != Iovec(null, 0, Pad(parts[0].len)) {
      PaddedParts(parts[1..], v);
    }
  }

  lemma PadsToFour(len: nat, more: nat)
    requires more % 4 == 0
    ensures (len + (Pad(len) + more)) % 4 == 0
  {
    PadIsLeast(len, 0);
    var q, m := (len + Pad(len)) / 4, more / 4;
    assert len + (Pad(len) + more) == 4 * (q + m);
  }

  lemma {:induction false} PaddedLength(parts: seq<Iovec>)
    ensures TotalLength(Padded(parts)) % 4 == 0
  {
    if parts != [] {
      PaddedLength(parts[1..]);
      PadsToFour(parts[0].len, TotalLength(Padded(parts[1..])));
      var rest := [Iovec(null, 0, Pad(parts[0].len))] + Padded(parts[1..]);
      assert Padded(parts)[1..] == rest && rest[1..] == Padded(parts[1..]);
    }
  }

  /** It is what xcb_send_request asks for. */
  lemma GeneratedIsParted(pad: array<Byte>, parts: seq<Iovec>)
    requires parts != [] && parts[0].len >= 4 && AllUsable(parts)
    requires forall v :: v in parts ==> v.base != pad
    requires forall v :: v in parts[1..] ==> v.base != parts[0].base
    ensures Parted(pad, Padded(parts)) && TotalLength(Padded(parts)) % 4 == 0
  {
    var vs := Padded(parts);
    PaddedLength(parts);
    assert parts[0] in parts && parts == [parts[0]] + parts[1..];
    forall v | v in vs ensures if v.base == null then v.len <= 3 else Usable(v) && v.base != pad {
      PaddedParts(parts, v);
    }
    forall v | v in vs[1..] ensures v.base != vs[0].base {
      if v.base != null {
        assert vs[1..] == [vs[1]] + Padded(parts[1..]);
        PaddedParts(parts[1..], v);
      }
    }
  }

  /**
   * Before the lock is taken: opcode, padding and length. `ok` is false only
   * for requests longer than the server takes. `longlen` is `prefix[2]`.
   */
  method Prepare(pad: array<Byte>, maxShort: nat, maxBig: nat,
                 vector: array<Iovec>, start: nat, count: nat, ext: Extension, opcode: Byte)
    returns (ok: bool, longlen: nat)
    requires pad.Length == 3 && pad[..] == Zeros(3) && maxShort < TWO16 && maxBig < TWO32
    requires start + count <= vector.Length && Parted(pad, vector[start..start + count])
    requires TotalLength(vector[start..start + count]) % 4 == 0
    modifies vector, vector[start].base
    ensures forall k :: start <= k < start + count ==> vector[k] == Filled(pad, old(vector[k]))
    ensures longlen < TWO32 && AllUsable(vector[start..start + count])
    ensures var req := old(RequestOf(vector[start..start + count], ext, opcode));
      && req.Valid() && ok == (req.Words() <= maxShort || req.Words() <= maxBig)
      && (ok ==> Laid(req, maxShort, longlen, Gather(vector[start..start + count])))
  {
    ghost var vs := vector[start..start + count];
    ghost var req := RequestOf(vs, ext, opcode);
    RequestIsValid(pad, vs, ext, opcode);
    var first := vector[start];
    assert first == vs[0] && first in vs;
    ghost var header := View(first);
    assert req.parts[1..] == Parts(vs[1..]);
    SetOpcode(first, ext, opcode);
    var length := PadAndMeasure(pad, vector, start, count);
    ghost var fs := vector[start..start + count];
    assert forall k :: 0 <= k < count ==> fs[k] == Filled(pad, vs[k]);
    AllFilled(pad, vs, fs);
    var words := length / 4;
    var shortlen := 0;
    longlen := 0;
    if words <= maxShort {
      shortlen := words;
    } else if words > maxBig {
      return false, longlen;
    }
    SetLength(first, shortlen);
    if shortlen == 0 {
      longlen := (words + 1) % TWO32;
    }
    PartsUnchanged(vs[1..]);
    PreparedGather(pad, vs, fs, FirstWord(req, shortlen), header);
    ok := true;
  }

  /** The bytes of the vector before the prefix, and the prefix length that goes with them. */
  ghost predicate Laid(req: Request, maxShort: nat, longlen: nat, bytes: seq<Byte>)
    requires req.Valid() && maxShort < TWO16
  {
    && |Flat(req.parts)| >= 4
    && longlen == (if req.Words() <= maxShort then 0 else (req.Words() + 1) % TWO32)
    && bytes == FirstWord(req, if req.Words() <= maxShort then req.Words() else 0) + Flat(req.parts)[4..]
  }

  lemma RequestIsValid(pad: array<Byte>, vs: seq<Iovec>, ext: Extension, opcode: Byte)
    requires Parted(pad, vs) && TotalLength(vs) % 4 == 0
    ensures var req := RequestOf(vs, ext, opcode);
      req.Valid() && req.parts[0] == View(vs[0]) && 4 * req.Words() == TotalLength(vs) == |Flat(req.parts)| >= 4
  {
    PartsLength(vs);
    assert vs[0] in vs;
    FlatLength(Parts(vs));
  }

  lemma AllFilled(pad: array<Byte>, vs: seq<Iovec>, fs: seq<Iovec>)
    requires pad.Length == 3 && Parted(pad, vs)
    requires |fs| == |vs| && forall k :: 0 <= k < |vs| ==> fs[k] == Filled(pad, vs[k])
    ensures AllUsable(fs) && fs[0] == vs[0]
  {
    forall f | f in fs ensures Usable(f) {
      var k :| 0 <= k < |fs| && fs[k] == f;
      assert vs[k] in vs;
    }
  }

  /** The first part has a new first word, the padding is filled in, and nothing else has changed. */
  lemma PreparedGather(pad: array<Byte>, vs: seq<Iovec>, fs: seq<Iovec>, word: seq<Byte>, header: seq<Byte>)
    requires Parted(pad, vs) && pad.Length == 3 && pad[..] == Zeros(3)
    requires |fs| == |vs| && forall k :: 0 <= k < |vs| ==> fs[k] == Filled(pad, vs[k])
    requires Usable(vs[0]) && |word| == 4 <= |header| && View(vs[0]) == word + header[4..]
    ensures AllUsable(fs)
    ensures Gather(fs) == word + (header + Flat(Parts(vs[1..])))[4..]
  {
    FilledGather(pad, vs[1..], fs[1..]);
    assert vs[0] in vs && fs[0] == vs[0] && fs == [fs[0]] + fs[1..];
    HeaderGather(fs[0], fs[1..], word, header);
  }

  lemma HeaderGather(first: Iovec, rest: seq<Iovec>, word: seq<Byte>, before: seq<Byte>)
    requires Usable(first) && AllUsable(rest) && |word| == 4 <= |before|
    requires View(first) == word + before[4..]
    ensures AllUsable([first] + rest)
    ensures Gather([first] + rest) == word + (before + Gather(rest))[4..]
  {
    assert ([first] + rest)[1..] == rest;
    assert (before + Gather(rest))[4..] == before[4..] + Gather(rest);
  }

  lemma {:induction false} PartsLength(vs: seq<Iovec>)
    requires forall v :: v in vs ==> v.base != null ==> Usable(v)
    ensures |Flat(Parts(vs))| == TotalLength(vs) && |Parts(vs)| == |vs|
  {
    if vs != [] {
      PartsLength(vs[1..]);
      assert Parts(vs)[1..] == Parts(vs[1..]);
    }
  }

  twostate lemma {:induction false} PartsUnchanged(vs: seq<Iovec>)
    requires forall v :: v in vs ==> v.base != null ==> Usable(v)
    requires forall v :: v in vs && v.base != null ==> old(allocated(v.base)) && unchanged(v.base)
    ensures Parts(vs) == old(Parts(vs))
  {
    if vs != [] {
      PartsUnchanged(vs[1..]);
    }
  }

  /** The request the generated code asks for. */
  ghost function RequestOf(vs: seq<Iovec>, ext: Extension, opcode: Byte): Request
    reads Bases(vs)
    requires forall v :: v in vs ==> v.base != null ==> Usable(v)
  {
    Request(if ext.Present? then ext.major else opcode, if ext.Present? then Some(opcode) else None, Parts(vs))
  }

  /** The first loop of xcb_send_request: point padding at zero bytes and add up the lengths. */
  method PadAndMeasure(pad: array<Byte>, vector: array<Iovec>, start: nat, count: nat) returns (length: nat)
    requires start + count <= vector.Length && pad.Length == 3 && pad[..] == Zeros(3)
    requires forall v :: v in vector[start..start + count] ==> if v.base == null then v.len <= 3 else Usable(v)
    modifies vector
    ensures forall k :: 0 <= k < start || start + count <= k < vector.Length ==> vector[k] == old(vector[k])
    ensures forall k :: start <= k < start + count ==> vector[k] == Filled(pad, old(vector[k]))
    ensures length == old(TotalLength(vector[start..start + count]))
  {
    length := 0;
    ghost var vs := vector[start..start + count];
    for i := start to start + count
      invariant forall k :: 0 <= k < start || i <= k < vector.Length ==> vector[k] == old(vector[k])
      invariant forall k :: start <= k < i ==> vector[k] == Filled(pad, vs[k - start])
      invariant length == TotalLength(vs[..i - start])
    {
      assert vs[i - start] in vs;
      TotalLengthAppend(vs, i - start);
      length := length + vector[i].len;
      if vector[i].base == null {
        vector[i] := Iovec(pad, 0, vector[i].len);
      }
    }
    assert vs[..count] == vs;
  }

  function Filled(pad: array<Byte>, v: Iovec): Iovec {
    if v.base == null then Iovec(pad, 0, v.len) else v
  }

  /** Filling in the padding makes the vector hold the bytes it stands for. */
  lemma {:induction false} FilledGather(pad: array<Byte>, vs: seq<Iovec>, fs: seq<Iovec>)
    requires pad.Length == 3 && pad[..] == Zeros(3)
    requires forall v :: v in vs ==> if v.base == null then v.len <= 3 else Usable(v)
    requires |fs| == |vs| && forall k :: 0 <= k < |vs| ==> fs[k] == Filled(pad, vs[k])
    ensures AllUsable(fs) && Gather(fs) == Flat(Parts(vs))
  {
    if vs != [] {
      assert vs[0] in vs;
      FilledGather(pad, vs[1..], fs[1..]);
      assert fs == [fs[0]] + fs[1..];
      if vs[0].base == null {
        assert View(fs[0]) == pad[..vs[0].len] == Zeros(vs[0].len);
      }
      assert Parts(vs)[1..] == Parts(vs[1..]);
    }
  }

  /** The opcodes: the extension's number first if there is one. */
  method SetOpcode(v: Iovec, ext: Extension, opcode: Byte)
    requires Usable(v) && v.len >= 4
    modifies v.base
    ensures View(v) == [if ext.Present? then ext.major else opcode, if ext.Present? then opcode else old(View(v))[1]] + old(View(v))[2..]
    ensures forall i :: 0 <= i < v.base.Length && !(v.off <= i < v.off + v.len) ==> v.base[i] == old(v.base[i])
  {
    if ext.Present? {
      v.base[v.off] := ext.major;
      v.base[v.off + 1] := opcode;
    } else {
      v.base[v.off] := opcode;
    }
  }

  /** `((uint16_t *) vector[0].iov_base)[1] = shortlen`. */
  method SetLength(v: Iovec, shortlen: nat)
    requires Usable(v) && v.len >= 4 && shortlen < TWO16
    modifies v.base
    ensures View(v) == old(View(v))[..2] + Le16(shortlen) + old(View(v))[4..]
  {
    v.base[v.off + 2] := shortlen % 0x100;
    v.base[v.off + 3] := shortlen / 0x100;
  }

  function WithPrefix(synced: bool, longlen: nat, bytes: seq<Byte>): seq<Byte>
    requires longlen < TWO32 && |bytes| >= 4
  {
    (if synced then SYNC_BYTES else []) + (if longlen != 0 then bytes[..4] + Le32(longlen) + bytes[4..] else bytes)
  }

  /**
   * The sync request and the 32-bit length go to an array of their own, put in
   * front of the vector. With a 32-bit length the request's first word moves
   * there too. Only a spare slot is overwritten.
   */
  method AddPrefix(vector: array<Iovec>, start: nat, count: nat, synced: bool, longlen: nat)
    returns (start': nat, count': nat)
    requires 2 <= start && 0 < count && start + count <= vector.Length && longlen < TWO32
    requires AllUsable(vector[start..start + count]) && vector[start].len >= 4
    modifies vector
    ensures 1 <= start' && start' + count' == start + count
    ensures AllUsable(vector[start'..start + count])
    ensures |old(Gather(vector[start..start + count]))| >= 4
    ensures Gather(vector[start'..start + count]) == WithPrefix(synced, longlen, old(Gather(vector[start..start + count])))
    ensures fresh(Bases(vector[start'..start + count]) - old(Bases(vector[start..start + count])))
  {
    ghost var vs := vector[start..start + count];
    ghost var rest := vs[1..];
    ghost var bytes := Gather(vs);
    var first := vector[start];
    assert vs[0] == first && first in vs && bytes == View(first) + Gather(rest);
    start', count' := start, count;
    if synced || longlen != 0 {
      FillSlots(vector, start, synced, longlen);
      start', count' := start - 1, count + 1;
      GatherUnchanged(rest);
      assert vector[start - 1..start + count] == [vector[start - 1], vector[start]] + rest;
      PrefixGather(vector[start - 1], vector[start], first, rest, synced, longlen);
    } else {
      assert [] + bytes == bytes;
    }
  }

  /** The spare slot gets the prefix; with a 32-bit length the request's first word leaves its own part. */
  method FillSlots(vector: array<Iovec>, start: nat, synced: bool, longlen: nat)
    requires 1 <= start < vector.Length && Usable(vector[start]) && vector[start].len >= 4 && longlen < TWO32
    requires synced || longlen != 0
    modifies vector
    ensures forall k :: 0 <= k < vector.Length && k != start - 1 && k != start ==> vector[k] == old(vector[k])
    ensures vector[start] == if longlen != 0 then Trim(old(vector[start]), 4) else old(vector[start])
    ensures Usable(vector[start - 1]) && fresh(vector[start - 1].base)
    ensures View(vector[start - 1]) == (if synced then SYNC_BYTES else [])
      + (if longlen != 0 then old(View(vector[start]))[..4] + Le32(longlen) else [])
  {
    var first := vector[start];
    var base, n := PrefixArray(first, synced, longlen);
    if longlen != 0 {
      vector[start] := Trim(first, 4);
    }
    vector[start - 1] := Iovec(base, if synced then 0 else 4, n);
  }

  /** With its prefix, the vector holds the request's bytes and the sync's before them. */
  method PutPrefix(vector: array<Iovec>, start: nat, count: nat, synced: bool, longlen: nat, ghost req: Request, ghost maxShort: nat)
    returns (start': nat, count': nat)
    requires 2 <= start && 0 < count && start + count <= vector.Length && longlen < TWO32
    requires AllUsable(vector[start..start + count]) && vector[start].len >= 4
    requires req.Valid() && maxShort < TWO16 && Laid(req, maxShort, longlen, Gather(vector[start..start + count]))
    modifies vector
    ensures 1 <= start' && start' + count' == start + count
    ensures AllUsable(vector[start'..start' + count'])
    ensures Gather(vector[start'..start' + count']) == (if synced then SYNC_BYTES else []) + Encode(req, maxShort)
    ensures TotalLength(vector[start'..start' + count']) >= 4
    ensures fresh(Bases(vector[start'..start' + count']) - old(Bases(vector[start..start + count])))
  {
    start', count' := AddPrefix(vector, start, count, synced, longlen);
    PrefixIsEncode(req, maxShort, longlen, synced, Gather(vector[start'..start' + count']));
    GatherLength(vector[start'..start' + count']);
  }

  lemma PrefixGather(a: Iovec, b: Iovec, first: Iovec, rest: seq<Iovec>, synced: bool, longlen: nat)
    requires Usable(a) && Usable(first) && first.len >= 4 && AllUsable(rest) && longlen < TWO32
    requires View(a) == (if synced then SYNC_BYTES else []) + (if longlen != 0 then View(first)[..4] + Le32(longlen) else [])
    requires b == if longlen != 0 then Trim(first, 4) else first
    ensures AllUsable([a, b] + rest)
    ensures Gather([a, b] + rest) == WithPrefix(synced, longlen, View(first) + Gather(rest))
  {
    var vs := [a, b] + rest;
    var bytes := View(first) + Gather(rest);
    assert vs[1..] == [b] + rest && ([b] + rest)[1..] == rest;
    assert Gather([b] + rest) == View(b) + Gather(rest);
    if longlen != 0 {
      assert bytes[..4] == View(first)[..4] && bytes[4..] == View(b) + Gather(rest);
    }
  }

  /** Four bytes are stored. */
  method PutWord(base: array<Byte>, at: nat, word: seq<Byte>)
    requires |word| == 4 && at + 4 <= base.Length
    modifies base
    ensures base[at..at + 4] == word
    ensures forall i :: 0 <= i < base.Length && !(at <= i < at + 4) ==> base[i] == old(base[i])
  {
    base[at], base[at + 1], base[at + 2], base[at + 3] := word[0], word[1], word[2], word[3];
  }

  /** `prefix`: the sync request, the first word and the length, of which a stretch is used. */
  method PrefixArray(first: Iovec, synced: bool, longlen: nat) returns (base: array<Byte>, n: nat)
    requires Usable(first) && first.len >= 4 && longlen < TWO32
    ensures fresh(base) && base.Length == 12
    ensures n == (if synced then 4 else 0) + (if longlen != 0 then 8 else 0)
    ensures synced || longlen != 0 ==> var from := if synced then 0 else 4;
      base[from..from + n] == (if synced then SYNC_BYTES else []) + (if longlen != 0 then View(first)[..4] + Le32(longlen) else [])
  {
    base := new Byte[12](_ => 0);
    if synced {
      PutWord(base, 0, SYNC_BYTES);
    }
    if longlen != 0 {
      PutWord(base, 4, View(first)[..4]);
      PutWord(base, 8, Le32(longlen));
      assert base[4..12] == base[4..8] + base[8..12];
    }
    assert base[0..12] == base[0..4] + base[4..12];
    assert synced && longlen == 0 ==> base[0..4] == SYNC_BYTES + [];
    assert !synced && longlen != 0 ==> base[4..12] == [] + (View(first)[..4] + Le32(longlen));
    n := (if synced then 4 else 0) + (if longlen != 0 then 8 else 0);
  }
}
