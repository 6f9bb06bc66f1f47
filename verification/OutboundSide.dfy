/**
 * struct _xcb_out and the functions of src/xcb_out.c and src/xcb_conn.c that
 * queue, gather and write bytes.
 */
module OutboundSide {
  import opened Packets
  import opened IoVectors
  import opened Socket

  class OutboundSide {
    const queue: array<Byte>
    var queueLen: nat
    var request: nat
    var written: nat     // request_written
    var hasError: bool

    ghost predicate Valid()
      reads this
    {
      queueLen <= queue.Length
    }

    ghost function Queued(): seq<Byte>
      reads this, queue
      requires Valid()
    {
      queue[..queueLen]
    }

    /** _xcb_out_init; XCB_QUEUE_BUFFER_SIZE is chosen when the library is configured. */
    constructor (bufferSize: nat)
      ensures Valid() && fresh(queue) && queue.Length == bufferSize
      ensures Queued() == [] && request == 0 && written == 0 && !hasError
    {
      queue := new Byte[bufferSize](_ => 0);
      queueLen, request, written, hasError := 0, 0, 0, false;
    }

    /**
     * write_vec: one writev call on vector[start..start + count], then the
     * vector is advanced past the n bytes taken. The returned bounds are the
     * rest of the vector.
     */
    method WriteVec(sock: Socket, vector: array<Iovec>, start: nat, count: nat)
      returns (ret: bool, start': nat, count': nat, ghost n: nat)
      requires start + count <= vector.Length && AllUsable(vector[start..start + count])
      requires queueLen == 0 && Gather(vector[start..start + count]) != []
      modifies sock, vector, `hasError
      ensures start' + count' == start + count && start <= start'
      ensures AllUsable(vector[start'..start + count])
      ensures ret ==> hasError == old(hasError)
      ensures var all := old(Gather(vector[start..start + count]));
        ret ==> n <= |all| && sock.outgoing == old(sock.outgoing) + all[..n] && Gather(vector[start'..start + count]) == all[n..]
      ensures ret && n > 0 ==> sock.patience == old(sock.patience) && (count' > 0 ==> vector[start'].len > 0)
      ensures ret && n == 0 ==> sock.patience < old(sock.patience) && start' == start && vector[..] == old(vector[..])
      ensures !ret ==> hasError
      ensures sock.broken == (old(sock.broken) || !ret)
    {
      start', count' := start, count;
      ghost var vs := vector[start..start + count];
      ghost var all := Gather(vs);
      var wrote := sock.Writev(Gather(vector[start..start + count]));
      GatherUnchanged(vs);
      n := 0;
      match wrote {
        case WriteWouldBlock =>
          NothingTaken(sock.outgoing, all);
          ret := true;
        case WriteFailed =>
          hasError := true;
          ret := false;
        case Count(taken) =>
          n := taken;
          GatherLength(vs);
          start', count' := AdvanceVec(vector, start, count, taken);
          GatherUnchanged(vs);
          GatherSkipped(vs, n);
          ret := true;
      }
    }

    /**
     * _xcb_out_send without its waiting: writev until the vector is used up.
     * Each call that takes bytes leaves fewer of them.
     */
    method OutSend(sock: Socket, vector: array<Iovec>, start: nat, count: nat) returns (ret: bool)
      requires start + count <= vector.Length && AllUsable(vector[start..start + count])
      requires queueLen == 0 && (count > 0 ==> Gather(vector[start..start + count]) != [])
      modifies sock, vector, `hasError, `written
      ensures written == request
      ensures ret ==> hasError == old(hasError)
      ensures ret ==> sock.outgoing == old(sock.outgoing) + old(Gather(vector[start..start + count]))
      ensures !ret ==> hasError
      ensures sock.broken == (old(sock.broken) || !ret)
    {
      var from: nat, left: nat := start, count;
      ghost var rest := Gather(vector[start..start + count]);
      ghost var total := sock.outgoing + rest;
      ret := true;
      while ret && left > 0
        invariant start <= from && from + left == start + count
        invariant AllUsable(vector[from..start + count])
        invariant if ret then hasError == old(hasError) && rest == Gather(vector[from..start + count]) else hasError
        invariant ret ==> sock.outgoing + rest == total && (left > 0 ==> rest != [])
        invariant sock.broken == (old(sock.broken) || !ret)
        decreases ret, |rest|, sock.patience
      {
        ghost var before, n := sock.outgoing, 0;
        ret, from, left, n := WriteVec(sock, vector, from, left);
        if ret {
          CutJoins(before, rest, n);
          rest := rest[n..];
        }
      }
      written := request;
    }

    /** memcpy of one part to the end of the queue. */
    method CopyToQueue(v: Iovec)
      requires Valid() && Usable(v) && v.base != queue && queueLen + v.len <= queue.Length
      modifies `queueLen, queue
      ensures Valid() && queueLen == old(queueLen) + v.len
      ensures Queued() == old(Queued()) + old(View(v))
    {
      forall i | 0 <= i < v.len {
        queue[queueLen + i] := v.base[v.off + i];
      }
      queueLen := queueLen + v.len;
    }

    /** The i-th part of vs goes behind the parts before it. */
    method CopyPart(v: Iovec, ghost vs: seq<Iovec>, ghost i: nat, ghost queued: seq<Byte>)
      requires Valid() && AllUsable(vs) && i < |vs| && v == vs[i] && queue !in Bases(vs)
      requires TotalLength(vs[..i]) <= |Gather(vs)| && Queued() == queued + Gather(vs)[..TotalLength(vs[..i])]
      requires queueLen + v.len <= queue.Length
      modifies `queueLen, queue
      ensures Valid()
      ensures var n := TotalLength(vs[..i + 1]);
        n <= |old(Gather(vs))| && Queued() == queued + old(Gather(vs))[..n]
    {
      ghost var bytes, before, part := Gather(vs), Queued(), View(v);
      PartAt(vs, i);
      TotalLengthAppend(vs, i);
      assert v.base in Bases(vs);
      CopyToQueue(v);
      Extend(queued, bytes, TotalLength(vs[..i]), TotalLength(vs[..i + 1]), before, part, Queued());
    }

    /**
     * write_block: queue the parts while they fit. If one does not, the queue
     * itself becomes the part in front of it, in the slot before, and all is sent.
     */
    method WriteBlock(sock: Socket, vector: array<Iovec>, start: nat, count: nat) returns (ret: bool)
      requires Valid() && 1 <= start && start + count <= vector.Length
      requires AllUsable(vector[start..start + count]) && queue !in Bases(vector[start..start + count])
      modifies `queueLen, `hasError, `written, queue, sock, vector
      ensures Valid()
      ensures ret ==> hasError == old(hasError)
      ensures ret ==> sock.outgoing + Queued() == old(sock.outgoing) + (old(Queued()) + old(Gather(vector[start..start + count])))
      ensures if old(queueLen) + old(TotalLength(vector[start..start + count])) <= queue.Length
        then ret && sock.outgoing == old(sock.outgoing) && written == old(written)
        else queueLen == 0 && written == request
      ensures !ret ==> hasError
      ensures sock.broken == (old(sock.broken) || !ret)
    {
      ghost var queued, bytes := Queued(), Gather(vector[start..start + count]);
      GatherLength(vector[start..start + count]);
      var at, left, n := FillQueue(vector, start, count);
      if left == 0 {
        assert queued + bytes[..n] == queued + bytes;
        ret := true;
      } else {
        assert (queued + bytes[..n]) + bytes[n..] == queued + bytes;
        ret := SendWithQueue(sock, vector, at, left);
      }
    }

    /** The parts that fit, queued: the first n bytes; the rest of the vector holds the others. */
    method FillQueue(vector: array<Iovec>, start: nat, count: nat) returns (at: nat, left: nat, ghost n: nat)
      requires Valid() && start + count <= vector.Length
      requires AllUsable(vector[start..start + count]) && queue !in Bases(vector[start..start + count])
      modifies `queueLen, queue, vector
      ensures Valid() && start <= at && at + left == start + count
      ensures AllUsable(vector[at..at + left]) && Bases(vector[at..at + left]) <= old(Bases(vector[start..start + count]))
      ensures var bytes := old(Gather(vector[start..start + count]));
        && n <= |bytes| && Queued() == old(Queued()) + bytes[..n] && Gather(vector[at..at + left]) == bytes[n..]
        && (left == 0 <==> old(queueLen) + |bytes| <= queue.Length)
        && (left == 0 ==> n == |bytes|) && (left > 0 ==> n < |bytes|)
    {
      ghost var vs := vector[start..start + count];
      ghost var bytes := Gather(vs);
      at, left := CopyParts(vector, start, count);
      n := TotalLength(vs[..at - start]);
      ghost var rest := vector[at..at + left];
      assert rest == vs[at - start..];
      GatherUnchanged(vs);
      assert Gather(vs) == bytes;
      assert queueLen - n == old(queueLen);
      FilledUpTo(vs, at - start, queueLen - n, queue.Length);
    }

    /** One part moves to the queue: copied there, and emptied in the vector. */
    method MovePart(vector: array<Iovec>, at: nat, ghost vs: seq<Iovec>, ghost i: nat, ghost queued: seq<Byte>, ghost bytes: seq<Byte>)
      requires Valid() && at < vector.Length && i < |vs| && vector[at] == vs[i]
      requires AllUsable(vs) && queue !in Bases(vs) && Gather(vs) == bytes
      requires TotalLength(vs[..i]) <= |bytes| && Queued() == queued + bytes[..TotalLength(vs[..i])]
      requires queueLen + vs[i].len <= queue.Length
      modifies `queueLen, queue, vector
      ensures Valid() && Gather(vs) == bytes
      ensures forall k :: 0 <= k < vector.Length && k != at ==> vector[k] == old(vector[k])
      ensures var n := TotalLength(vs[..i + 1]);
        n <= |bytes| && Queued() == queued + bytes[..n]
    {
      var v := vector[at];
      CopyPart(v, vs, i, queued);
      GatherUnchanged(vs);
      vector[at] := v.(off := v.off + v.len, len := 0);
    }

    /** The loop of write_block: copy parts to the queue while they fit. */
    method CopyParts(vector: array<Iovec>, start: nat, count: nat) returns (at: nat, left: nat)
      requires Valid() && start + count <= vector.Length
      requires AllUsable(vector[start..start + count]) && queue !in Bases(vector[start..start + count])
      modifies `queueLen, queue, vector
      ensures Valid() && start <= at && at + left == start + count
      ensures forall k :: at <= k < start + count ==> vector[k] == old(vector[k])
      ensures left > 0 ==> queueLen + vector[at].len > queue.Length
      ensures var bytes := old(Gather(vector[start..start + count]));
        var n := old(TotalLength(vector[start..start + count][..at - start]));
        n <= |bytes| && Queued() == old(Queued()) + bytes[..n]
    {
      at, left := start, count;
      ghost var vs := vector[start..start + count];
      ghost var queued, bytes := Queued(), Gather(vs);
      assert vs[..0] == [];
      while left > 0 && queueLen + vector[at].len <= queue.Length
        invariant Valid() && start <= at && at + left == start + count
        invariant forall k :: at <= k < start + count ==> vector[k] == vs[k - start]
        invariant Gather(vs) == bytes
        invariant TotalLength(vs[..at - start]) <= |bytes|
        invariant Queued() == queued + bytes[..TotalLength(vs[..at - start])]
      {
        MovePart(vector, at, vs, at - start, queued, bytes);
        at, left := at + 1, left - 1;
      }
    }

    /** `--vector, ++count`, and the freed slot is made to stand for the queue. */
    method SendWithQueue(sock: Socket, vector: array<Iovec>, at: nat, left: nat) returns (ret: bool)
      requires Valid() && 1 <= at && at + left <= vector.Length && AllUsable(vector[at..at + left])
      requires queueLen > 0 || Gather(vector[at..at + left]) != []
      modifies `queueLen, `hasError, `written, sock, vector
      ensures Valid() && queueLen == 0 && written == request
      ensures ret ==> hasError == old(hasError)
      ensures ret ==> sock.outgoing == old(sock.outgoing) + (old(Queued()) + old(Gather(vector[at..at + left])))
      ensures !ret ==> hasError
      ensures sock.broken == (old(sock.broken) || !ret)
    {
      ghost var vs := vector[at..at + left];
      var front := Iovec(queue, 0, queueLen);
      vector[at - 1] := front;
      queueLen := 0;
      GatherUnchanged(vs);
      assert vector[at - 1..at + left] == [front] + vs;
      InFront(front, vs);
      ret := OutSend(sock, vector, at - 1, left + 1);
    }

    /** _xcb_out_flush_to; with no write in progress its last assertion is the invariant. */
    method FlushTo(sock: Socket, to: nat) returns (ret: bool)
      requires Valid() && to <= request && (written == request || queueLen > 0)
      modifies `queueLen, `hasError, `written, sock
      ensures Valid()
      ensures ret ==> hasError == old(hasError) && sock.outgoing + Queued() == old(sock.outgoing) + old(Queued())
      ensures old(written) >= to ==> ret && queueLen == old(queueLen) && written == old(written)
      ensures old(written) < to ==> queueLen == 0 && written == request
      ensures !ret ==> hasError
      ensures sock.broken == (old(sock.broken) || !ret)
    {
      if written >= to {
        return true;
      }
      if queueLen > 0 {
        var whole := Iovec(queue, 0, queueLen);
        var vec := new Iovec[1](_ => whole);
        queueLen := 0;
        assert vec[0..1] == [vec[0]] && [vec[0]][1..] == [];
        ret := OutSend(sock, vec, 0, 1);
        return;
      }
      // Whoever finds nothing queued here waits for the write in progress; there is none.
      assert false;
    }
  }

  lemma NothingTaken(sent: seq<Byte>, all: seq<Byte>)
    ensures all[0..] == all && sent + all[..0] == sent
  {
  }

  lemma InFront(front: Iovec, vs: seq<Iovec>)
    requires Usable(front) && AllUsable(vs)
    ensures AllUsable([front] + vs) && Gather([front] + vs) == View(front) + Gather(vs)
  {
    assert ([front] + vs)[1..] == vs;
  }

  /** What remains when the first i parts are queued and the next does not fit. */
  lemma FilledUpTo(vs: seq<Iovec>, i: nat, before: nat, room: nat)
    requires AllUsable(vs) && i <= |vs| && before + TotalLength(vs[..i]) <= room
    requires i < |vs| ==> before + TotalLength(vs[..i]) + vs[i].len > room
    ensures AllUsable(vs[i..]) && Bases(vs[i..]) <= Bases(vs)
    ensures var n := TotalLength(vs[..i]);
      && n <= |Gather(vs)| && Gather(vs[i..]) == Gather(vs)[n..]
      && (i == |vs| <==> before + |Gather(vs)| <= room) && (i == |vs| ==> n == |Gather(vs)|) && (i < |vs| ==> n < |Gather(vs)|)
  {
    Suffix(vs, i);
    GatherSkip(vs, i);
    if i < |vs| {
      assert TotalLength(vs[i..]) >= vs[i].len;
    } else {
      assert vs[i..] == [];
    }
  }

  lemma Extend(queued: seq<Byte>, bytes: seq<Byte>, from: nat, to: nat, before: seq<Byte>, part: seq<Byte>, after: seq<Byte>)
    requires from <= to <= |bytes| && before == queued + bytes[..from] && part == bytes[from..to]
    requires after == before + part
    ensures after == queued + bytes[..to]
  {
    assert bytes[..from] + bytes[from..to] == bytes[..to];
  }

  /** A vector entry without its first bytes. */
  function Trim(v: Iovec, cur: nat): Iovec
    requires cur <= v.len
  {
    v.(off := v.off + cur, len := v.len - cur)
  }

  /** What is left of vs after n bytes: nothing, or the rest of a part and the parts behind it. */
  ghost predicate Skipped(vs: seq<Iovec>, n: nat, rest: seq<Iovec>) {
    if rest == [] then TotalLength(vs) == n
    else
      |rest| <= |vs| &&
      var i := |vs| - |rest|;
      && rest[1..] == vs[i + 1..]
      && TotalLength(vs[..i]) <= n < TotalLength(vs[..i]) + vs[i].len
      && rest[0] == Trim(vs[i], n - TotalLength(vs[..i]))
  }

  /** The vector without its first n bytes: whole parts go, and the front of one more. */
  function Skip(vs: seq<Iovec>, n: nat): (rest: seq<Iovec>)
    ensures |rest| <= |vs|
  {
    if vs == [] then []
    else if vs[0].len <= n then Skip(vs[1..], n - vs[0].len)
    else [Trim(vs[0], n)] + vs[1..]
  }

  lemma SkippedFurther(vs: seq<Iovec>, n: nat, rest: seq<Iovec>)
    requires vs != [] && vs[0].len <= n && Skipped(vs[1..], n - vs[0].len, rest)
    ensures Skipped(vs, n, rest)
  {
    if rest != [] {
      var i := |vs| - |rest|;
      assert vs[..i][0] == vs[0] && vs[..i][1..] == vs[1..][..i - 1];
      assert TotalLength(vs[..i]) == vs[0].len + TotalLength(vs[1..][..i - 1]);
    }
  }

  /** A part that is used up goes; any other is what remains begins with. */
  lemma SkipOne(v: Iovec, later: seq<Iovec>, n: nat)
    ensures v.len <= n ==> Skip([v] + later, n) == Skip(later, n - v.len) && TotalLength([v] + later) == v.len + TotalLength(later)
    ensures n < v.len ==> Skip([v] + later, n) == [Trim(v, n)] + later
  {
    assert ([v] + later)[0] == v && ([v] + later)[1..] == later;
  }

  lemma {:induction false} SkipIsSkipped(vs: seq<Iovec>, n: nat)
    requires n <= TotalLength(vs)
    ensures Skipped(vs, n, Skip(vs, n))
  {
    if vs != [] && vs[0].len <= n {
      SkipIsSkipped(vs[1..], n - vs[0].len);
      SkippedFurther(vs, n, Skip(vs[1..], n - vs[0].len));
    } else if vs != [] {
      assert ([Trim(vs[0], n)] + vs[1..])[1..] == vs[1..] && vs[..0] == [];
    }
  }

  /** Some bytes are taken off one part. */
  method TakeFrom(vector: array<Iovec>, from: nat, at: nat, to: nat, cur: nat)
    requires from <= at < to <= vector.Length && cur <= vector[at].len
    modifies vector
    ensures vector[..from] == old(vector[..from]) && vector[to..] == old(vector[to..])
    ensures vector[at] == Trim(old(vector[at]), cur) && vector[at + 1..to] == old(vector[at + 1..to])
    ensures vector[at..to] == [vector[at]] + vector[at + 1..to]
  {
    vector[at] := Trim(vector[at], cur);
  }

  /** One round of the loop: up to `left` bytes are taken off the part, which may use it up. */
  method TakePart(vector: array<Iovec>, from: nat, at: nat, to: nat, left: nat) returns (left': nat, usedUp: bool)
    requires from <= at < to <= vector.Length && left <= TotalLength(vector[at..to])
    modifies vector
    ensures vector[..from] == old(vector[..from]) && vector[to..] == old(vector[to..])
    ensures left' <= left && usedUp == (vector[at].len == 0)
    ensures usedUp ==> Skip(vector[at + 1..to], left') == old(Skip(vector[at..to], left)) && left' <= TotalLength(vector[at + 1..to])
    ensures !usedUp ==> vector[at..to] == old(Skip(vector[at..to], left)) && left' == 0
  {
    ghost var ahead, later := vector[at..to], vector[at + 1..to];
    var v := vector[at];
    assert ahead == [v] + later;
    SkipOne(v, later, left);
    var cur := if v.len > left then left else v.len;
    TakeFrom(vector, from, at, to, cur);
    left', usedUp := left - cur, vector[at].len == 0;
  }

  /** The loop of write_vec: skip n bytes of the vector. */
  method AdvanceVec(vector: array<Iovec>, start: nat, count: nat, n: nat) returns (start': nat, count': nat)
    requires start + count <= vector.Length && n <= TotalLength(vector[start..start + count])
    modifies vector
    ensures start' + count' == start + count && start <= start'
    ensures vector[..start] == old(vector[..start]) && vector[start + count..] == old(vector[start + count..])
    ensures vector[start'..start + count] == Skip(old(vector[start..start + count]), n)
  {
    start', count' := start, count;
    ghost var vs := vector[start..start + count];
    var left: nat := n;
    while count' > 0
      invariant start <= start' && start' + count' == start + count
      invariant vector[..start] == old(vector[..start]) && vector[start + count..] == old(vector[start + count..])
      invariant Skip(vector[start'..start + count], left) == Skip(vs, n)
      invariant left <= TotalLength(vector[start'..start + count])
    {
      var usedUp;
      left, usedUp := TakePart(vector, start, start', start + count, left);
      if !usedUp {
        break;
      }
      start', count' := start' + 1, count' - 1;
    }
    assert left == 0;
  }

  /** The remaining vector holds the remaining bytes, and it does not start with an empty part. */
  lemma {:induction false} GatherSkipped(vs: seq<Iovec>, n: nat)
    requires AllUsable(vs) && n <= |Gather(vs)|
    ensures AllUsable(Skip(vs, n)) && Bases(Skip(vs, n)) <= Bases(vs)
    ensures Gather(Skip(vs, n)) == Gather(vs)[n..]
    ensures Skip(vs, n) != [] ==> Skip(vs, n)[0].len > 0
    decreases |vs|
  {
    if vs != [] {
      var v, later := vs[0], vs[1..];
      assert v in vs && forall u :: u in later ==> u in vs;
      assert vs == [v] + later;
      SkipOne(v, later, n);
      if v.len <= n {
        GatherSkipped(later, n - v.len);
        CutBehind(View(v), Gather(later), n);
      } else {
        GatherTrimmed(v, later, n);
      }
    }
  }

  lemma GatherTrimmed(v: Iovec, later: seq<Iovec>, n: nat)
    requires Usable(v) && AllUsable(later) && n < v.len
    ensures var rest := [Trim(v, n)] + later;
      AllUsable(rest) && Gather(rest) == (View(v) + Gather(later))[n..]
  {
    var rest := [Trim(v, n)] + later;
    assert rest[1..] == later && View(Trim(v, n)) == View(v)[n..];
    CutFront(View(v), Gather(later), n);
  }

  lemma CutFront(a: seq<Byte>, b: seq<Byte>, n: nat)
    requires n <= |a|
    ensures (a + b)[n..] == a[n..] + b
  {
  }

  lemma CutBehind(a: seq<Byte>, b: seq<Byte>, n: nat)
    requires |a| <= n <= |a| + |b|
    ensures (a + b)[n..] == b[n - |a|..]
  {
  }
}
