/**
 * The list of threads waiting for replies (struct reader_list in src/xcb_in.c),
 * ordered by request, and the walks along it.
 */
module Readers {
  import opened Wrappers
  import opened Sequence

  /** A waiting thread and the request it waits for; the node itself holds only the cookie. */
  datatype Reader = Reader(n: nat, thread: nat) {
    function Request(): nat { Cookie(n) }
  }

  /** Whom pthread_cond_signal was called for. */
  datatype Signal = ReaderCond(thread: nat) | EventCond

  /** The readers a walk passes: those whose request is not later. */
  predicate Passed(a: Reader, reader: Reader) {
    Compare32(a.Request(), reader.Request()) <= 0
  }

  /** Where xcb_wait_for_reply links a new reader: after all that are not later. */
  function Link(readers: seq<Reader>, reader: Reader): seq<Reader> {
    if readers == [] || !Passed(readers[0], reader) then [reader] + readers
    else [readers[0]] + Link(readers[1..], reader)
  }

  /** How it unlinks its own node: walking no further than the readers of its request. */
  function Unlink(readers: seq<Reader>, reader: Reader): seq<Reader> {
    if readers == [] || !Passed(readers[0], reader) then readers
    else if readers[0].thread == reader.thread then readers[1..]
    else [readers[0]] + Unlink(readers[1..], reader)
  }

  /** The reader read_packet signals: the first one waiting for the request just read. */
  function FirstWaiting(readers: seq<Reader>, read: nat): Option<nat> {
    if readers == [] || Compare32(readers[0].Request(), read) > 0 then None
    else if Compare32(readers[0].Request(), read) == 0 then Some(readers[0].thread)
    else FirstWaiting(readers[1..], read)
  }

  /** _xcb_in_wake_up_next_reader. */
  function NextSignal(readers: seq<Reader>): Signal {
    if readers != [] then ReaderCond(readers[0].thread) else EventCond
  }

  // ----- the walks, i readers on -----

  /** What linking makes of the list, the first i readers having been passed. */
  function LinkFrom(readers: seq<Reader>, reader: Reader, i: nat): seq<Reader>
    requires i <= |readers|
  {
    readers[..i] + Link(readers[i..], reader)
  }

  function UnlinkFrom(readers: seq<Reader>, reader: Reader, i: nat): seq<Reader>
    requires i <= |readers|
  {
    readers[..i] + Unlink(readers[i..], reader)
  }

  lemma WalksStart(readers: seq<Reader>, reader: Reader)
    ensures LinkFrom(readers, reader, 0) == Link(readers, reader)
    ensures UnlinkFrom(readers, reader, 0) == Unlink(readers, reader)
  {
    assert readers[..0] == [] && readers[0..] == readers;
  }

  lemma LinkPasses(readers: seq<Reader>, reader: Reader, i: nat)
    requires i < |readers| && Passed(readers[i], reader)
    ensures LinkFrom(readers, reader, i) == LinkFrom(readers, reader, i + 1)
  {
    assert readers[i..][1..] == readers[i + 1..] && readers[..i] + [readers[i]] == readers[..i + 1];
  }

  lemma UnlinkPasses(readers: seq<Reader>, reader: Reader, i: nat)
    requires i < |readers| && Passed(readers[i], reader) && readers[i].thread != reader.thread
    ensures UnlinkFrom(readers, reader, i) == UnlinkFrom(readers, reader, i + 1)
  {
    assert readers[i..][1..] == readers[i + 1..] && readers[..i] + [readers[i]] == readers[..i + 1];
  }

  lemma LinkStops(readers: seq<Reader>, reader: Reader, i: nat)
    requires i <= |readers| && (i < |readers| ==> !Passed(readers[i], reader))
    ensures LinkFrom(readers, reader, i) == readers[..i] + ([reader] + readers[i..])
  {
  }

  lemma UnlinkStops(readers: seq<Reader>, reader: Reader, i: nat)
    requires i <= |readers|
    requires i < |readers| ==> !Passed(readers[i], reader) || readers[i].thread == reader.thread
    ensures UnlinkFrom(readers, reader, i)
      == if i < |readers| && Passed(readers[i], reader) then readers[..i] + readers[i + 1..] else readers
  {
    if i < |readers| {
      assert readers[i..][1..] == readers[i + 1..];
    }
  }

  /** Where the walk of the first loop of xcb_wait_for_reply stops. */
  method LinkPlace(readers: seq<Reader>, reader: Reader) returns (i: nat)
    ensures i <= |readers| && Link(readers, reader) == readers[..i] + ([reader] + readers[i..])
  {
    i := 0;
    WalksStart(readers, reader);
    while i < |readers| && Passed(readers[i], reader)
      invariant i <= |readers|
      invariant Link(readers, reader) == LinkFrom(readers, reader, i)
      decreases |readers| - i
    {
      LinkPasses(readers, reader, i);
      i := i + 1;
    }
    LinkStops(readers, reader, i);
  }

  /** Where the walk of the second loop stops, and whether that is at the thread's own node. */
  method UnlinkPlace(readers: seq<Reader>, reader: Reader) returns (i: nat, found: bool)
    ensures i <= |readers| && (found ==> i < |readers|)
    ensures Unlink(readers, reader) == if found then readers[..i] + readers[i + 1..] else readers
  {
    i := 0;
    WalksStart(readers, reader);
    while i < |readers| && Passed(readers[i], reader) && readers[i].thread != reader.thread
      invariant i <= |readers|
      invariant Unlink(readers, reader) == UnlinkFrom(readers, reader, i)
      decreases |readers| - i
    {
      UnlinkPasses(readers, reader, i);
      i := i + 1;
    }
    UnlinkStops(readers, reader, i);
    found := i < |readers| && Passed(readers[i], reader);
  }

  // ----- what the walks are for -----

  ghost predicate Sorted(readers: seq<Reader>) {
    readers == [] || ((forall r :: r in readers ==> readers[0].n <= r.n) && Sorted(readers[1..]))
  }

  /** All requests waited for are within 2^31 of the given one. */
  ghost predicate Near(readers: seq<Reader>, n: nat) {
    forall r :: r in readers ==> -TWO31 < r.n - n < TWO31
  }

  ghost predicate OwnThreads(readers: seq<Reader>) {
    readers == [] || ((forall r :: r in readers[1..] ==> r.thread != readers[0].thread) && OwnThreads(readers[1..]))
  }

  lemma CompareNear(a: nat, b: nat)
    requires -TWO31 < a - b < TWO31
    ensures Compare32(Cookie(a), Cookie(b)) == a - b == Compare32(Cookie(a), b)
  {
    Compare32Exact(a, b);
  }

  /** Linking adds the reader, in order, and nothing else. */
  lemma {:induction false} LinkInserts(readers: seq<Reader>, reader: Reader)
    requires Sorted(readers) && OwnThreads(readers) && Near(readers, reader.n)
    requires forall r :: r in readers ==> r.thread != reader.thread
    ensures var linked := Link(readers, reader);
      Sorted(linked) && OwnThreads(linked) && forall r :: r in linked <==> r in readers || r == reader
  {
    var linked := Link(readers, reader);
    if readers != [] {
      assert readers[0] in readers;
      assert readers == [readers[0]] + readers[1..];
      CompareNear(readers[0].n, reader.n);
      if readers[0].n <= reader.n {
        LinkInserts(readers[1..], reader);
        assert linked[1..] == Link(readers[1..], reader);
      } else {
        assert linked[1..] == readers;
      }
    } else {
      assert linked[1..] == [];
    }
  }

  /** The reader stands behind those that wait for the same request or an earlier one, and before those that wait for a later one. */
  lemma {:induction false} LinkedBehind(readers: seq<Reader>, reader: Reader) returns (i: nat)
    requires Sorted(readers) && Near(readers, reader.n)
    ensures i <= |readers| && Link(readers, reader) == readers[..i] + [reader] + readers[i..]
    ensures forall j :: 0 <= j < |readers| ==> (readers[j].n <= reader.n <==> j < i)
  {
    i := 0;
    if readers != [] {
      assert readers[0] in readers;
      CompareNear(readers[0].n, reader.n);
      if readers[0].n <= reader.n {
        assert forall r :: r in readers[1..] ==> r in readers;
        var k := LinkedBehind(readers[1..], reader);
        i := k + 1;
        OneBefore(readers, reader, k);
      } else {
        assert readers[..0] == [] && readers[0..] == readers;
        forall j | 0 <= j < |readers| ensures readers[j].n > reader.n {
          assert readers[j] in readers;
        }
      }
    }
  }

  lemma OneBefore(readers: seq<Reader>, reader: Reader, k: nat)
    requires readers != [] && k <= |readers| - 1 && readers[0].n <= reader.n
    requires forall j :: 0 <= j < |readers| - 1 ==> (readers[1..][j].n <= reader.n <==> j < k)
    ensures [readers[0]] + (readers[1..][..k] + [reader] + readers[1..][k..]) == readers[..k + 1] + [reader] + readers[k + 1..]
    ensures forall j :: 0 <= j < |readers| ==> (readers[j].n <= reader.n <==> j < k + 1)
  {
    forall j | 0 < j < |readers| ensures readers[j].n <= reader.n <==> j < k + 1 {
      assert readers[j] == readers[1..][j - 1];
    }
  }

  /** The unlinking walk reaches the thread's own node and removes no other. */
  lemma {:induction false} UnlinkRemovesOwn(readers: seq<Reader>, reader: Reader)
    requires Sorted(readers) && OwnThreads(readers) && Near(readers, reader.n) && reader in readers
    ensures var unlinked := Unlink(readers, reader);
      Sorted(unlinked) && OwnThreads(unlinked) && forall r :: r in unlinked <==> r in readers && r != reader
  {
    assert readers[0] in readers;
    assert readers == [readers[0]] + readers[1..];
    CompareNear(readers[0].n, reader.n);
    if readers[0].thread != reader.thread {
      UnlinkRemovesOwn(readers[1..], reader);
      var unlinked := Unlink(readers, reader);
      assert unlinked[1..] == Unlink(readers[1..], reader);
    }
  }

  /** The walk of read_packet signals a thread waiting for the request exactly if there is one. */
  lemma {:induction false} WaiterIsFound(readers: seq<Reader>, read: nat)
    requires Sorted(readers) && Near(readers, read)
    ensures match FirstWaiting(readers, read)
      case Some(thread) => Reader(read, thread) in readers
      case None => forall r :: r in readers ==> r.n != read
  {
    if readers != [] {
      assert readers[0] in readers;
      assert readers == [readers[0]] + readers[1..];
      CompareNear(readers[0].n, read);
      if readers[0].n < read {
        WaiterIsFound(readers[1..], read);
      }
    }
  }
}
