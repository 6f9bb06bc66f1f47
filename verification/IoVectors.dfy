/** struct iovec: stretches of memory, gathered in order (writev(2)). */
module IoVectors {
  import opened Packets

  /** A null base stands for up to three bytes of padding. */
  datatype Iovec = Iovec(base: array?<Byte>, off: nat, len: nat)

  predicate Usable(v: Iovec) {
    v.base != null && v.off + v.len <= v.base.Length
  }

  ghost predicate AllUsable(vs: seq<Iovec>) {
    forall v :: v in vs ==> Usable(v)
  }

  ghost function Bases(vs: seq<Iovec>): set<object> {
    set v | v in vs && v.base != null :: v.base
  }

  function View(v: Iovec): (bytes: seq<Byte>)
    reads v.base
    requires Usable(v)
    ensures |bytes| == v.len
  {
    v.base[v.off..v.off + v.len]
  }

  /** All bytes of a vector, in order. */
  function Gather(vs: seq<Iovec>): seq<Byte>
    reads Bases(vs)
    requires AllUsable(vs)
  {
    if vs == [] then [] else View(vs[0]) + Gather(vs[1..])
  }

  function TotalLength(vs: seq<Iovec>): nat {
    if vs == [] then 0 else vs[0].len + TotalLength(vs[1..])
  }

  lemma {:induction false} GatherLength(vs: seq<Iovec>)
    requires AllUsable(vs)
    ensures |Gather(vs)| == TotalLength(vs)
  {
    if vs != [] {
      GatherLength(vs[1..]);
    }
  }

  /** Leaving out the first i parts is leaving out their bytes. */
  lemma {:induction false} GatherSkip(vs: seq<Iovec>, i: nat)
    requires AllUsable(vs) && i <= |vs|
    ensures TotalLength(vs[..i]) + TotalLength(vs[i..]) == TotalLength(vs) == |Gather(vs)|
    ensures Gather(vs)[TotalLength(vs[..i])..] == Gather(vs[i..])
  {
    GatherLength(vs);
    if i > 0 {
      var rest := vs[1..];
      GatherSkip(rest, i - 1);
      assert vs[..i][1..] == rest[..i - 1];
      assert vs[i..] == rest[i - 1..];
    } else {
      assert vs[..0] == [] && vs[0..] == vs;
    }
  }

  /** The later parts are as usable as all of them. */
  lemma Suffix(vs: seq<Iovec>, i: nat)
    requires AllUsable(vs) && i <= |vs|
    ensures AllUsable(vs[i..]) && Bases(vs[i..]) <= Bases(vs)
  {
    forall v | v in vs[i..] ensures v in vs {
    }
  }

  lemma {:induction false} TotalLengthAppend(vs: seq<Iovec>, i: nat)
    requires i < |vs|
    ensures TotalLength(vs[..i + 1]) == TotalLength(vs[..i]) + vs[i].len
  {
    if i > 0 {
      TotalLengthAppend(vs[1..], i - 1);
      assert vs[..i + 1][1..] == vs[1..][..i] && vs[..i][1..] == vs[1..][..i - 1];
    } else {
      assert vs[..1][1..] == [];
    }
  }

  /** Where part i lies among all bytes. */
  lemma PartAt(vs: seq<Iovec>, i: nat)
    requires AllUsable(vs) && i < |vs|
    ensures var from := TotalLength(vs[..i]);
      vs[i] in vs && from + vs[i].len <= |Gather(vs)| && Gather(vs)[from..from + vs[i].len] == View(vs[i])
  {
    GatherSkip(vs, i);
    assert vs[i] in vs;
    var from := TotalLength(vs[..i]);
    assert Gather(vs[i..]) == View(vs[i]) + Gather(vs[i..][1..]);
    assert Gather(vs)[from..from + vs[i].len] == Gather(vs)[from..][..vs[i].len];
  }

  lemma {:induction false} GatherConcat(a: seq<Iovec>, b: seq<Iovec>)
    requires AllUsable(a) && AllUsable(b)
    ensures AllUsable(a + b) && Gather(a + b) == Gather(a) + Gather(b)
  {
    if a != [] {
      GatherConcat(a[1..], b);
      assert (a + b)[1..] == a[1..] + b;
    } else {
      assert a + b == b;
    }
  }

  /** The bytes stay what they are while the memory is not written to. */
  twostate lemma {:induction false} GatherUnchanged(vs: seq<Iovec>)
    requires AllUsable(vs)
    requires forall v :: v in vs ==> old(allocated(v.base)) && unchanged(v.base)
    ensures Gather(vs) == old(Gather(vs))
  {
    if vs != [] {
      GatherUnchanged(vs[1..]);
    }
  }
}
