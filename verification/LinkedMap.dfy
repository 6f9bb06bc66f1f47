/**
 * The singly linked map of src/xcb_list.c. The source keeps a pointer to the
 * last `next` cell; a cell is represented here by the node that holds it, with
 * null standing for the head cell of the list itself.
 */
module LinkedMap {
  import opened Wrappers

  class Node<T> {
    var next: Node?<T>
    const key: nat
    const data: T

    constructor (key: nat, data: T)
      ensures this.key == key && this.data == data && next == null
    {
      this.key, this.data, next := key, data, null;
    }
  }

  class List<T> {
    var head: Node?<T>
    /** The node whose `next` cell the tail pointer addresses; null for the head cell. */
    var tail: Node?<T>
    ghost var spine: seq<Node<T>>
    ghost var Repr: set<object>

    ghost predicate Valid()
      reads this, Repr
      ensures Valid() ==> this in Repr
    {
      && this in Repr
      && (forall i :: 0 <= i < |spine| ==> spine[i] in Repr)
      && (forall i, j :: 0 <= i < j < |spine| ==> spine[i] != spine[j])
      && head == NodeAt(0)
      && (forall i, j :: 0 <= i < j < |spine| && j == i + 1 ==> spine[i].next == spine[j])
      && tail == (if spine == [] then null else spine[|spine| - 1])
      && (tail != null ==> tail.next == null)
    }

    ghost function NodeAt(i: nat): Node?<T>
      reads this
    {
      if i < |spine| then spine[i] else null
    }

    /** The pairs in list order, oldest first. */
    ghost function Contents(): seq<(nat, T)>
      reads this, Repr
      requires Valid()
    {
      Pairs(spine)
    }

    constructor ()
      ensures Valid() && fresh(Repr) && Contents() == []
    {
      head, tail := null, null;
      spine, Repr := [], {this};
    }

    /** _xcb_map_put: `*tail = cur; tail = &cur->next`. */
    method Put(key: nat, data: T)
      requires Valid()
      modifies Repr
      ensures Valid() && fresh(Repr - old(Repr))
      ensures Contents() == old(Contents()) + [(key, data)]
    {
      var cur := new Node(key, data);
      if tail == null {
        head := cur;
      } else {
        tail.next := cur;
      }
      tail := cur;
      spine, Repr := spine + [cur], Repr + {cur};
    }

    /** _xcb_map_remove: walk the cells, unlink the first node with the key. */
    method Remove(key: nat) returns (ret: Option<T>)
      requires Valid()
      modifies Repr
      ensures Valid() && Repr == old(Repr)
      ensures ret == Find(old(Contents()), key)
      ensures Contents() == Without(old(Contents()), key)
    {
      var cell: Node?<T> := null;
      var cur := head;
      ghost var i := 0;
      while cur != null && cur.key != key
        invariant 0 <= i <= |spine|
        invariant cur == NodeAt(i)
        invariant cell == if i == 0 then null else spine[i - 1]
        invariant forall j :: 0 <= j < i ==> spine[j].key != key
        decreases |spine| - i
      {
        cell, cur, i := cur, cur.next, i + 1;
      }
      if cur == null {
        FirstMatch(Contents(), key, |spine|);
        ret := None;
      } else {
        FirstMatch(Contents(), key, i);
        ret := Some(cur.data);
        Unlink(cell, cur, i);
      }
    }

    /** `*cur = (*cur)->next`, and the tail moves back when the last node goes. */
    method Unlink(cell: Node?<T>, cur: Node<T>, ghost i: nat)
      requires Valid() && i < |spine| && cur == spine[i]
      requires cell == if i == 0 then null else spine[i - 1]
      modifies Repr
      ensures Valid() && Repr == old(Repr)
      ensures Contents() == old(Contents())[..i] + old(Contents())[i + 1..]
    {
      assert cur.next == NodeAt(i + 1);
      ghost var rest := spine[..i] + spine[i + 1..];
      assert forall j :: 0 <= j < |rest| ==> rest[j] == if j < i then spine[j] else spine[j + 1];
      if cell == null {
        head := cur.next;
      } else {
        cell.next := cur.next;
      }
      if cur.next == null {
        tail := cell;
      }
      spine := rest;
    }
  }

  ghost function Pairs<T>(nodes: seq<Node<T>>): seq<(nat, T)> {
    seq(|nodes|, i requires 0 <= i < |nodes| => (nodes[i].key, nodes[i].data))
  }

  /** The data of the oldest pair with the key. */
  function Find<T>(pairs: seq<(nat, T)>, key: nat): Option<T> {
    if pairs == [] then None
    else if pairs[0].0 == key then Some(pairs[0].1)
    else Find(pairs[1..], key)
  }

  /** The pairs without the oldest one with the key. */
  function Without<T>(pairs: seq<(nat, T)>, key: nat): seq<(nat, T)> {
    if pairs == [] then []
    else if pairs[0].0 == key then pairs[1..]
    else [pairs[0]] + Without(pairs[1..], key)
  }

  /** Both operations act at the first index i that holds the key. */
  lemma {:induction false} FirstMatch<T>(pairs: seq<(nat, T)>, key: nat, i: nat)
    requires i <= |pairs| && forall j :: 0 <= j < i ==> pairs[j].0 != key
    requires i < |pairs| ==> pairs[i].0 == key
    ensures Find(pairs, key) == if i < |pairs| then Some(pairs[i].1) else None
    ensures Without(pairs, key) == if i < |pairs| then pairs[..i] + pairs[i + 1..] else pairs
  {
    if i > 0 {
      FirstMatch(pairs[1..], key, i - 1);
      if i < |pairs| {
        assert pairs[..i] + pairs[i + 1..] == [pairs[0]] + (pairs[1..][..i - 1] + pairs[1..][i..]);
      }
    }
  }

  /** The list read as a map, the oldest pair of a key winning. */
  ghost function AsMap<T>(pairs: seq<(nat, T)>): map<nat, T> {
    if pairs == [] then map[] else AsMap(pairs[1..])[pairs[0].0 := pairs[0].1]
  }

  /** No key occurs twice. */
  ghost predicate DistinctKeys<T>(pairs: seq<(nat, T)>) {
    pairs == [] || (pairs[0].0 !in AsMap(pairs[1..]) && DistinctKeys(pairs[1..]))
  }

  /** Looking up the list is looking up the map. */
  lemma {:induction false} FindIsLookup<T>(pairs: seq<(nat, T)>, key: nat)
    ensures Find(pairs, key) == if key in AsMap(pairs) then Some(AsMap(pairs)[key]) else None
  {
    if pairs != [] {
      FindIsLookup(pairs[1..], key);
    }
  }

  /** Appending a new key is a map update, and keys stay distinct. */
  lemma {:induction false} AppendIsUpdate<T>(pairs: seq<(nat, T)>, key: nat, data: T)
    requires DistinctKeys(pairs) && key !in AsMap(pairs)
    ensures DistinctKeys(pairs + [(key, data)])
    ensures AsMap(pairs + [(key, data)]) == AsMap(pairs)[key := data]
  {
    var longer := pairs + [(key, data)];
    if pairs != [] {
      AppendIsUpdate(pairs[1..], key, data);
      assert longer[1..] == pairs[1..] + [(key, data)];
    }
  }

  /** Removing the oldest match of distinct keys is a map removal. */
  lemma {:induction false} WithoutIsRemoval<T>(pairs: seq<(nat, T)>, key: nat)
    requires DistinctKeys(pairs)
    ensures DistinctKeys(Without(pairs, key))
    ensures AsMap(Without(pairs, key)) == AsMap(pairs) - {key}
  {
    if pairs != [] && pairs[0].0 != key {
      WithoutIsRemoval(pairs[1..], key);
      var w := [pairs[0]] + Without(pairs[1..], key);
      assert w[1..] == Without(pairs[1..], key);
    }
  }
}
