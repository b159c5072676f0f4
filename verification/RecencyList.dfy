/** The doubly linked ring with a sentinel that cache.go takes from Go's container/list. */
module RecencyList {
  import opened Prelude

  class Element {
    const value: string
    var next: Element?
    var prev: Element?
    var list: List?

    constructor (value: string)
      ensures this.value == value && list == null
    {
      this.value := value;
      next, prev, list := null, null, null;
    }
  }

  /** The strings that the nodes carry. */
  ghost function Values(nodes: seq<Element>): (vs: seq<string>)
    ensures |vs| == |nodes| && forall i :: 0 <= i < |nodes| ==> vs[i] == nodes[i].value
  {
    seq(|nodes|, i requires 0 <= i < |nodes| => nodes[i].value)
  }

  /** In a sequence without e, only e's old neighbours are where they are. */
  lemma Neighbours(nodes: seq<Element>, i: nat)
    requires NoDup(nodes) && i < |nodes|
    ensures var rest := nodes[..i] + nodes[i + 1..];
      && NoDup(rest) && nodes[i] !in rest
      && forall j {:trigger rest[j]} :: 0 <= j < |rest| ==>
           && rest[j] == nodes[if j < i then j else j + 1]
           && (i > 0 ==> (rest[j] == nodes[i - 1] <==> j + 1 == i))
           && (i + 1 < |nodes| ==> (rest[j] == nodes[i + 1] <==> j == i))
  {
    NoDupWithout(nodes, i);
    NoDupPairs(nodes);
  }

  class List {
    const root: Element
    var len: int
    ghost var nodes: seq<Element>
    /** The sentinel and every node the list ever had. */
    ghost var Repr: set<Element>

    /** Forward and backward links agree all the way round the ring root, ns, root. */
    ghost predicate Ring(ns: seq<Element>)
      reads this, Repr
      requires root in Repr && forall i {:trigger ns[i]} :: 0 <= i < |ns| ==> ns[i] in Repr
    {
      && root !in ns
      && NoDup(ns)
      && root.next == (if ns == [] then root else ns[0])
      && root.prev == (if ns == [] then root else ns[|ns| - 1])
      && (forall i {:trigger ns[i].next} :: 0 <= i < |ns| ==> ns[i].next == if i + 1 < |ns| then ns[i + 1] else root)
      && (forall i {:trigger ns[i].prev} :: 0 <= i < |ns| ==> ns[i].prev == if i > 0 then ns[i - 1] else root)
    }

    ghost predicate Valid()
      reads this, Repr
    {
      && root in Repr
      && (forall i {:trigger nodes[i]} :: 0 <= i < |nodes| ==> nodes[i] in Repr && nodes[i].list == this)
      && len == |nodes|
      && Ring(nodes)
    }

    constructor ()
      ensures Valid() && nodes == [] && fresh(Repr)
    {
      root := new Element("");
      len := 0;
      nodes := [];
      new;
      Repr := {root};
      root.next := root;
      root.prev := root;
    }

    method Init()
      requires root in Repr
      modifies this, root
      ensures Valid() && nodes == [] && Repr == old(Repr)
    {
      root.next := root;
      root.prev := root;
      len := 0;
      nodes := [];
    }

    method Back() returns (e: Element?)
      requires Valid()
      ensures e == if nodes == [] then null else nodes[|nodes| - 1]
    {
      if len == 0 { return null; }
      return root.prev;
    }

    /** The pointer writes that container/list's remove and move share. */
    method Bypass(e: Element, ghost i: nat)
      requires root in Repr && forall i {:trigger nodes[i]} :: 0 <= i < |nodes| ==> nodes[i] in Repr
      requires Ring(nodes) && i < |nodes| && nodes[i] == e
      modifies Repr`next, Repr`prev
      ensures Ring(nodes[..i] + nodes[i + 1..]) && e !in nodes[..i] + nodes[i + 1..]
    {
      hide NoDup;
      ghost var rest := nodes[..i] + nodes[i + 1..];
      Neighbours(nodes, i);
      var p, n := e.prev, e.next;
      p.next := n;
      n.prev := p;
      forall j | 0 <= j < |rest|
        ensures rest[j].next == if j + 1 < |rest| then rest[j + 1] else root
        ensures rest[j].prev == if j > 0 then rest[j - 1] else root
      {
        assert rest[j] == nodes[if j < i then j else j + 1];
      }
    }

    /** The pointer writes that container/list's insert and move share, for the front position. */
    method LinkFront(e: Element, ghost rest: seq<Element>)
      requires root in Repr && e in Repr && forall i {:trigger rest[i]} :: 0 <= i < |rest| ==> rest[i] in Repr
      requires Ring(rest) && e != root && e !in rest
      modifies Repr`next, Repr`prev
      ensures Ring([e] + rest)
    {
      e.prev := root;
      e.next := root.next;
      e.prev.next := e;
      e.next.prev := e;
      ghost var ns := [e] + rest;
      NoDupCons(e, rest);
      forall j | 1 <= j < |ns|
        ensures ns[j].next == if j + 1 < |ns| then ns[j + 1] else root
        ensures ns[j].prev == ns[j - 1]
      {
        assert ns[j] == rest[j - 1];
        assert (rest[j - 1] == rest[0]) == (j == 1);
      }
    }

    method PushFront(value: string) returns (e: Element)
      requires Valid()
      modifies this, Repr
      ensures Valid() && fresh(e) && e.value == value && nodes == [e] + old(nodes) && Repr == old(Repr) + {e}
    {
      e := new Element(value);
      Repr := Repr + {e};
      LinkFront(e, nodes);
      e.list := this;
      len := len + 1;
      nodes := [e] + nodes;
    }

    method Remove(e: Element, ghost i: nat)
      requires Valid() && i < |nodes| && nodes[i] == e
      modifies this, Repr
      ensures Valid() && nodes == old(nodes)[..i] + old(nodes)[i + 1..] && Repr == old(Repr)
    {
      if e.list == this {
        Bypass(e, i);
        e.next := null;
        e.prev := null;
        e.list := null;
        len := len - 1;
        nodes := nodes[..i] + nodes[i + 1..];
      }
    }

    method MoveToFront(e: Element, ghost i: nat)
      requires Valid() && i < |nodes| && nodes[i] == e
      modifies this, Repr
      ensures Valid() && nodes == [e] + old(nodes)[..i] + old(nodes)[i + 1..] && Repr == old(Repr)
    {
      if e.list != this || root.next == e {
        assert nodes == [e] + nodes[..i] + nodes[i + 1..];
        return;
      }
      ghost var rest := nodes[..i] + nodes[i + 1..];
      Bypass(e, i);
      LinkFront(e, rest);
      nodes := [e] + rest;
    }
  }
}
