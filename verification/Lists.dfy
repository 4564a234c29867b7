/** The intrusive doubly linked lists of misc.c. */
module Lists {

  /** A struct list_node with the one field of its channel that matters here. */
  class Node {
    var next: Node?
    var prev: Node?
    var head: ListHead?
    const id: nat

    constructor (id: nat)
      ensures this.id == id
    {
      this.id, next, prev, head := id, null, null, null;
    }
  }

  function Before(nodes: seq<Node>, i: nat): (n: Node?)
    requires i < |nodes|
  {
    if i == 0 then null else nodes[i - 1]
  }

  function After(nodes: seq<Node>, i: nat): (n: Node?)
    requires i < |nodes|
  {
    if i + 1 == |nodes| then null else nodes[i + 1]
  }

  ghost predicate Distinct(nodes: seq<Node>) { forall i, j | 0 <= i < j < |nodes| :: nodes[i] != nodes[j] }

  /** Taking out one node, as far as the sequence goes: who is next to whom. */
  function Without(nodes: seq<Node>, i: nat): (ms: seq<Node>)
    requires i < |nodes|
  {
    nodes[..i] + nodes[i + 1..]
  }

  lemma NeighboursWithout(nodes: seq<Node>, i: nat, k: nat)
    requires i < |nodes| && k + 1 < |nodes|
    ensures var ms, o := Without(nodes, i), if k < i then k else k + 1;
            && ms[k] == nodes[o]
            && After(ms, k) == (if o + 1 == i then After(nodes, i) else After(nodes, o))
            && Before(ms, k) == (if o == i + 1 then Before(nodes, i) else Before(nodes, o))
  {
  }

  lemma DistinctWithout(nodes: seq<Node>, i: nat)
    requires i < |nodes| && Distinct(nodes)
    ensures Distinct(Without(nodes, i)) && nodes[i] !in Without(nodes, i)
  {
    var ms := Without(nodes, i);
    assert forall k | 0 <= k < |ms| :: ms[k] == nodes[if k < i then k else k + 1];
  }

  /** The links of the node at `i` lead to its neighbours and to the head. */
  ghost predicate InPlace(nodes: seq<Node>, i: nat, head: ListHead)
    requires i < |nodes|
    reads nodes
  {
    nodes[i].head == head && nodes[i].prev == Before(nodes, i) && nodes[i].next == After(nodes, i)
  }

  ghost predicate Chained(nodes: seq<Node>, head: ListHead)
    reads nodes
  {
    forall i | 0 <= i < |nodes| :: InPlace(nodes, i, head)
  }

  class ListHead {
    var first: Node?
    var last: Node?

    // The nodes linked into this list, in order.
    ghost var nodes: seq<Node>

    /** Both chains of links run through `nodes`, and every node knows its list. */
    ghost predicate Valid()
      reads this, nodes
    {
      && Distinct(nodes)
      && first == (if nodes == [] then null else nodes[0])
      && last == (if nodes == [] then null else nodes[|nodes| - 1])
      && Chained(nodes, this)
    }

    /** _libssh2_list_init. */
    constructor ()
      ensures Valid() && nodes == []
    {
      first, last, nodes := null, null, [];
    }

    /** _libssh2_list_add. */
    method Add(entry: Node)
      requires Valid() && entry !in nodes
      modifies this, entry, nodes
      ensures Valid() && nodes == old(nodes) + [entry]
    {
      ghost var was := nodes;
      assert was != [] ==> last == was[|was| - 1];
      entry.head := this;
      entry.next := null;
      entry.prev := last;
      last := entry;
      if entry.prev != null {
        entry.prev.next := entry;
      } else {
        first := entry;
      }
      nodes := nodes + [entry];
      assert InPlace(nodes, |was|, this);
      forall k | 0 <= k < |was|
        ensures InPlace(nodes, k, this)
      {
        assert old(InPlace(was, k, this));
      }
    }
  }

  lemma Neighbours(nodes: seq<Node>, i: nat, o: nat)
    requires i < |nodes| && o < |nodes| && o != i && Distinct(nodes)
    ensures nodes[o] == Before(nodes, i) <==> o + 1 == i
    ensures nodes[o] == After(nodes, i) <==> o == i + 1
  {
  }

  /** The `next` link of the node at `o` once it leads past the one at `i`. */
  ghost predicate NextPast(nodes: seq<Node>, i: nat, o: nat)
    requires i < |nodes| && o < |nodes|
    reads nodes
  {
    nodes[o].next == if o + 1 == i then After(nodes, i) else After(nodes, o)
  }

  /** Likewise the `prev` link. */
  ghost predicate PrevPast(nodes: seq<Node>, i: nat, o: nat)
    requires i < |nodes| && o < |nodes|
    reads nodes
  {
    nodes[o].prev == if o == i + 1 then Before(nodes, i) else Before(nodes, o)
  }

  /** The links of the node at `o` once its neighbour at `i` has been linked past. */
  ghost predicate Linked(nodes: seq<Node>, i: nat, o: nat, head: ListHead)
    requires i < |nodes| && o < |nodes|
    reads nodes
  {
    nodes[o].head == head && NextPast(nodes, i, o) && PrevPast(nodes, i, o)
  }

  /** The update of the node before, or of the head. */
  method LinkForward(entry: Node, head: ListHead, ghost i: nat)
    requires entry.head == head && head.Valid() && i < |head.nodes| && head.nodes[i] == entry
    modifies head`first, head.nodes`next
    ensures forall o | 0 <= o < |head.nodes| && o != i :: NextPast(head.nodes, i, o)
    ensures head.first == if i == 0 then After(head.nodes, 0) else old(head.first)
    ensures entry.next == old(entry.next)
  {
    ghost var ns := head.nodes;
    assert InPlace(ns, i, head);
    if entry.prev != null {
      entry.prev.next := entry.next;
    } else {
      head.first := entry.next;
    }
    forall o | 0 <= o < |ns| && o != i
      ensures NextPast(ns, i, o)
    {
      assert old(InPlace(ns, o, head));
      Neighbours(ns, i, o);
    }
  }

  /** The update of the node after, or of the head. */
  method LinkBack(entry: Node, head: ListHead, ghost i: nat)
    requires i < |head.nodes| && head.nodes[i] == entry && Distinct(head.nodes)
    requires entry.next == After(head.nodes, i) && entry.prev == Before(head.nodes, i)
    modifies head`last, head.nodes`prev
    ensures forall o | 0 <= o < |head.nodes| && o != i ::
              old(head.nodes[o].prev) == Before(head.nodes, o) ==> PrevPast(head.nodes, i, o)
    ensures head.last == if i + 1 == |head.nodes| then Before(head.nodes, i) else old(head.last)
  {
    ghost var ns := head.nodes;
    if entry.next != null {
      entry.next.prev := entry.prev;
    } else {
      head.last := entry.prev;
    }
    forall o | 0 <= o < |ns| && o != i && old(ns[o].prev) == Before(ns, o)
      ensures PrevPast(ns, i, o)
    {
      Neighbours(ns, i, o);
    }
  }

  /** The pointer updates of _libssh2_list_remove: the neighbours of the node, or the head, get linked past it. */
  method LinkPast(entry: Node, head: ListHead, ghost i: nat)
    requires entry.head == head && head.Valid() && i < |head.nodes| && head.nodes[i] == entry
    modifies head`first, head`last, head.nodes`next, head.nodes`prev
    ensures forall o | 0 <= o < |head.nodes| && o != i :: Linked(head.nodes, i, o, head)
    ensures head.first == if i == 0 then After(head.nodes, 0) else old(head.first)
    ensures head.last == if i + 1 == |head.nodes| then Before(head.nodes, i) else old(head.last)
  {
    ghost var ns := head.nodes;
    assert InPlace(ns, i, head);
    LinkForward(entry, head, i);
    label Forward:
    LinkBack(entry, head, i);
    forall o | 0 <= o < |ns| && o != i
      ensures Linked(ns, i, o, head)
    {
      assert old(InPlace(ns, o, head));
      assert old@Forward(NextPast(ns, i, o));
      assert old@Forward(ns[o].prev) == Before(ns, o);
    }
  }

  lemma ChainedWithout(nodes: seq<Node>, i: nat, head: ListHead)
    requires i < |nodes| && forall o | 0 <= o < |nodes| && o != i :: Linked(nodes, i, o, head)
    ensures Chained(Without(nodes, i), head)
  {
    var ms := Without(nodes, i);
    forall k | 0 <= k < |ms|
      ensures InPlace(ms, k, head)
    {
      NeighboursWithout(nodes, i, k);
      assert Linked(nodes, i, if k < i then k else k + 1, head);
    }
  }

  lemma EndsWithout(nodes: seq<Node>, i: nat)
    requires i < |nodes|
    ensures var ms := Without(nodes, i);
            && (if ms == [] then null else ms[0]) == (if i == 0 then After(nodes, 0) else nodes[0])
            && (if ms == [] then null else ms[|ms| - 1]) ==
               (if i + 1 == |nodes| then Before(nodes, i) else nodes[|nodes| - 1])
  {
  }

  /** _libssh2_list_remove: the node keeps its own links, but no other node and no head points to it. */
  method Remove(entry: Node, ghost i: nat)
    requires entry.head != null && entry.head.Valid() && i < |entry.head.nodes| && entry.head.nodes[i] == entry
    modifies entry.head, entry.head.nodes
    ensures entry.head == old(entry.head) && entry.head.Valid()
    ensures entry.head.nodes == Without(old(entry.head.nodes), i) && entry !in entry.head.nodes
  {
    var head: ListHead := entry.head;
    ghost var ns, ms := head.nodes, Without(head.nodes, i);
    DistinctWithout(ns, i);
    EndsWithout(ns, i);
    LinkPast(entry, head, i);
    ChainedWithout(ns, i, head);
    head.nodes := ms;
    assert forall k | 0 <= k < |ms| :: InPlace(ms, k, head);
  }
}
