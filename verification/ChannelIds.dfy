/** Channel ids: how they are allocated, and how a channel is found by its id. */
module ChannelIds {
  import opened Lists

  /** The largest of `start` and the ids in a list. */
  function Highest(start: nat, nodes: seq<Node>): (id: nat) {
    if nodes == [] then start else
      var h := Highest(start, nodes[..|nodes| - 1]);
      if nodes[|nodes| - 1].id > h then nodes[|nodes| - 1].id else h
  }

  /** The scan alone makes sure of a new id only when no id in the list has reached `start`. */
  lemma {:induction false} HighestIsFresh(start: nat, nodes: seq<Node>)
    ensures Highest(start, nodes) >= start && forall i | 0 <= i < |nodes| :: nodes[i].id <= Highest(start, nodes)
    ensures Highest(start, nodes) == start || exists i :: 0 <= i < |nodes| && nodes[i].id == Highest(start, nodes)
    ensures (forall i | 0 <= i < |nodes| :: nodes[i].id != Highest(start, nodes)) <==>
              (forall i | 0 <= i < |nodes| :: nodes[i].id < start)
    ensures (forall i | 0 <= i < |nodes| :: nodes[i].id < start) ==> Highest(start, nodes) == start
  {
    if nodes != [] {
      var front, last := nodes[..|nodes| - 1], nodes[|nodes| - 1];
      HighestIsFresh(start, front);
      assert nodes == front + [last];
      assert forall i | 0 <= i < |front| :: front[i] == nodes[i];
      assert nodes[|front|] == last;
    }
  }

  // ----- several lists

  ghost function NodesOf(lists: seq<ListHead>): (ns: set<Node>)
    reads lists
    ensures forall l, n | l in lists && n in l.nodes :: n in ns
  {
    set l, n | l in lists && n in l.nodes :: n
  }

  predicate Different(lists: seq<ListHead>) { forall i, j | 0 <= i < j < |lists| :: lists[i] != lists[j] }

  /** The lists are different lists, and each is well formed. A node names its list, so no node is in two of them. */
  ghost predicate WellFormed(lists: seq<ListHead>)
    reads lists, NodesOf(lists)
  {
    Different(lists) && forall l | l in lists :: l.Valid()
  }

  lemma KnowsItsList(l: ListHead, n: Node)
    requires l.Valid() && n in l.nodes
    ensures n.head == l
  {
    var k :| 0 <= k < |l.nodes| && l.nodes[k] == n;
    assert InPlace(l.nodes, k, l);
  }

  lemma Apart(lists: seq<ListHead>, l: ListHead)
    requires WellFormed(lists) && l in lists
    ensures forall m, n | m in lists && m != l && n in m.nodes :: n !in l.nodes
  {
    forall m, n | m in lists && m != l && n in m.nodes
      ensures n !in l.nodes
    {
      KnowsItsList(m, n);
      if n in l.nodes {
        KnowsItsList(l, n);
      }
    }
  }

  /** A list none of whose nodes has changed. */
  twostate lemma StillValid(l: ListHead)
    requires old(l.Valid()) && unchanged(l) && forall n | n in l.nodes :: unchanged(n)
    ensures l.Valid()
  {
    forall k | 0 <= k < |l.nodes|
      ensures InPlace(l.nodes, k, l)
    {
      assert l.nodes[k] in l.nodes && old(InPlace(l.nodes, k, l));
    }
  }

  /** The addition, seen from the list. */
  method AddNode(l: ListHead, n: Node)
    requires l.Valid() && n !in l.nodes
    modifies l, l.nodes, n
    ensures l.Valid() && l.nodes == old(l.nodes) + [n]
    ensures forall m :: m in l.nodes <==> m in old(l.nodes) || m == n
  {
    l.Add(n);
  }

  /** The removal, seen from the list. */
  method RemoveNode(ghost l: ListHead, n: Node, ghost k: nat)
    requires l.Valid() && k < |l.nodes| && l.nodes[k] == n
    modifies l, l.nodes
    ensures l.Valid() && l.nodes == Without(old(l.nodes), k) && (k == 0 ==> old(l.nodes) == [n] + l.nodes)
    ensures forall m :: m in l.nodes <==> m in old(l.nodes) && m != n
  {
    KnowsItsList(l, n);
    ghost var was := l.nodes;
    Remove(n, k);
    MembersWithout(was, k);
    FirstWithout(was, k);
  }

  lemma FirstWithout(nodes: seq<Node>, k: nat)
    requires k < |nodes|
    ensures k == 0 ==> nodes == [nodes[k]] + Without(nodes, k)
  {
  }

  lemma MembersWithout(nodes: seq<Node>, k: nat)
    requires k < |nodes| && Distinct(nodes)
    ensures forall m :: m in Without(nodes, k) <==> m in nodes && m != nodes[k]
  {
    var ms := Without(nodes, k);
    DistinctWithout(nodes, k);
    forall i | 0 <= i < |nodes| && nodes[i] != nodes[k]
      ensures nodes[i] in ms
    {
      assert nodes[i] == ms[if i < k then i else i - 1];
    }
  }

  /** Adding a node that is in no list to one of them leaves the others as they were. */
  method AddTo(ghost lists: seq<ListHead>, l: ListHead, n: Node)
    requires WellFormed(lists) && l in lists && n !in NodesOf(lists)
    modifies l, l.nodes, n
    ensures WellFormed(lists) && l.nodes == old(l.nodes) + [n]
    ensures forall m | m in lists && m != l :: m.nodes == old(m.nodes)
    ensures NodesOf(lists) == old(NodesOf(lists)) + {n}
  {
    Apart(lists, l);
    AddNode(l, n);
    forall m | m in lists && m != l
      ensures m.Valid()
    {
      forall x | x in m.nodes
        ensures unchanged(x)
      {
        assert x in old(m.nodes) && x !in old(l.nodes) && x != n;
      }
      StillValid(m);
    }
  }

  /** Taking a node out of one of them, likewise. */
  method RemoveOne(ghost lists: seq<ListHead>, ghost l: ListHead, n: Node, ghost k: nat)
    requires WellFormed(lists) && l in lists && k < |l.nodes| && l.nodes[k] == n
    modifies l, l.nodes
    ensures WellFormed(lists) && l.nodes == Without(old(l.nodes), k) && (k == 0 ==> old(l.nodes) == [n] + l.nodes)
    ensures forall m | m in lists && m != l :: m.nodes == old(m.nodes) && n !in m.nodes
    ensures forall x :: x in l.nodes <==> x in old(l.nodes) && x != n
  {
    Apart(lists, l);
    assert n in l.nodes;
    RemoveNode(l, n, k);
    forall m | m in lists && m != l
      ensures m.Valid()
    {
      forall x | x in m.nodes
        ensures unchanged(x)
      {
        assert x in old(m.nodes) && x !in old(l.nodes) && x != n;
      }
      StillValid(m);
    }
  }

  /** What is in each list, as a value. */
  ghost function Contents(lists: seq<ListHead>): (c: map<ListHead, seq<Node>>)
    reads lists
  {
    map l | l in lists :: l.nodes
  }

  ghost function Union(c: map<ListHead, seq<Node>>): (ns: set<Node>) {
    set l, n | l in c && n in c[l] :: n
  }

  lemma NodesAreUnion(lists: seq<ListHead>)
    ensures NodesOf(lists) == Union(Contents(lists))
  {
    var c := Contents(lists);
    forall x | x in NodesOf(lists)
      ensures x in Union(c)
    {
      var m: ListHead :| m in lists && x in m.nodes;
      assert m in c && x in c[m];
    }
    forall x | x in Union(c)
      ensures x in NodesOf(lists)
    {
      var m: ListHead :| m in c && x in c[m];
      assert m in lists && x in m.nodes;
    }
  }

  lemma UnionAfterRemoval(c: map<ListHead, seq<Node>>, d: map<ListHead, seq<Node>>, l: ListHead, n: Node)
    requires c.Keys == d.Keys && l in c && forall x :: x in d[l] <==> x in c[l] && x != n
    requires forall m | m in c && m != l :: d[m] == c[m] && n !in c[m]
    ensures Union(d) == Union(c) - {n}
  {
    forall x | x in Union(d)
      ensures x in Union(c) && x != n
    {
      var m: ListHead :| m in d && x in d[m];
      assert x in c[m];
    }
    forall x | x in Union(c) && x != n
      ensures x in Union(d)
    {
      var m: ListHead :| m in c && x in c[m];
      assert x in d[m];
    }
  }

  method RemoveFrom(ghost lists: seq<ListHead>, ghost l: ListHead, n: Node, ghost k: nat)
    requires WellFormed(lists) && l in lists && k < |l.nodes| && l.nodes[k] == n
    modifies l, l.nodes
    ensures WellFormed(lists) && l.nodes == Without(old(l.nodes), k) && (k == 0 ==> old(l.nodes) == [n] + l.nodes)
    ensures forall m | m in lists && m != l :: m.nodes == old(m.nodes)
    ensures NodesOf(lists) == old(NodesOf(lists)) - {n}
  {
    ghost var before := Contents(lists);
    NodesAreUnion(lists);
    RemoveOne(lists, l, n, k);
    NodesAreUnion(lists);
    UnionAfterRemoval(before, Contents(lists), l, n);
  }

  /** Takes the first channel out of a queue. */
  method TakeFirst(ghost lists: seq<ListHead>, queue: ListHead) returns (n: Node)
    requires WellFormed(lists) && queue in lists && queue.nodes != []
    modifies queue, queue.nodes
    ensures WellFormed(lists) && n in old(NodesOf(lists)) && NodesOf(lists) == old(NodesOf(lists)) - {n}
    ensures old(queue.nodes) == [n] + queue.nodes
    ensures forall m | m in lists && m != queue :: m.nodes == old(m.nodes)
  {
    n := queue.first;
    assert n in queue.nodes;
    RemoveFrom(lists, queue, n, 0);
  }

  /** The move of a queue's first channel to the end of another list. */
  method MoveFirst(ghost lists: seq<ListHead>, queue: ListHead, to: ListHead) returns (n: Node)
    requires WellFormed(lists) && queue in lists && to in lists && queue != to && queue.nodes != []
    modifies queue, queue.nodes, to, to.nodes
    ensures WellFormed(lists) && NodesOf(lists) == old(NodesOf(lists))
    ensures old(queue.nodes) == [n] + queue.nodes && to.nodes == old(to.nodes) + [n]
    ensures forall m | m in lists && m != queue && m != to :: m.nodes == old(m.nodes)
  {
    n := TakeFirst(lists, queue);
    AddTo(lists, to, n);
  }

  // ----- the session

  /** Ids are never handed out twice: all that ever were are behind `next`, and no two live channels share one. */
  ghost predicate Ids(live: set<Node>, ever: set<nat>, next: nat) {
    && (forall n | n in live :: n.id in ever)
    && (forall m, n | m in live && n in live && m.id == n.id :: m == n)
    && (forall id | id in ever :: id < next)
  }

  lemma IdsAfterOpening(live: set<Node>, ever: set<nat>, next: nat, n: Node)
    requires Ids(live, ever, next) && n.id == next
    ensures Ids(live + {n}, ever + {next}, next + 1)
  {
  }

  class Session {
    // The session's own list of channels first, then the queue of each listener.
    const lists: seq<ListHead>
    var nextChannel: nat

    ghost var ever: set<nat>       // every id ever handed out

    /** The channels in any of the lists. */
    ghost function Live(): (ns: set<Node>)
      reads lists
    {
      NodesOf(lists)
    }

    ghost predicate Valid()
      reads this, lists, NodesOf(lists)
    {
      WellFormed(lists) && Ids(Live(), ever, nextChannel) && lists != []
    }

    constructor (listeners: nat)
      ensures Valid() && Live() == {} && ever == {} && nextChannel == 0 && |lists| == 1 + listeners
      ensures forall l | l in lists :: fresh(l)
    {
      var ls: seq<ListHead> := [];
      while |ls| < 1 + listeners
        invariant |ls| <= 1 + listeners
        invariant forall i | 0 <= i < |ls| :: fresh(ls[i]) && ls[i].Valid() && ls[i].nodes == []
        invariant Different(ls)
      {
        var l := new ListHead();
        ls := ls + [l];
      }
      lists, nextChannel, ever := ls, 0, {};
    }

    /** _libssh2_channel_nextid. */
    method NextId() returns (id: nat)
      requires lists != [] && lists[0].Valid()
      modifies this`nextChannel
      ensures id == Highest(old(nextChannel), lists[0].nodes) && nextChannel == id + 1
    {
      id := nextChannel;
      var channel := lists[0].first;
      ghost var k, ns := 0, lists[0].nodes;
      while channel != null
        invariant k <= |ns| && id == Highest(old(nextChannel), ns[..k])
        invariant channel == if k == |ns| then null else ns[k]
        decreases |ns| - k
      {
        assert ns[..k + 1][..k] == ns[..k];
        if channel.id > id {
          id := channel.id;
        }
        assert InPlace(ns, k, lists[0]);
        channel := channel.next;
        k := k + 1;
      }
      assert ns[..|ns|] == ns;
      nextChannel := id + 1;
    }

    /** One of the loops of _libssh2_channel_locate. */
    method LocateIn(l: ListHead, id: nat) returns (n: Node?)
      requires l.Valid()
      ensures n != null ==> n in l.nodes && n.id == id
      ensures n == null ==> forall m | m in l.nodes :: m.id != id
    {
      n := l.first;
      ghost var k, ns := 0, l.nodes;
      while n != null
        invariant k <= |ns| && n == (if k == |ns| then null else ns[k])
        invariant forall i | 0 <= i < k :: ns[i].id != id
        decreases |ns| - k
      {
        if n.id == id {
          return;
        }
        assert InPlace(ns, k, l);
        n := n.next;
        k := k + 1;
      }
    }

    /** _libssh2_channel_locate: the one live channel of that id, wherever it is, or none. */
    method Locate(id: nat) returns (n: Node?)
      requires Valid()
      ensures n != null ==> n in Live() && n.id == id && forall m | m in Live() && m.id == id :: m == n
      ensures n == null ==> forall m | m in Live() :: m.id != id
    {
      n := null;
      for i := 0 to |lists|
        invariant n == null
        invariant forall j | 0 <= j < i :: forall m | m in lists[j].nodes :: m.id != id
      {
        n := LocateIn(lists[i], id);
        if n != null {
          return;
        }
      }
    }

    /** Under the invariant, the id is a new one: no channel, live or freed, ever had it. */
    method Allocate() returns (id: nat)
      requires Valid()
      modifies this`nextChannel
      ensures id !in ever && id == old(nextChannel) && nextChannel == id + 1
      ensures WellFormed(lists) && Live() == old(Live())
    {
      ghost var ns := lists[0].nodes;
      forall i | 0 <= i < |ns|
        ensures ns[i].id < nextChannel
      {
        assert ns[i] in ns && ns[i] in Live();
      }
      HighestIsFresh(nextChannel, ns);
      id := NextId();
    }

    /** A node with a new id, in no list yet. */
    method NewNode() returns (n: Node)
      requires Valid()
      modifies this`nextChannel, this`ever
      ensures fresh(n) && n.id !in old(ever) && ever == old(ever) + {n.id}
      ensures WellFormed(lists) && Live() == old(Live()) && n !in Live()
      ensures Ids(Live() + {n}, ever, nextChannel)
    {
      var id := Allocate();
      n := new Node(id);
      IdsAfterOpening(Live(), ever, id, n);
      ever := ever + {id};
    }

    /** Links a node with a new id into one of the lists. */
    method Enter(l: ListHead, n: Node)
      requires WellFormed(lists) && l in lists && n !in Live()
      requires Ids(Live() + {n}, ever, nextChannel)
      modifies l, l.nodes, n
      ensures Valid() && Live() == old(Live()) + {n} && l.nodes == old(l.nodes) + [n]
      ensures forall m | m in lists && m != l :: m.nodes == old(m.nodes)
    {
      AddTo(lists, l, n);
    }

    /** A new channel: in the session's list, for one opened here, or in a listener's queue, for a forwarded one. */
    method Open(l: ListHead) returns (n: Node)
      requires Valid() && l in lists
      modifies this`nextChannel, this`ever, l, l.nodes
      ensures Valid() && n.id !in old(ever) && ever == old(ever) + {n.id}
      ensures Live() == old(Live()) + {n} && l.nodes == old(l.nodes) + [n]
      ensures forall m | m in lists && m != l :: m.nodes == old(m.nodes)
    {
      n := NewNode();
      Enter(l, n);
    }

    /** The move in channel_forward_accept: the first channel waiting in a queue goes to the session's list. */
    method Accept(queue: ListHead) returns (n: Node?)
      requires Valid() && queue in lists && queue != lists[0]
      modifies queue, queue.nodes, lists[0], lists[0].nodes
      ensures Valid() && Live() == old(Live())
      ensures if old(queue.nodes) == [] then
                n == null && queue.nodes == [] && lists[0].nodes == old(lists[0].nodes)
              else
                n != null && old(queue.nodes) == [n] + queue.nodes && lists[0].nodes == old(lists[0].nodes) + [n]
      ensures forall m | m in lists && m != queue && m != lists[0] :: m.nodes == old(m.nodes)
    {
      assert queue.Valid();
      n := null;
      if queue.first != null {
        n := MoveFirst(lists, queue, lists[0]);
      }
    }

    /** _libssh2_channel_free, as far as the lists go; a freed channel's id is not given out again. */
    method Free(n: Node, ghost i: nat, ghost k: nat)
      requires Valid() && i < |lists| && k < |lists[i].nodes| && lists[i].nodes[k] == n
      modifies lists[i], lists[i].nodes
      ensures Valid() && Live() == old(Live()) - {n} && lists[i].nodes == Without(old(lists[i].nodes), k)
      ensures forall m | m in lists && m != lists[i] :: m.nodes == old(m.nodes)
    {
      RemoveFrom(lists, lists[i], n, k);
    }
  }
}
