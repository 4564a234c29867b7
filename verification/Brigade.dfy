/** The packet brigade: what has been received and not yet read. */
module Brigade {
  import opened Bytes
  import opened Messages

  // `head` counts the bytes of the body already handed to a reader.
  datatype Packet = Packet(msg: Msg, head: nat) {
    function Unread(): seq<byte> {
      if head <= |Body(msg)| then Body(msg)[head..] else []
    }
  }

  type Selection = Msg -> bool

  /** What a packet contributes to a selected stream. */
  function Part(p: Packet, sel: Selection): (x: seq<byte>) { if sel(p.msg) then p.Unread() else [] }

  /** Everything unread in the selected packets, in order. */
  function Stream(ps: seq<Packet>, sel: Selection): (x: seq<byte>) {
    if ps == [] then [] else Part(ps[0], sel) + Stream(ps[1..], sel)
  }

  /** The packets a selection leaves alone, in order. */
  function Others(ps: seq<Packet>, sel: Selection): (os: seq<Packet>) {
    if ps == [] then [] else (if sel(ps[0].msg) then [] else [ps[0]]) + Others(ps[1..], sel)
  }

  lemma StreamCons(p: Packet, rest: seq<Packet>, sel: Selection)
    ensures Stream([p] + rest, sel) == Part(p, sel) + Stream(rest, sel)
  {
    assert ([p] + rest)[1..] == rest;
  }

  lemma {:induction false} StreamAppend(ps: seq<Packet>, more: seq<Packet>, sel: Selection)
    ensures Stream(ps + more, sel) == Stream(ps, sel) + Stream(more, sel)
  {
    if ps == [] {
      assert ps + more == more;
    } else {
      var p, rest := ps[0], ps[1..];
      assert ps + more == [p] + (rest + more);
      StreamCons(p, rest + more, sel);
      StreamAppend(rest, more, sel);
      Regroup(Part(p, sel), Stream(rest, sel), Stream(more, sel));
    }
  }

  lemma StreamSnoc(ps: seq<Packet>, p: Packet, sel: Selection)
    ensures Stream(ps + [p], sel) == Stream(ps, sel) + Part(p, sel)
  {
    StreamAppend(ps, [p], sel);
    assert [p][1..] == [];
  }

  function Min(a: nat, b: nat): nat { if a < b then a else b }

  /**
   * One walk over the brigade by a reader with room for `want` bytes: the bytes it copies and the brigade it leaves.
   */
  function Taken(ps: seq<Packet>, sel: Selection, want: nat): (r: (seq<byte>, seq<Packet>))
    decreases |ps|
  {
    if want == 0 || ps == [] then ([], ps) else
      var p := ps[0];
      if !sel(p.msg) then
        var (x, rest) := Taken(ps[1..], sel, want);
        (x, [p] + rest)
      else if want >= |p.Unread()| then
        var (x, rest) := Taken(ps[1..], sel, want - |p.Unread()|);
        (p.Unread() + x, rest)
      else
        (p.Unread()[..want], [p.(head := p.head + want)] + ps[1..])
  }

  /** A packet bigger than the room left gives up its front and stays, in its place, with the rest. */
  lemma TakesPart(ps: seq<Packet>, sel: Selection, want: nat)
    requires ps != [] && sel(ps[0].msg) && want < |ps[0].Unread()|
    ensures ps[0].Unread()[..want] + Stream([ps[0].(head := ps[0].head + want)] + ps[1..], sel) == Stream(ps, sel)
  {
    var q, u := ps[0].(head := ps[0].head + want), ps[0].Unread();
    assert q.Unread() == u[want..] && u[..want] + u[want..] == u;
    StreamCons(q, ps[1..], sel);
    Regroup(u[..want], u[want..], Stream(ps[1..], sel));
  }

  lemma TakesNothing(ps: seq<Packet>, sel: Selection, x: seq<byte>, rest: seq<Packet>)
    requires ps != [] && !sel(ps[0].msg) && x + Stream(rest, sel) == Stream(ps[1..], sel)
    ensures x + Stream([ps[0]] + rest, sel) == Stream(ps, sel)
  {
    StreamCons(ps[0], rest, sel);
    assert [] + Stream(rest, sel) == Stream(rest, sel);
    assert [] + Stream(ps[1..], sel) == Stream(ps[1..], sel);
  }

  lemma {:induction false} TakesInOrder(ps: seq<Packet>, sel: Selection, want: nat)
    ensures Taken(ps, sel, want).0 + Stream(Taken(ps, sel, want).1, sel) == Stream(ps, sel)
    decreases |ps|
  {
    if want == 0 || ps == [] {
      assert [] + Stream(ps, sel) == Stream(ps, sel);
    } else if !sel(ps[0].msg) {
      TakesInOrder(ps[1..], sel, want);
      TakesNothing(ps, sel, Taken(ps[1..], sel, want).0, Taken(ps[1..], sel, want).1);
    } else if want >= |ps[0].Unread()| {
      var u := ps[0].Unread();
      TakesInOrder(ps[1..], sel, want - |u|);
      Regroup(u, Taken(ps[1..], sel, want - |u|).0, Stream(Taken(ps[1..], sel, want - |u|).1, sel));
    } else {
      TakesPart(ps, sel, want);
    }
  }

  lemma {:induction false} TakesOnlySelected(ps: seq<Packet>, sel: Selection, want: nat)
    ensures Others(Taken(ps, sel, want).1, sel) == Others(ps, sel)
    decreases |ps|
  {
    if want > 0 && ps != [] {
      var p, u := ps[0], ps[0].Unread();
      if !sel(p.msg) {
        TakesOnlySelected(ps[1..], sel, want);
        assert ([p] + Taken(ps[1..], sel, want).1)[1..] == Taken(ps[1..], sel, want).1;
      } else if want >= |u| {
        TakesOnlySelected(ps[1..], sel, want - |u|);
      } else {
        assert ([p.(head := p.head + want)] + ps[1..])[1..] == ps[1..];
      }
    }
  }

  lemma {:induction false} TakesAsMuch(ps: seq<Packet>, sel: Selection, want: nat)
    ensures |Taken(ps, sel, want).0| == Min(want, |Stream(ps, sel)|)
    decreases |ps|
  {
    if want > 0 && ps != [] {
      TakesAsMuch(ps[1..], sel, if sel(ps[0].msg) && want >= |ps[0].Unread()| then want - |ps[0].Unread()| else want);
    }
  }

  /**
   * A walk takes the front of the selected stream, as much as there is room for; what it leaves of that stream is the
   * rest; and it leaves every other packet where it was.
   */
  lemma TakesTheFront(ps: seq<Packet>, sel: Selection, want: nat)
    ensures Taken(ps, sel, want).0 == Stream(ps, sel)[..Min(want, |Stream(ps, sel)|)]
    ensures Stream(Taken(ps, sel, want).1, sel) == Stream(ps, sel)[Min(want, |Stream(ps, sel)|)..]
    ensures Others(Taken(ps, sel, want).1, sel) == Others(ps, sel)
  {
    TakesInOrder(ps, sel, want);
    TakesAsMuch(ps, sel, want);
    TakesOnlySelected(ps, sel, want);
  }

  /** A stream selected from packets that another selection leaves alone does not notice a walk of the other. */
  lemma {:induction false} StreamOfOthers(ps: seq<Packet>, sel: Selection, other: Selection)
    requires forall m: Msg :: !(sel(m) && other(m))
    ensures Stream(ps, other) == Stream(Others(ps, sel), other)
  {
    if ps != [] {
      var p := ps[0];
      StreamOfOthers(ps[1..], sel, other);
      if sel(p.msg) {
        assert Part(p, other) == [] && Others(ps, sel) == Others(ps[1..], sel);
      } else {
        assert Others(ps, sel)[1..] == Others(ps[1..], sel);
      }
    }
  }

  lemma OtherStreamsStay(ps: seq<Packet>, sel: Selection, other: Selection, want: nat)
    requires forall m: Msg :: !(sel(m) && other(m))
    ensures Stream(Taken(ps, sel, want).1, other) == Stream(ps, other)
  {
    TakesTheFront(ps, sel, want);
    StreamOfOthers(ps, sel, other);
    StreamOfOthers(Taken(ps, sel, want).1, sel, other);
  }
}
