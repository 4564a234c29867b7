/** Looking for packets in the brigade and taking them out of it: _libssh2_packet_ask and _libssh2_packet_askv. */
module Asking {
  import opened Bytes
  import opened Messages

  // A packet type, and bytes it must have at an offset.
  datatype Query = Query(kind: byte, ofs: nat, wanted: seq<byte>) {
    predicate Matches(p: seq<byte>) {
      p != [] && p[0] == kind && ofs + |wanted| <= |p| && p[ofs..ofs + |wanted|] == wanted
    }
  }

  predicate NoneMatches(ps: seq<seq<byte>>, q: Query) { forall i | 0 <= i < |ps| :: !q.Matches(ps[i]) }

  /** The packet `x` has been taken out of the brigade at `k`. */
  predicate TakenAt(before: seq<seq<byte>>, after: seq<seq<byte>>, x: seq<byte>, k: nat) {
    k < |before| && before[k] == x && after == before[..k] + before[k + 1..]
  }

  /** The oldest packet that matches has been taken out, or nothing when none does. */
  predicate FirstTaken(before: seq<seq<byte>>, after: seq<seq<byte>>, q: Query, found: bool, x: seq<byte>, k: nat) {
    if found then TakenAt(before, after, x, k) && q.Matches(x) && NoneMatches(before[..k], q)
    else after == before && NoneMatches(before, q)
  }

  // ----- what belongs to a channel

  function AboutData(kind: byte, id: u32): (q: Query) { Query(kind, 1, Htonu32(id)) }

  lemma FieldIs(field: seq<byte>, rest: seq<byte>, id: u32)
    requires |field| == 4
    ensures Ntohu32(field + rest) == id <==> field == Htonu32(id)
  {
    HtonuNtohu(field);
    NtohuHtonu(id, rest);
    var v := Ntohu32(field);
    NtohuHtonu(v, rest);
    assert Ntohu32(field + rest) == v;
  }

  /** The channel number of a packet is what its bytes say. */
  lemma MatchesChannel(kind: byte, id: u32, p: seq<byte>)
    ensures AboutData(kind, id).Matches(p) <==> |p| >= 5 && p[0] == kind && Ntohu32(p[1..]) == id
  {
    if |p| >= 5 {
      assert p[1..] == p[1..5] + p[5..];
      FieldIs(p[1..5], p[5..], id);
    }
  }

  /** The data packets of one channel. */
  predicate IsData(p: seq<byte>, id: u32) {
    AboutData(CHANNEL_DATA, id).Matches(p) || AboutData(CHANNEL_EXTENDED_DATA, id).Matches(p)
  }

  function NotData(ps: seq<seq<byte>>, id: u32): (rest: seq<seq<byte>>) {
    if ps == [] then [] else (if IsData(ps[0], id) then [] else [ps[0]]) + NotData(ps[1..], id)
  }

  lemma NotDataFirst(p: seq<byte>, rest: seq<seq<byte>>, id: u32)
    ensures NotData([p] + rest, id) == (if IsData(p, id) then [] else [p]) + NotData(rest, id)
  {
    assert ([p] + rest)[1..] == rest;
  }

  lemma {:induction false} NotDataAppend(ps: seq<seq<byte>>, more: seq<seq<byte>>, id: u32)
    ensures NotData(ps + more, id) == NotData(ps, id) + NotData(more, id)
  {
    if ps == [] {
      assert ps + more == more;
    } else {
      var first := if IsData(ps[0], id) then [] else [ps[0]];
      NotDataAppend(ps[1..], more, id);
      assert ps + more == [ps[0]] + (ps[1..] + more);
      NotDataFirst(ps[0], ps[1..] + more, id);
      assert first + (NotData(ps[1..], id) + NotData(more, id)) == (first + NotData(ps[1..], id)) + NotData(more, id);
    }
  }

  /** Taking out a data packet leaves the others. */
  lemma OthersStay(before: seq<seq<byte>>, after: seq<seq<byte>>, x: seq<byte>, k: nat, id: u32)
    requires TakenAt(before, after, x, k) && IsData(x, id)
    ensures NotData(after, id) == NotData(before, id)
  {
    var front, back := before[..k], before[k + 1..];
    assert before == front + ([x] + back);
    NotDataAppend(front, [x] + back, id);
    NotDataAppend(front, back, id);
    NotDataFirst(x, back, id);
  }

  lemma {:induction false} NothingLeft(ps: seq<seq<byte>>, id: u32)
    requires NoneMatches(ps, AboutData(CHANNEL_DATA, id)) && NoneMatches(ps, AboutData(CHANNEL_EXTENDED_DATA, id))
    ensures NotData(ps, id) == ps
  {
    if ps != [] {
      assert !IsData(ps[0], id);
      assert forall i | 0 <= i < |ps| - 1 :: ps[1..][i] == ps[i + 1];
      NothingLeft(ps[1..], id);
    }
  }

  class Session {
    var packets: seq<seq<byte>>

    constructor (packets: seq<seq<byte>>)
      ensures this.packets == packets
    {
      this.packets := packets;
    }

    /** _libssh2_packet_ask. */
    method Ask(q: Query) returns (found: bool, x: seq<byte>, ghost k: nat)
      modifies this
      ensures FirstTaken(old(packets), packets, q, found, x, k)
    {
      var i := 0;
      while i < |packets|
        invariant i <= |packets| && NoneMatches(packets[..i], q)
      {
        if q.Matches(packets[i]) {
          x, k := packets[i], i;
          packets := packets[..i] + packets[i + 1..];
          return true, x, k;
        }
        assert packets[..i + 1] == packets[..i] + [packets[i]];
        i := i + 1;
      }
      assert packets[..i] == packets;
      return false, [], 0;
    }

    /** _libssh2_packet_askv: the first of the types that any packet has; of those packets, the oldest. */
    method AskV(kinds: seq<byte>, ofs: nat, wanted: seq<byte>) returns (found: bool, x: seq<byte>, i: nat, ghost k: nat)
      modifies this
      ensures i <= |kinds| && forall j | 0 <= j < i :: NoneMatches(old(packets), Query(kinds[j], ofs, wanted))
      ensures found <==> i < |kinds|
      ensures if found then FirstTaken(old(packets), packets, Query(kinds[i], ofs, wanted), true, x, k)
              else packets == old(packets)
    {
      found, x, i, k := false, [], 0, 0;
      while i < |kinds|
        invariant i <= |kinds| && packets == old(packets) && !found
        invariant forall j | 0 <= j < i :: NoneMatches(packets, Query(kinds[j], ofs, wanted))
      {
        found, x, k := Ask(Query(kinds[i], ofs, wanted));
        if found {
          return;
        }
        i := i + 1;
      }
    }

    /** One test of channel_free's loop: plain data first, extended data only if there is none. */
    method DiscardOne(id: u32) returns (found: bool)
      modifies this
      ensures NotData(packets, id) == NotData(old(packets), id)
      ensures if found then |packets| < |old(packets)|
              else packets == old(packets) && NoneMatches(packets, AboutData(CHANNEL_DATA, id))
                   && NoneMatches(packets, AboutData(CHANNEL_EXTENDED_DATA, id))
    {
      ghost var before := packets;
      var x: seq<byte>;
      ghost var k: nat;
      found, x, k := Ask(AboutData(CHANNEL_DATA, id));
      if !found {
        found, x, k := Ask(AboutData(CHANNEL_EXTENDED_DATA, id));
      }
      if found {
        OthersStay(before, packets, x, k, id);
      }
    }

    /** The loop itself: the channel's data is gone, and all else is still there, in order. */
    method DiscardData(id: u32)
      modifies this
      ensures packets == NotData(old(packets), id)
    {
      var found := true;
      while found
        invariant NotData(packets, id) == NotData(old(packets), id)
        invariant !found ==> NoneMatches(packets, AboutData(CHANNEL_DATA, id))
        invariant !found ==> NoneMatches(packets, AboutData(CHANNEL_EXTENDED_DATA, id))
        decreases found, |packets|
      {
        found := DiscardOne(id);
      }
      NothingLeft(packets, id);
    }
  }
}
