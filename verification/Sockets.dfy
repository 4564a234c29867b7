/** One direction of a connection. `send` and `recv` take less than asked, nothing, or fail, whenever the plan says. */
module Sockets {
  import opened Bytes

  const EAGAIN := -1
  const OTHER_ERROR := -2

  /** What the next call says, by a plan of answers: a call the plan does not reach would block. */
  function Said(answers: seq<int>): (n: int)
    ensures answers == [] ==> n == -1
    ensures answers != [] && answers[0] >= -1 ==> n == answers[0]
    ensures answers != [] && answers[0] < -1 ==> n == -2
  {
    if answers == [] then EAGAIN else if answers[0] < EAGAIN then OTHER_ERROR else answers[0]
  }

  function Later<T>(answers: seq<T>): seq<T> {
    if answers == [] then [] else answers[1..]
  }

  /** Since `before` was heard, nothing but counts of bytes received has been. */
  ghost predicate OnlyBytes(before: seq<int>, after: seq<int>) {
    before <= after && forall i | |before| <= i < |after| :: after[i] > 0
  }

  /** Since `before` was heard, `recv` has been called until it failed, would block or found the end, or less often. */
  ghost predicate Polled(before: seq<int>, after: seq<int>) {
    before <= after && forall i | |before| <= i < |after| - 1 :: after[i] > 0
  }

  /** The last that was heard since `before` is no count of bytes received. */
  ghost predicate Stopped(before: seq<int>, after: seq<int>) {
    |before| < |after| && after[|after| - 1] <= 0
  }

  /** Sending the front of `data` and keeping the rest loses nothing. */
  lemma SentInPart(before: seq<byte>, data: seq<byte>, n: nat)
    requires n <= |data|
    ensures (before + data[..n]) + data[n..] == before + data
  {
  }

  class Pipe {
    var wire: seq<byte>         // sent and not yet received
    var sends: seq<int>         // what `send` is going to say: bytes taken, 0, or an error
    var recvs: seq<int>         // what `recv` is going to say: bytes to hand over at most, 0 at the end, or an error
    ghost var sent: seq<byte>   // everything ever sent
    ghost var taken: seq<byte>  // everything ever received
    ghost var heard: seq<int>   // everything `recv` ever said

    ghost predicate Valid()
      reads this
    {
      sent == taken + wire
    }

    /** What a `send` of `n` bytes says. */
    function Takes(n: nat): (m: int)
      reads this
      ensures -2 <= m <= n
    {
      if Said(sends) <= n then Said(sends) else n
    }

    /** What a `recv` of at most `max` bytes says: it blocks where there is nothing to hand over. */
    function Gives(max: nat): (m: int)
      reads this
      ensures -2 <= m <= max && m <= |wire|
    {
      var most := if max <= |wire| then max else |wire|;
      if Said(recvs) <= 0 then Said(recvs)
      else if most == 0 then EAGAIN
      else if Said(recvs) <= most then Said(recvs)
      else most
    }

    constructor (sends: seq<int>, recvs: seq<int>)
      ensures Valid() && sent == [] && taken == [] && heard == []
      ensures this.sends == sends && this.recvs == recvs
    {
      this.sends, this.recvs := sends, recvs;
      wire, sent, taken, heard := [], [], [], [];
    }

    method Send(data: seq<byte>) returns (n: int)
      requires Valid()
      modifies this`wire, this`sent, this`sends
      ensures Valid()
      ensures n == old(Takes(|data|)) && sends == Later(old(sends))
      ensures sent == old(sent) + (if n > 0 then data[..n] else [])
    {
      n := Takes(|data|);
      sends := Later(sends);
      if n > 0 {
        wire, sent := wire + data[..n], sent + data[..n];
      }
    }

    method Recv(max: nat) returns (n: int, data: seq<byte>)
      requires Valid()
      modifies this`wire, this`taken, this`recvs, this`heard
      ensures Valid()
      ensures n == old(Gives(max)) && recvs == Later(old(recvs)) && heard == old(heard) + [n]
      ensures data == if n > 0 then old(wire)[..n] else []
      ensures wire == if n > 0 then old(wire)[n..] else old(wire)
      ensures taken == old(taken) + data
    {
      n := Gives(max);
      recvs, heard, data := Later(recvs), heard + [n], [];
      if n > 0 {
        data, taken, wire := wire[..n], taken + wire[..n], wire[n..];
      }
    }
  }
}
