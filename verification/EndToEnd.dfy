/** The two halves of the transport, joined: what one side was asked to send is what the other hands to packet_add. */
module EndToEnd {
  import opened Bytes
  import opened Ciphers
  import opened Framing
  import opened Naming
  import opened Sockets
  import opened Receiving
  import Ctr
  import Messages
  import Reader
  import Writer

  /**
   * A reader at the far end of a transmitter: they share the wire, the suite and, at the start, the cipher context; and
   * what the transmitter has framed, the reader has handed over or is still to receive.
   */
  ghost predicate Linked(tx: Writer.Transmitter, rx: Reader.Receiver)
    reads tx, tx.pipe, tx.outbuf, rx, rx.buf, rx.payload, rx.pipe
  {
    && tx.Valid() && rx.Valid() && rx.pipe == tx.pipe && rx.suite == tx.suite
    && tx.outbuf != rx.buf && tx.outbuf != rx.payload
    && AllWellFormed(tx.suite, tx.framed)
    && rx.done + rx.rest == tx.framed
    && rx.end == Reader.Horizon(tx.Pending(), [], tx.context)
  }

  /** Connects a reader to a transmitter none of whose bytes have been received yet. */
  method Connect(tx: Writer.Transmitter, iv: Context, tolerant: bool, stalls: seq<bool>) returns (rx: Reader.Receiver)
    requires tx.Valid() && iv == tx.origin && tx.pipe.wire == tx.pipe.sent && AllWellFormed(tx.suite, tx.framed)
    ensures Linked(tx, rx) && rx.packets == [] && fresh(rx) && fresh(rx.buf) && fresh(rx.payload)
  {
    assert tx.suite.HeadLen() > 0;
    ghost var all := Stream(tx.suite, tx.origin, tx.framed);
    assert all + [] == all;
    rx := new Reader.Receiver(tx.suite, tx.pipe, tolerant, iv, tx.framed, [], tx.Pending(), stalls);
    assert [] + tx.framed == tx.framed;
  }

  /** What a write adds to the stream it adds to the bytes still to be received. */
  lemma WireGrows(taken: seq<byte>, wire: seq<byte>, pending: seq<byte>, wire': seq<byte>, pending': seq<byte>,
                  x: seq<byte>)
    requires (taken + wire') + pending' == ((taken + wire) + pending) + x
    ensures wire' + pending' == (wire + pending) + x
  {
    var u, v := wire' + pending', (wire + pending) + x;
    assert (taken + wire') + pending' == taken + u;
    assert ((taken + wire) + pending) + x == taken + v;
    assert u == (taken + u)[|taken|..] && v == (taken + v)[|taken|..];
  }

  /** A reader's place once the transmitter has framed `more`, one packet or none, behind the packets to come. */
  ghost function Followed(pl: Place, more: seq<Packet>): Place
    requires pl.suite.HeadLen() > 0
  {
    pl.(rest := pl.rest + more, last := ContextAfter(pl.suite, pl.last, more),
        ahead := pl.ahead + Stream(pl.suite, pl.last, more))
  }

  lemma FollowedOnTrack(pl: Place, more: seq<Packet>)
    requires Holds(OnTrack, pl) && pl.tail == [] && Sound(pl.suite) && |more| <= 1 && AllWellFormed(pl.suite, more)
    ensures Holds(OnTrack, Followed(pl, more))
  {
    if more == [] {
      assert pl.rest + [] == pl.rest && pl.ahead + [] == pl.ahead;
    } else {
      var m := more[0];
      var (s, x) := Sealed(pl.suite, pl.last, m);
      Lengthened(pl, m);
      assert more == [m] && more[1..] == [] && x + [] == x;
      assert ContextAfter(pl.suite, s, []) == s && Stream(pl.suite, s, []) == [];
      assert ContextAfter(pl.suite, pl.last, more) == s && Stream(pl.suite, pl.last, more) == x;
      assert Followed(pl, more) == pl.(rest := pl.rest + [m], last := s, ahead := pl.ahead + x);
    }
  }

  /** One write, as the other end will notice it: `more` has been framed behind what is on the wire or pending. */
  method Send(tx: Writer.Transmitter, data: array<byte>, dataLen: nat, noise: seq<byte>)
    returns (rc: Writer.WriteResult, ghost more: seq<Packet>)
    requires tx.Valid() && dataLen <= data.Length && |noise| >= 36
    requires tx.outbuf == null ==> Writer.Sendable(tx.suite, dataLen)
    modifies tx, tx.pipe`wire, tx.pipe`sent, tx.pipe`sends
    ensures tx.outbuf == null || tx.outbuf == old(tx.outbuf) || fresh(tx.outbuf)
    ensures tx.framed == old(tx.framed) + more && |more| <= 1 && AllWellFormed(tx.suite, more)
    ensures Payloads(more) == if old(tx.outbuf) == null then [old(data[..dataLen])] else []
    ensures rc == Writer.Fail ==> Writer.FailedToSend(old(tx.pipe.sends))
    ensures rc != Writer.Fail ==>
              && tx.Valid() && tx.context == ContextAfter(tx.suite, old(tx.context), more)
              && tx.pipe.wire + tx.Pending() ==
                  old(tx.pipe.wire + tx.Pending()) + Stream(tx.suite, old(tx.context), more)
  {
    ghost var payload, framed, wire, pending := data[..dataLen], tx.framed, tx.pipe.wire, tx.Pending();
    Writer.ComposedIsWellFormed(tx.suite, tx.seqno, payload, noise);
    more := if tx.outbuf == null then [Writer.Compose(tx.suite, tx.seqno, payload, noise)] else [];
    rc := tx.Write(data, dataLen, noise);
    if rc != Writer.Fail {
      StreamAppend(tx.suite, tx.origin, framed, more);
      WireGrows(tx.pipe.taken, wire, pending, tx.pipe.wire, tx.Pending(), Stream(tx.suite, old(tx.context), more));
    }
  }

  /** One write, with a reader at the other end. */
  method WriteOne(tx: Writer.Transmitter, rx: Reader.Receiver, data: array<byte>, dataLen: nat, noise: seq<byte>)
    returns (rc: Writer.WriteResult)
    requires Linked(tx, rx) && dataLen <= data.Length && |noise| >= 36
    requires tx.outbuf == null ==> Writer.Sendable(tx.suite, dataLen)
    modifies tx, tx.pipe`wire, tx.pipe`sent, tx.pipe`sends, rx`rest, rx`end
    ensures if rc == Writer.Fail then Writer.FailedToSend(old(tx.pipe.sends)) else Linked(tx, rx)
    ensures Payloads(tx.framed) ==
            old(Payloads(tx.framed)) + if old(tx.outbuf) == null then [old(data[..dataLen])] else []
  {
    ghost var pl, more := rx.Here(), [];
    rc, more := Send(tx, data, dataLen, noise);
    PayloadsAppend(old(tx.framed), more);
    Regroup(rx.done, rx.rest, more);
    WellFormedAppend(tx.suite, old(tx.framed), more);
    if rc != Writer.Fail {
      Follow(tx, rx, pl, more, rx.buf[rx.readidx..rx.writeidx], old(rx.Coming()));
    }
  }

  /** The reader's horizon moves with the transmitter; its place, but for that, was `pl`. */
  ghost method Follow(tx: Writer.Transmitter, rx: Reader.Receiver, pl: Place, more: seq<Packet>,
                      buffered: seq<byte>, coming: seq<byte>)
    requires rx.Ready() && rx.pipe == tx.pipe && rx.suite == tx.suite
    requires buffered == rx.buf[rx.readidx..rx.writeidx]
    requires pl == rx.Here().(ahead := buffered + coming) && Holds(OnTrack, pl) && pl.tail == []
    requires tx.Valid() && tx.context == ContextAfter(tx.suite, rx.end.last, more) && |more| <= 1
    requires AllWellFormed(tx.suite, more)
    requires tx.pipe.wire + tx.Pending() == coming + Stream(tx.suite, rx.end.last, more)
    modifies rx`rest, rx`end
    ensures rx.Valid() && rx.rest == old(rx.rest) + more && rx.end == Reader.Horizon(tx.Pending(), [], tx.context)
  {
    FollowedOnTrack(pl, more);
    Regroup(buffered, coming, Stream(tx.suite, pl.last, more));
    rx.rest := rx.rest + more;
    rx.end := Reader.Horizon(tx.Pending(), [], tx.context);
    assert rx.Here() == Followed(pl, more);
  }

  lemma WellFormedAppend(suite: Suite, ms: seq<Packet>, more: seq<Packet>)
    requires suite.HeadLen() > 0 && AllWellFormed(suite, ms) && AllWellFormed(suite, more)
    ensures AllWellFormed(suite, ms + more)
  {
  }

  lemma PayloadsAppend(ms: seq<Packet>, more: seq<Packet>)
    ensures Payloads(ms + more) == Payloads(ms) + Payloads(more)
  {
  }

  /** A read that asked the socket last heard that it was at its end or in error, but for EAGAIN. */
  ghost predicate FailedToReceive(heard0: seq<int>, heard: seq<int>) {
    |heard0| < |heard| && (heard[|heard| - 1] == 0 || heard[|heard| - 1] < -1)
  }

  /** Where every packet to come is authentic and nothing follows, a read ends well unless `recv` does not. */
  lemma NothingRefused(rx: Reader.Receiver, rc: Reader.ReadResult, heard: seq<int>, waited: bool, done: seq<Packet>,
                       rest: seq<Packet>, stalls: seq<bool>)
    requires rx.Reason(rc, heard, waited, done, rest, stalls) && rx.end.tail == []
    requires rest != [] ==> Authentic(rx.suite, |done|, rest[0])
    ensures rc != Reader.InvalidMac && rc != Reader.TooBig
    ensures rc == Reader.Fail <==> FailedToReceive(heard, rx.pipe.heard)
  {
  }

  /** A read of a stream of authentic packets that nothing follows. */
  method Receive(rx: Reader.Receiver, ghost sent: seq<Packet>) returns (rc: Reader.ReadResult)
    requires rx.Valid() && rx.end.tail == [] && rx.done + rx.rest == sent
    requires forall i | 0 <= i < |sent| :: Authentic(rx.suite, i, sent[i])
    modifies rx, rx.buf, rx.payload, rx.pipe`wire, rx.pipe`taken, rx.pipe`recvs, rx.pipe`heard
    ensures rx.payload == old(rx.payload) || fresh(rx.payload)
    ensures rx.end == old(rx.end)
    ensures rc != Reader.InvalidMac && rc != Reader.TooBig && rx.packets <= Payloads(sent)
    ensures rc != Reader.Fail ==> rx.Valid() && rx.done + rx.rest == sent
    ensures rc == Reader.Fail <==> FailedToReceive(old(rx.pipe.heard), rx.pipe.heard)
    ensures rc == Reader.Again && !rx.jump1 && rx.Coming() == [] ==> rx.packets == Payloads(sent)
  {
    ghost var done, rest := rx.done, rx.rest;
    PayloadsOfPrefix(done, rest);
    if rest != [] {
      PayloadsOfPrefix(done + [rest[0]], rest[1..]);
      assert (done + [rest[0]]) + rest[1..] == sent && sent[|done|] == rest[0];
    }
    ghost var heard, waited, stalls, asks := rx.pipe.heard, rx.jump1, rx.stalls, rx.jump1 || rx.connected;
    rc := rx.Read();
    if asks {
      NothingRefused(rx, rc, heard, waited, done, rest, stalls);
    }
    if rc == Reader.Again && !rx.jump1 && rx.Coming() == [] {
      if rest != [] {
        AllAhead(rx.Here());
      }
      assert done + rest == done;
    }
  }

  /**
   * One read: no packet is refused, and no MAC is found invalid; it fails exactly when the socket does; and when the
   * reader asks for more though nothing is unsent or on the wire, it has handed over everything.
   */
  method ReadOne(tx: Writer.Transmitter, rx: Reader.Receiver) returns (rc: Reader.ReadResult)
    requires Linked(tx, rx)
    modifies rx, rx.buf, rx.payload, rx.pipe`wire, rx.pipe`taken, rx.pipe`recvs, rx.pipe`heard
    ensures rx.payload == old(rx.payload) || fresh(rx.payload)
    ensures rc != Reader.InvalidMac && rc != Reader.TooBig && rx.packets <= Payloads(tx.framed)
    ensures if FailedToReceive(old(rx.pipe.heard), rx.pipe.heard) then rc == Reader.Fail
            else rc != Reader.Fail && Linked(tx, rx)
    ensures rc == Reader.Again && !rx.jump1 && tx.outbuf == null && rx.pipe.wire == [] ==>
              rx.packets == Payloads(tx.framed)
  {
    rc := Receive(rx, tx.framed);
  }

  /**
   * What a caller passes to a write: a buffer with something that can be sent, or the arguments of the write pending.
   */
  method Arguments(tx: Writer.Transmitter) returns (data: array<byte>, dataLen: nat, noise: seq<byte>)
    requires tx.Valid()
    ensures dataLen <= data.Length && |noise| >= 36 && (tx.outbuf == null ==> Writer.Sendable(tx.suite, dataLen))
  {
    var size: int := *;
    data, dataLen, noise := new byte[if size < 1 then 1 else size], *, *;
    if |noise| < 36 {
      noise := seq(36, _ => 0);
    }
    var repeats: bool := *;
    if tx.outbuf != null && tx.odata != null && tx.olen <= tx.odata.Length && repeats {
      data, dataLen := tx.odata, tx.olen;
    } else if dataLen > data.Length || !Writer.Sendable(tx.suite, dataLen) {
      dataLen := 1;
    }
  }

  /** A write or a read; `x` is what it asks the transmitter to frame. */
  method Step(tx: Writer.Transmitter, rx: Reader.Receiver) returns (failed: bool, ghost x: seq<seq<byte>>)
    requires Linked(tx, rx)
    modifies tx, tx.pipe, rx, rx.buf, rx.payload
    ensures rx.payload == old(rx.payload) || fresh(rx.payload)
    ensures !failed ==> Linked(tx, rx)
    ensures Payloads(tx.framed) == old(Payloads(tx.framed)) + x && rx.packets <= Payloads(tx.framed)
  {
    var writes: bool := *;
    if writes {
      var data, dataLen, noise := Arguments(tx);
      x := if tx.outbuf == null then [data[..dataLen]] else [];
      PayloadsOfPrefix(rx.done, rx.rest);
      var rc := WriteOne(tx, rx, data, dataLen, noise);
      failed := rc == Writer.Fail;
    } else {
      var rc := ReadOne(tx, rx);
      failed, x := rc == Reader.Fail, [];
    }
  }

  /**
   * Any interleaving of writes and reads, with whatever the socket makes of them, short sends and receives and failures
   * included, and callers that repeat a pending write or do not: what has been handed to packet_add is what the writers
   * asked for, `asked`, from the start, each once, in order.
   */
  method Exchange(tx: Writer.Transmitter, rx: Reader.Receiver, steps: nat) returns (ghost asked: seq<seq<byte>>)
    requires Linked(tx, rx)
    modifies tx, tx.pipe, rx, rx.buf, rx.payload
    ensures Payloads(tx.framed) == old(Payloads(tx.framed)) + asked
    ensures rx.packets <= old(Payloads(tx.framed)) + asked
  {
    asked := [];
    PayloadsOfPrefix(rx.done, rx.rest);
    for i := 0 to steps
      invariant Linked(tx, rx) && rx.packets <= Payloads(tx.framed)
      invariant rx.payload == old(rx.payload) || fresh(rx.payload)
      invariant Payloads(tx.framed) == old(Payloads(tx.framed)) + asked
    {
      var failed: bool;
      ghost var x: seq<seq<byte>>;
      failed, x := Step(tx, rx);
      asked := asked + x;
      if failed {
        return;
      }
    }
  }

  lemma PayloadsOfPrefix(done: seq<Packet>, rest: seq<Packet>)
    ensures Payloads(done) <= Payloads(done + rest)
  {
    assert Payloads(done + rest)[..|done|] == Payloads(done);
  }

  /**
   * With AES in counter mode and any MAC of a length SSH uses, the results above hold: that cipher is one they speak
   * of, whatever the block function.
   */
  lemma CounterModeIsSound(aes: seq<byte> -> seq<byte>, macLen: nat, mac: (nat, seq<byte>) -> seq<byte>)
    requires 12 <= macLen <= 20 && forall n: nat, p: seq<byte> :: |mac(n, p)| == macLen
    requires forall s: seq<byte> :: |aes(s)| == Ctr.AES_BLOCK_SIZE
    ensures Sound(Secure(Ctr.CtrCipher(aes), macLen, mac))
  {
    Ctr.CtrIsLockstep(aes);
  }

  // ----- channel messages over the transport

  function EncodeAll(ms: seq<Messages.Msg>): (ps: seq<seq<byte>>) {
    if ms == [] then [] else [Messages.Encode(ms[0])] + EncodeAll(ms[1..])
  }

  function DecodeAll(ps: seq<seq<byte>>): (ms: seq<Messages.Msg>) {
    if ps == [] then [] else [Messages.Decode(ps[0])] + DecodeAll(ps[1..])
  }

  /** Payloads that are the first of those sent are the first of the messages they were built from, in order. */
  lemma {:induction false} MessagesArrive(ps: seq<seq<byte>>, ms: seq<Messages.Msg>)
    requires ps <= EncodeAll(ms) && forall i | 0 <= i < |ms| :: !ms[i].Other?
    ensures DecodeAll(ps) <= ms
  {
    if ps != [] {
      assert ps[0] == EncodeAll(ms)[0] && EncodeAll(ms)[1..] == EncodeAll(ms[1..]);
      Messages.DecodeEncode(ms[0]);
      MessagesArrive(ps[1..], ms[1..]);
    }
  }
}
