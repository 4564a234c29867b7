/** _libssh2_transport_write and send_existing: frame a packet once, then push it out however many calls that takes. */
module Writer {
  import opened Bytes
  import opened Ciphers
  import opened Framing
  import opened Sockets

  datatype WriteResult = None | Again | BadUse | Fail

  /** A packet's clear bytes, as the writer lays them out. */
  function Layout(payload: seq<byte>, padding: seq<byte>): (p: seq<byte>)
    requires |padding| < 256
    ensures |p| == 5 + |payload| + |padding|
  {
    Htonu32(1 + |payload| + |padding|) + [|padding|] + payload + padding
  }

  /** The packet a call frames: the writer's padding rule, and the MAC of the clear packet. */
  function Compose(suite: Suite, seqno: nat, payload: seq<byte>, noise: seq<byte>): (m: Packet)
    requires 4 <= suite.PadUnit() <= 32 && |noise| >= 36
  {
    PaddingFills(suite.PadUnit(), |payload|);
    var clear := Layout(payload, noise[..PadLen(suite.PadUnit(), |payload|)]);
    Packet(clear, if suite.Plain? then [] else suite.mac(seqno, clear))
  }

  /** Not empty, and not oversized: the writer does not check this. */
  predicate Sendable(suite: Suite, n: nat)
    requires 4 <= suite.PadUnit() <= 32
  {
    n >= 1 && n + PadLen(suite.PadUnit(), n) + suite.TagLen() <= MAXPAYLOAD
  }

  /** What becomes of a write, by what `send` said of the `length` bytes it was offered. */
  function Answer(n: int, length: nat, resumed: bool): (rc: WriteResult)
    ensures rc == None <==> n == length
    ensures rc == Again <==> n != length && (n > 0 || n == -1 || (n == 0 && resumed))
    ensures rc != BadUse
  {
    if n == length then None else if n > 0 || n == EAGAIN || (n == 0 && resumed) then Again else Fail
  }

  /** A write fails only if `send` said 0, or an error other than EAGAIN. */
  predicate FailedToSend(sends: seq<int>) {
    sends != [] && (sends[0] == 0 || sends[0] < -1)
  }

  /** The front of `data` that a `send` said it took. */
  function Taken(data: seq<byte>, n: int): seq<byte>
    requires n <= |data|
  {
    if n > 0 then data[..n] else []
  }

  /** What is composed carries the payload, and passes the reader's checks exactly when its payload can be sent. */
  lemma ComposedIsWellFormed(suite: Suite, seqno: nat, payload: seq<byte>, noise: seq<byte>)
    requires Sound(suite) && |noise| >= 36
    ensures var m := Compose(suite, seqno, payload, noise);
            && m.Shaped() && m.Payload() == payload
            && Authentic(suite, seqno, m)
            && (suite.Plain? ==> m.tag == []) && (suite.Secure? ==> m.tag == suite.mac(seqno, m.clear))
            && (WellFormed(suite, m) <==>
                |payload| >= 1 && |m.clear| - 5 + (if suite.Plain? then 0 else suite.macLen) <= 40000)
            && (WellFormed(suite, m) <==> Sendable(suite, |payload|))
  {
    PaddingFills(suite.PadUnit(), |payload|);
    LayoutHeader(payload, noise[..PadLen(suite.PadUnit(), |payload|)]);
  }

  /**
   * Section 6 of RFC 4253, byte by byte: the length of what follows it, the padding's length, the payload, and at least
   * four bytes of padding, which bring the whole to a multiple of eight bytes, or of the cipher's block size.
   */
  lemma ComposedLayout(suite: Suite, seqno: nat, payload: seq<byte>, noise: seq<byte>)
    requires Sound(suite) && |noise| >= 36
    ensures var p := Compose(suite, seqno, payload, noise).clear;
            var unit := if suite.Plain? then 8 else suite.cipher.blocksize;
            && |p| == 5 + |payload| + p[4] && p[5..5 + |payload|] == payload && p[5 + |payload|..] == noise[..p[4]]
            && (|p| < 0x1_0000_0000 ==> Ntohu32(p) == |p| - 4)
            && p[4] >= 4 && |p| % unit == 0
            && (unit % 8 == 0 ==> |p| % 8 == 0 && |p| >= 16)
  {
    var unit := suite.PadUnit();
    var pad := noise[..PadLen(unit, |payload|)];
    PaddingFills(unit, |payload|);
    WholeIsNoRemainder(5 + |payload| + |pad|, unit);
    LayoutHeader(payload, pad);
    LayoutBytes(payload, pad);
    if unit % 8 == 0 {
      MultipleOfEight(5 + |payload| + |pad|, unit);
    }
  }

  /** No shorter padding of at least four bytes does. */
  lemma ComposedPadsLeast(suite: Suite, seqno: nat, payload: seq<byte>, noise: seq<byte>, k: nat)
    requires Sound(suite) && |noise| >= 36 && k >= 4
    requires (5 + |payload| + k) % (if suite.Plain? then 8 else suite.cipher.blocksize) == 0
    ensures Compose(suite, seqno, payload, noise).clear[4] <= k
  {
    var unit := suite.PadUnit();
    PaddingRule(unit, |payload|);
    WholeIsNoRemainder(5 + |payload| + k, unit);
    assert Fills(unit, |payload|, k);
    LayoutHeader(payload, noise[..PadLen(unit, |payload|)]);
  }

  lemma LayoutBytes(payload: seq<byte>, padding: seq<byte>)
    requires |padding| < 256
    ensures Layout(payload, padding)[5 + |payload|..] == padding
  {
  }

  lemma {:induction false} MultipleOfEight(n: nat, unit: nat)
    requires unit > 0 && Whole(n, unit) && unit % 8 == 0
    ensures n % 8 == 0
    decreases n
  {
    if n > 0 {
      MultipleOfEight(n - unit, unit);
    }
  }

  lemma LayoutHeader(payload: seq<byte>, padding: seq<byte>)
    requires |padding| < 256
    ensures |Layout(payload, padding)| < 0x1_0000_0000 ==>
              Ntohu32(Layout(payload, padding)) == |Layout(payload, padding)| - 4
    ensures Layout(payload, padding)[4] == |padding|
    ensures Layout(payload, padding)[5..5 + |payload|] == payload
  {
    var n := 1 + |payload| + |padding|;
    NtohuHtonu(n, [|padding|] + payload + padding);
    assert Layout(payload, padding) == Htonu32(n) + ([|padding|] + payload + padding);
  }

  /** Every packet framed so far has been encrypted, authenticated and numbered once. */
  ghost predicate Counted(suite: Suite, origin: Context, framed: seq<Packet>, context: Context, seqno: nat) {
    && Sound(suite)
    && context == ContextAfter(suite, origin, framed)
    && seqno == |framed|
    && forall i | 0 <= i < |framed| :: Authentic(suite, i, framed[i])
  }

  lemma CountOne(suite: Suite, origin: Context, framed: seq<Packet>, context: Context, payload: seq<byte>,
                 noise: seq<byte>)
    requires Counted(suite, origin, framed, context, |framed|) && |noise| >= 36
    ensures var m := Compose(suite, |framed|, payload, noise);
            && Counted(suite, origin, framed + [m], Sealed(suite, context, m).0, |framed| + 1)
            && Stream(suite, origin, framed + [m]) == Stream(suite, origin, framed) + Sealed(suite, context, m).1
  {
    ComposedIsWellFormed(suite, |framed|, payload, noise);
    StreamSnoc(suite, origin, framed, Compose(suite, |framed|, payload, noise));
  }

  class Transmitter {
    const suite: Suite
    const pipe: Pipe
    var outbuf: array?<byte>   // the packet being sent, if any
    var ototalNum: nat
    var odata: array?<byte>    // the caller's buffer and length it was framed from
    var olen: nat
    var osent: nat
    var context: Context
    var seqno: nat
    ghost var origin: Context
    ghost var framed: seq<Packet>  // every packet framed so far

    ghost function Pending(): seq<byte>
      reads this, outbuf
      requires outbuf != null ==> osent <= outbuf.Length
    {
      if outbuf == null then [] else outbuf[osent..]
    }

    ghost predicate Valid()
      reads this, pipe, outbuf
    {
      && pipe.Valid()
      && (outbuf != null ==> osent <= outbuf.Length && ototalNum == outbuf.Length)
      && Counted(suite, origin, framed, context, seqno)
      && pipe.sent + Pending() == Stream(suite, origin, framed)
    }

    constructor (suite: Suite, pipe: Pipe, iv: Context)
      requires Sound(suite) && pipe.Valid() && pipe.sent == []
      ensures Valid() && framed == [] && this.suite == suite && this.pipe == pipe && origin == iv && outbuf == null
    {
      this.suite, this.pipe := suite, pipe;
      outbuf, ototalNum, odata, olen, osent := null, 0, null, 0, 0;
      context, origin, seqno, framed := iv, iv, 0, [];
    }

    /** Sends as much of the pending packet as the socket takes; what it does not take stays pending. */
    method Push() returns (rc: WriteResult)
      requires outbuf != null && osent <= outbuf.Length == ototalNum && pipe.Valid()
      modifies this`outbuf, this`ototalNum, this`osent, pipe`wire, pipe`sent, pipe`sends
      ensures pipe.Valid() && pipe.sends == Later(old(pipe.sends))
      ensures var n := old(pipe.Takes(|Pending()|));
              && rc == Answer(n, old(|Pending()|), true)
              && pipe.sent == old(pipe.sent) + Taken(old(Pending()), n)
      ensures rc == None <==> outbuf == null
      ensures outbuf != null ==> outbuf == old(outbuf) && osent <= outbuf.Length == ototalNum
      ensures pipe.sent + Pending() == old(pipe.sent + Pending())
    {
      var length := ototalNum - osent;
      ghost var rest := outbuf[osent..];
      assert outbuf[osent..osent + length] == rest;
      var n := pipe.Send(outbuf[osent..osent + length]);
      if n == length {
        assert rest[..n] == rest;
        outbuf, ototalNum := null, 0;
      } else if n < 0 {
        return if n != EAGAIN then Fail else Again;
      }
      osent := osent + n;
      assert n < length ==> outbuf[osent..] == rest[n..] && rest == rest[..n] + rest[n..];
      rc := if n < length then Again else None;
    }

    /** Resumes a pending packet; `resumed` makes the caller return at once. */
    method SendExisting(data: array<byte>, dataLen: nat) returns (rc: WriteResult, resumed: bool)
      requires Valid()
      modifies this`outbuf, this`ototalNum, this`osent, pipe`wire, pipe`sent, pipe`sends
      ensures Valid()
      ensures old(outbuf) == null ==> rc == None && !resumed && unchanged(this) && unchanged(pipe)
      ensures rc == BadUse <==> old(outbuf) != null && (data != odata || dataLen != olen)
      ensures rc == BadUse ==> unchanged(this) && unchanged(pipe)
      ensures old(outbuf) != null && rc != BadUse ==>
                var n := old(pipe.Takes(|Pending()|));
                && resumed && rc == Answer(n, old(|Pending()|), true)
                && pipe.sent == old(pipe.sent) + Taken(old(Pending()), n)
                && (rc == None <==> outbuf == null)
      ensures outbuf == null || outbuf == old(outbuf)
    {
      if outbuf == null {
        return None, false;
      }
      if data != odata || dataLen != olen {
        return BadUse, false;
      }
      rc := Push();
      resumed := true;
    }

    /** Encrypts the block `x` where it lies, after the blocks `out` already encrypted. */
    method EncryptBlock(buf: array<byte>, i: nat, ghost x: seq<byte>, ghost b: seq<byte>, ghost out: seq<byte>)
      returns (ghost out': seq<byte>)
      requires suite.Secure? && |suite.cipher.encrypt(context, x).1| == suite.cipher.blocksize
      requires i + suite.cipher.blocksize <= buf.Length && x == buf[i..i + suite.cipher.blocksize]
      requires i == |out| <= |b| && buf[..] == Splice(b, 0, out)
      modifies this`context, buf
      ensures context == suite.cipher.encrypt(old(context), x).0
      ensures out' == out + suite.cipher.encrypt(old(context), x).1
      ensures |out'| <= |b| && buf[..] == Splice(b, 0, out')
    {
      var bs := suite.cipher.blocksize;
      var step := suite.cipher.encrypt(context, buf[i..i + bs]);
      forall k | 0 <= k < bs {
        buf[i + k] := step.1[k];
      }
      context := step.0;
      assert buf[..] == Splice(old(buf[..]), i, step.1);
      SpliceMore(b, 0, out, step.1);
      out' := out + step.1;
    }

    /** Encrypts the first `n` bytes of `buf` in place, a block at a time. */
    method EncryptInPlace(buf: array<byte>, n: nat)
      requires suite.Secure? && suite.cipher.blocksize > 0 && KeepsSize(suite.cipher.encrypt, suite.cipher.blocksize)
      requires n <= buf.Length && Whole(n, suite.cipher.blocksize)
      modifies this`context, buf
      ensures var (s, out) := Run(suite.cipher.encrypt, suite.cipher.blocksize, old(context), old(buf[..n]));
              |out| == n && context == s && buf[..] == Splice(old(buf[..]), 0, out)
    {
      var i, bs := 0, suite.cipher.blocksize;
      ghost var f, start, b, raw, out := suite.cipher.encrypt, context, buf[..], buf[..n], [];
      SpliceNothing(b, 0);
      RunStarts(f, bs, start, raw);
      while i < n
        invariant i == |out| <= n && RanSoFar(f, bs, start, raw, context, out)
        invariant buf[..] == Splice(b, 0, out)
      {
        RunContinues(f, bs, start, raw, context, out);
        SpliceNextAtStart(b, raw, out, bs);
        out := EncryptBlock(buf, i, raw[i..i + bs], b, out);
        i := i + bs;
      }
      RunEnds(f, bs, start, raw, context, out);
    }

    /** Appends the MAC of the clear packet and encrypts the packet, both in `packet`. */
    method Seal(packet: array<byte>, packetLength: nat, ghost m: Packet)
      requires suite.Secure? && Sound(suite)
      requires packet.Length == packetLength + suite.macLen && packet[..packetLength] == m.clear
      requires Whole(packetLength, suite.cipher.blocksize) && m.tag == suite.mac(seqno, m.clear)
      modifies this`context, packet
      ensures (context, packet[..]) == Sealed(suite, old(context), m)
      ensures packet[packetLength..] == suite.mac(seqno, m.clear)
      ensures (context, packet[..packetLength]) ==
              Run(suite.cipher.encrypt, suite.cipher.blocksize, old(context), m.clear)
    {
      var tag := suite.mac(seqno, packet[..packetLength]);
      forall k | 0 <= k < suite.macLen {
        packet[packetLength + k] := tag[k];
      }
      assert packet[packetLength..] == tag;
      assert packet[..packetLength] == m.clear;
      ghost var clear, out := packet[..], Run(suite.cipher.encrypt, suite.cipher.blocksize, context, m.clear).1;
      EncryptInPlace(packet, packetLength);
      SpliceParts(clear, 0, out);
    }

    /** Lays out length, padding length, payload and padding, then seals the packet. */
    method Frame(data: array<byte>, dataLen: nat, noise: seq<byte>, ghost m: Packet) returns (packet: array<byte>)
      requires Sound(suite) && dataLen <= data.Length && |noise| >= 36
      requires m == Compose(suite, seqno, data[..dataLen], noise)
      modifies this`context
      ensures fresh(packet)
      ensures (context, packet[..]) == Sealed(suite, old(context), m)
      ensures suite.Plain? ==> packet[..] == m.clear
    {
      var blocksize := suite.PadUnit();
      var packetLength := dataLen + 1 + 4;
      var paddingLength := blocksize - packetLength % blocksize;
      if paddingLength < 4 {
        paddingLength := paddingLength + blocksize;
      }
      PaddingFills(blocksize, dataLen);
      packetLength := packetLength + paddingLength;
      packet := new byte[packetLength + suite.TagLen()];
      Lay(packet, data, dataLen, noise[..paddingLength]);
      if suite.Secure? {
        Seal(packet, packetLength, m);
      } else {
        assert packet[..] == m.clear + m.tag;
      }
    }

    static method Lay(packet: array<byte>, data: array<byte>, dataLen: nat, padding: seq<byte>)
      requires dataLen <= data.Length && packet != data && |padding| < 256 && 5 + dataLen + |padding| <= packet.Length
      modifies packet
      ensures packet[..5 + dataLen + |padding|] == Layout(data[..dataLen], padding)
    {
      PutU32(packet, 0, 1 + dataLen + |padding|);
      ghost var length := packet[..4];
      packet[4] := |padding|;
      forall k | 0 <= k < dataLen {
        packet[5 + k] := data[k];
      }
      forall k | 0 <= k < |padding| {
        packet[5 + dataLen + k] := padding[k];
      }
      assert packet[..4] == length;
      assert packet[5..5 + dataLen] == data[..dataLen];
      assert packet[5 + dataLen..5 + dataLen + |padding|] == padding;
    }

    /**
     * Sends the packet for `data[..dataLen]`; the caller repeats the call with the same arguments until it is not
     * Again. However the socket behaves, each packet is framed, and counted, once. Both kinds of call end as `send`
     * says of the bytes they offer: the packet framed or what is left of the one pending.
     */
    method Write(data: array<byte>, dataLen: nat, noise: seq<byte>) returns (rc: WriteResult)
      requires Valid() && dataLen <= data.Length && |noise| >= 36
      modifies this, pipe`wire, pipe`sent, pipe`sends
      ensures rc != Fail || old(outbuf) != null ==> Valid()
      ensures rc == BadUse <==> old(outbuf) != null && (data != old(odata) || dataLen != old(olen))
      ensures rc == BadUse ==> unchanged(this) && unchanged(pipe)
      ensures var offered := if old(outbuf) != null then old(Pending())
                             else Sealed(suite, old(context),
                                         Compose(suite, old(seqno), old(data[..dataLen]), noise)).1;
              var n := old(pipe.Takes(|offered|));
              rc != BadUse ==>
                && rc == Answer(n, |offered|, old(outbuf) != null)
                && pipe.sent == old(pipe.sent) + Taken(offered, n)
      ensures rc == Fail ==> FailedToSend(old(pipe.sends))
      ensures rc == None ==> outbuf == null
      ensures rc == Again ==> outbuf != null && odata == data && olen == dataLen
      ensures outbuf == null || outbuf == old(outbuf) || fresh(outbuf)
      ensures old(outbuf) != null ==> framed == old(framed)
      ensures old(outbuf) == null ==> framed == old(framed) + [Compose(suite, old(seqno), old(data[..dataLen]), noise)]
      ensures origin == old(origin)
    {
      var resumed;
      rc, resumed := SendExisting(data, dataLen);
      if rc != None || resumed {
        return;
      }
      ghost var m := Compose(suite, seqno, data[..dataLen], noise);
      Begin(data, dataLen, noise, m);
      rc := Launch(data, dataLen);
    }

    /** Frames the next packet and counts it. */
    method Begin(data: array<byte>, dataLen: nat, noise: seq<byte>, ghost m: Packet)
      requires Valid() && outbuf == null && dataLen <= data.Length && |noise| >= 36
      requires m == Compose(suite, seqno, data[..dataLen], noise)
      modifies this`outbuf, this`context, this`seqno, this`framed
      ensures framed == old(framed) + [m]
      ensures Counted(suite, origin, framed, context, seqno)
      ensures outbuf != null && fresh(outbuf) && outbuf[..] == Sealed(suite, old(context), m).1
      ensures pipe.sent + outbuf[..] == Stream(suite, origin, framed)
    {
      CountOne(suite, origin, framed, context, data[..dataLen], noise);
      outbuf := Frame(data, dataLen, noise, m);
      framed := framed + [m];
      seqno := seqno + 1;
    }

    /** The first attempt to send a framed packet. */
    method Launch(data: array<byte>, dataLen: nat) returns (rc: WriteResult)
      requires Counted(suite, origin, framed, context, seqno) && pipe.Valid() && outbuf != null
      requires pipe.sent + outbuf[..] == Stream(suite, origin, framed)
      modifies this`outbuf, this`ototalNum, this`osent, this`odata, this`olen, pipe`wire, pipe`sent, pipe`sends
      ensures rc != Fail ==> Valid()
      ensures var all := old(outbuf[..]);
              var n := old(pipe.Takes(|all|));
              rc == Answer(n, |all|, false) && pipe.sent == old(pipe.sent) + Taken(all, n)
      ensures rc == None ==> outbuf == null
      ensures outbuf == null || outbuf == old(outbuf)
      ensures rc == Again ==> outbuf == old(outbuf) && odata == data && olen == dataLen
    {
      ghost var all, before := outbuf[..], pipe.sent;
      var n := pipe.Send(outbuf[..]);
      if n != outbuf.Length {
        if n > 0 || n == EAGAIN {
          // What the socket has not taken stays pending.
          odata, olen, ototalNum := data, dataLen, outbuf.Length;
          osent := if n == EAGAIN then 0 else n;
          assert outbuf[osent..] == all[osent..];
          SentInPart(before, all, osent);
          return Again;
        }
        return Fail;
      }
      assert before + all[..n] == before + all;
      odata, olen := null, 0;
      outbuf := null;
      return None;
    }
  }
}
