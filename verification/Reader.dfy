/** _libssh2_transport_read, decrypt and fullpacket: reassemble packets from whatever pieces the socket hands over. */
module Reader {
  import opened Bytes
  import opened Ciphers
  import opened Framing
  import opened Naming
  import opened Receiving
  import opened Sockets

  /**
   * The end of the stream: bytes not on the wire yet, what follows the packets, where the cipher will stand after
   * them.
   */
  datatype Horizon = Horizon(unsent: seq<byte>, tail: seq<byte>, last: Context)

  /**
   * What fullpacket knows of the packet it has `created`: the verdict on its MAC, its payload's length, and its type.
   */
  datatype FullPacket = FullPacket(created: bool, macConfirmed: bool, payloadLen: nat, kind: byte)

  /** What packet_add does with a packet, by a plan that ends with packets no longer put off. */
  predicate PutOff(stalls: seq<bool>) {
    stalls != [] && stalls[0]
  }

  datatype ReadResult = Again | Fail | TooBig | InvalidMac | Nothing | Got(kind: byte)

  class Receiver {
    const suite: Suite
    const pipe: Pipe
    const tolerant: bool      // whether the application's macerror callback accepts a bad MAC
    const buf: array<byte>
    var connected: bool
    var readidx: nat
    var writeidx: nat
    var init: seq<byte>
    var packetLength: int
    var paddingLength: nat
    var dataNum: nat
    var totalNum: nat
    var payload: array<byte>
    var wptr: nat
    var context: Context
    var seqno: nat
    var jump1: bool           // readPack_state: a whole packet waits for packet_add
    var full: FullPacket      // the session's fullpacket_ fields
    var adding: bool          // packAdd_state
    var packets: seq<seq<byte>>  // the brigade: payloads handed to packet_add, in order
    var stalls: seq<bool>     // whether packet_add is going to put off the packets it is handed
    ghost var base: Context   // where the cipher stood before the current packet
    ghost var done: seq<Packet>
    ghost var rest: seq<Packet>
    ghost var end: Horizon

    // The bytes not received yet.
    ghost function Coming(): seq<byte>
      reads this`end, pipe
    {
      pipe.wire + end.unsent
    }

    ghost function Here(): Place
      reads this`readidx, this`writeidx, this`dataNum, this`totalNum, this`packetLength, this`paddingLength, this`init,
            this`payload, this`context, this`base, this`rest, this`end, buf, payload, pipe
    {
      Place(suite, base, rest, end.tail, packetLength, paddingLength, totalNum, dataNum, init, context,
            if 0 < totalNum && dataNum <= payload.Length then payload[..dataNum] else [],
            (if readidx <= writeidx <= buf.Length then buf[readidx..writeidx] else []) + Coming(), end.last)
    }

    ghost predicate InRange()
      reads this`readidx, this`writeidx, this`dataNum, this`totalNum, this`wptr, this`payload, buf, payload, pipe
    {
      && buf.Length == PACKETBUFSIZE && readidx <= writeidx <= PACKETBUFSIZE
      && payload != buf && pipe.Valid()
      && (totalNum > 0 ==> dataNum == wptr <= payload.Length == totalNum)
    }

    // The indices are in range, and the buffer and the socket hold what comes next where the fields say the reader is.
    ghost predicate Sync()
      reads this`readidx, this`writeidx, this`dataNum, this`totalNum, this`packetLength, this`paddingLength, this`init,
            this`payload, this`context, this`base, this`rest, this`end, buf, payload, pipe, this`wptr
    {
      InRange() && Holds(OnTrack, Here())
    }

    // The bytes received so far, from the start of the current packet.
    ghost function Received(): int
      reads this`totalNum, this`dataNum, this`readidx, this`writeidx
    {
      (if totalNum == 0 then 0 else 5 + dataNum) + (writeidx - readidx)
    }

    // They are all the bytes of that packet.
    ghost predicate WholeReceived()
      reads this`totalNum, this`dataNum, this`readidx, this`writeidx, this`base, this`rest
    {
      suite.HeadLen() > 0 && rest != [] && Received() >= |Sealed(suite, base, rest[0]).1|
    }

    /** What is refused is the header behind the packets: `rc` says whether its length is too small or too big. */
    ghost predicate Refusal(rc: ReadResult)
      reads this`end
    {
      var n := if suite.Plain? then 5 else suite.cipher.blocksize;
      && 5 <= n <= |end.tail|
      && |Head(suite, end.last, end.tail)| >= 4
      && var length := Ntohu32(Head(suite, end.last, end.tail));
         if length == 0 || length >= 0x8000_0000 then rc == Fail
         else rc == TooBig && length - 1 + suite.TagLen() > 40000
    }

    constructor (suite: Suite, pipe: Pipe, tolerant: bool, iv: Context, ghost ms: seq<Packet>, ghost tail: seq<byte>,
                ghost unsent: seq<byte>, stalls: seq<bool>)
      requires GoodStream(suite, iv, ms, tail) && pipe.Valid()
      requires pipe.wire + unsent == Stream(suite, iv, ms) + tail
      ensures Valid() && rest == ms && done == [] && this.pipe == pipe && this.suite == suite
      ensures end == Horizon(unsent, tail, ContextAfter(suite, iv, ms))
      ensures this.tolerant == tolerant && fresh(buf) && fresh(payload)
      ensures connected && !jump1 && packets == [] && this.stalls == stalls
    {
      this.suite, this.pipe, this.tolerant := suite, pipe, tolerant;
      buf, payload := new byte[PACKETBUFSIZE], new byte[0];
      connected, readidx, writeidx, init := true, 0, 0, [];
      packetLength, paddingLength, dataNum, totalNum, wptr := 0, 0, 0, 0, 0;
      context, seqno := iv, 0;
      jump1, full, adding := false, FullPacket(false, false, 0, 0), false;
      this.stalls := stalls;
      packets, base, done, rest, end := [], iv, [], ms, Horizon(unsent, tail, ContextAfter(suite, iv, ms));
      new;
      assert buf[0..0] + Coming() == Coming();
      OnTrackInitially(Here());
    }

    /**
     * Runs the cipher over one block `x` of `buf` in place and copies it to `dest`, after the blocks `out` already
     * opened.
     */
    method DecryptBlock(src: nat, dest: array<byte>, at: nat, ghost x: seq<byte>,
                        ghost b: seq<byte>, ghost src0: nat, ghost d: seq<byte>, ghost at0: nat, ghost out: seq<byte>)
      returns (ghost out': seq<byte>)
      requires suite.Secure? && |suite.cipher.decrypt(context, x).1| == suite.cipher.blocksize && dest != buf
      requires src + suite.cipher.blocksize <= buf.Length && at + suite.cipher.blocksize <= dest.Length
      requires x == buf[src..src + suite.cipher.blocksize]
      requires src == src0 + |out| && at == at0 + |out| && src <= |b| && at <= |d|
      requires buf[..] == Splice(b, src0, out) && dest[..] == Splice(d, at0, out)
      modifies this`context, buf, dest
      ensures context == suite.cipher.decrypt(old(context), x).0
      ensures out' == out + suite.cipher.decrypt(old(context), x).1
      ensures src0 + |out'| <= |b| && at0 + |out'| <= |d|
      ensures buf[..] == Splice(b, src0, out') && dest[..] == Splice(d, at0, out')
    {
      var bs := suite.cipher.blocksize;
      var step := suite.cipher.decrypt(context, buf[src..src + bs]);
      forall k | 0 <= k < bs {
        buf[src + k] := step.1[k];
      }
      forall k | 0 <= k < bs {
        dest[at + k] := buf[src + k];
      }
      context := step.0;
      assert buf[..] == Splice(old(buf[..]), src, step.1);
      assert dest[..] == Splice(old(dest[..]), at, step.1);
      SpliceMore(b, src0, out, step.1);
      SpliceMore(d, at0, out, step.1);
      out' := out + step.1;
    }

    /** One round of decrypt's loop. */
    method DecryptNext(src: nat, dest: array<byte>, at: nat, i: nat, ghost start: Context, ghost raw: seq<byte>,
                       ghost b: seq<byte>, ghost d: seq<byte>, ghost out: seq<byte>)
      returns (ghost out': seq<byte>)
      requires suite.Secure? && suite.cipher.blocksize > 0 && dest != buf
      requires i == |out| < |raw| && src + |raw| <= |b| && at + |raw| <= |d| && raw == b[src..src + |raw|]
      requires RanSoFar(suite.cipher.decrypt, suite.cipher.blocksize, start, raw, context, out)
      requires buf[..] == Splice(b, src, out) && dest[..] == Splice(d, at, out)
      modifies this`context, buf, dest
      ensures |out'| == i + suite.cipher.blocksize <= |raw|
      ensures RanSoFar(suite.cipher.decrypt, suite.cipher.blocksize, start, raw, context, out')
      ensures buf[..] == Splice(b, src, out') && dest[..] == Splice(d, at, out')
    {
      var bs := suite.cipher.blocksize;
      RunContinues(suite.cipher.decrypt, bs, start, raw, context, out);
      ghost var x := raw[i..i + bs];
      NextBlock(src, i, b, raw, out, bs);
      out' := DecryptBlock(src + i, dest, at + i, x, b, src, d, at, out);
    }

    lemma NextBlock(src: nat, i: nat, b: seq<byte>, raw: seq<byte>, out: seq<byte>, bs: nat)
      requires i == |out| && i + bs <= |raw| && src + |raw| <= |b| && raw == b[src..src + |raw|]
      requires buf[..] == Splice(b, src, out)
      ensures src + i + bs <= buf.Length && buf[src + i..src + i + bs] == raw[i..i + bs]
    {
      SpliceNext(b, src, raw, out, bs);
      assert buf[src + i..src + i + bs] == buf[..][src + i..src + i + bs];
    }

    /** decrypt(): a whole number of blocks of `buf`, opened where they lie and copied to `dest`. */
    method Decrypt(src: nat, dest: array<byte>, at: nat, len: nat)
      requires suite.Secure? && suite.cipher.blocksize > 0 && KeepsSize(suite.cipher.decrypt, suite.cipher.blocksize)
      requires dest != buf
      requires src + len <= buf.Length && at + len <= dest.Length && Whole(len, suite.cipher.blocksize)
      modifies this`context, buf, dest
      ensures var (s, out) := Run(suite.cipher.decrypt, suite.cipher.blocksize, old(context), old(buf[src..src + len]));
              && |out| == len && context == s
              && buf[..] == Splice(old(buf[..]), src, out) && dest[..] == Splice(old(dest[..]), at, out)
    {
      var i, bs := 0, suite.cipher.blocksize;
      ghost var f, start, b, d, raw, out := suite.cipher.decrypt, context, buf[..], dest[..], buf[src..src + len], [];
      SpliceNothing(b, src);
      SpliceNothing(d, at);
      RunStarts(f, bs, start, raw);
      while i < len
        invariant i == |out| <= len && RanSoFar(f, bs, start, raw, context, out)
        invariant buf[..] == Splice(b, src, out) && dest[..] == Splice(d, at, out)
      {
        out := DecryptNext(src, dest, at, i, start, raw, b, d, out);
        i := i + bs;
      }
      RunEnds(f, bs, start, raw, context, out);
    }

    /** Moves what is left in the buffer to its start. */
    method MoveRemainder()
      requires readidx <= writeidx <= buf.Length
      modifies buf, this`readidx, this`writeidx
      ensures readidx == 0 && writeidx == old(writeidx - readidx)
      ensures buf[..writeidx] == old(buf[readidx..writeidx])
    {
      var remainbuf := writeidx - readidx;
      ghost var raw := buf[readidx..writeidx];
      forall i | 0 <= i < remainbuf {
        buf[i] := buf[readidx + i];
      }
      readidx, writeidx := 0, remainbuf;
      assert buf[..remainbuf] == raw;
    }

    /** Puts what the socket delivered behind it. */
    method Append(data: seq<byte>)
      requires readidx == 0 && writeidx + |data| <= buf.Length
      modifies buf, this`writeidx
      ensures writeidx == old(writeidx) + |data| && buf[..writeidx] == old(buf[..writeidx]) + data
    {
      forall i | 0 <= i < |data| {
        buf[writeidx + i] := data[i];
      }
      writeidx := writeidx + |data|;
    }

    /** Moves the remainder to the start of the buffer and reads a big chunk after it. */
    method Refill() returns (n: int)
      requires buf.Length == PACKETBUFSIZE && readidx <= writeidx <= PACKETBUFSIZE && pipe.Valid()
      modifies buf, this`readidx, this`writeidx, pipe`wire, pipe`taken, pipe`recvs, pipe`heard
      ensures readidx <= writeidx <= PACKETBUFSIZE && pipe.Valid()
      ensures n == old(pipe.Gives(PACKETBUFSIZE - (writeidx - readidx))) && pipe.heard == old(pipe.heard) + [n]
      ensures buf[readidx..writeidx] + Coming() == old(buf[readidx..writeidx] + Coming())
      ensures n > 0 ==> |pipe.wire| < old(|pipe.wire|)
      ensures n <= 0 ==> |pipe.wire| == old(|pipe.wire|) && writeidx - readidx == old(writeidx - readidx)
    {
      ghost var wire := pipe.wire;
      MoveRemainder();
      ghost var raw := buf[..writeidx];
      var data;
      n, data := pipe.Recv(PACKETBUFSIZE - writeidx);
      if n > 0 {
        Append(data);
        assert data + pipe.wire == wire;
        Regroup(data, pipe.wire, end.unsent);
        Regroup(raw, data, Coming());
      }
    }

    /** memcpy from the buffer to the payload. */
    method CopyOut(d: nat)
      requires readidx + d <= buf.Length && wptr + d <= payload.Length && payload != buf
      modifies payload
      ensures payload[..wptr + d] == old(payload[..wptr]) + buf[readidx..readidx + d]
    {
      forall i | 0 <= i < d {
        payload[wptr + i] := buf[readidx + i];
      }
    }

    /** Decrypts the next `d` bytes `x` of the buffer to the payload. */
    method DecryptOut(d: nat, ghost x: seq<byte>, ghost s: Context, ghost more: seq<byte>)
      requires suite.Secure? && suite.cipher.blocksize > 0 && KeepsSize(suite.cipher.decrypt, suite.cipher.blocksize)
      requires Whole(d, suite.cipher.blocksize) && readidx + d <= writeidx <= buf.Length && wptr + d <= payload.Length
      requires payload != buf
      requires x == buf[readidx..readidx + d]
      requires (s, more) == Run(suite.cipher.decrypt, suite.cipher.blocksize, context, x)
      modifies this`context, buf, payload
      ensures context == s && payload[..wptr + d] == old(payload[..wptr]) + more
      ensures buf[readidx + d..writeidx] == old(buf[readidx + d..writeidx])
    {
      ghost var b, p := buf[..], payload[..];
      Decrypt(readidx, payload, wptr, d);
      SpliceFront(p, wptr, more);
      SpliceTail(b, readidx, writeidx, more);
    }

    /** Opens `d` whole blocks of the current packet. */
    method TakeDecrypted(d: nat)
      requires Sync() && totalNum > 0 && suite.Secure? && suite.cipher.blocksize > 0
      requires dataNum + d <= totalNum - suite.macLen && Whole(d, suite.cipher.blocksize) && readidx + d <= writeidx
      modifies this`context, this`readidx, this`wptr, this`dataNum, buf, payload
      ensures Sync() && dataNum == old(dataNum) + d && readidx == old(readidx) + d
    {
      ghost var s, more, there := DecryptOnTrack(d);
      readidx, wptr, dataNum := readidx + d, wptr + d, dataNum + d;
      assert Here() == there;
    }

    /** The place reached by decrypting `d` bytes. */
    method DecryptOnTrack(d: nat) returns (ghost s: Context, ghost more: seq<byte>, ghost there: Place)
      requires Sync() && totalNum > 0 && suite.Secure? && suite.cipher.blocksize > 0
      requires dataNum + d <= totalNum - suite.macLen && Whole(d, suite.cipher.blocksize) && readidx + d <= writeidx
      modifies this`context, buf, payload
      ensures Holds(OnTrack, there)
      ensures there == old(Here()).(dataNum := dataNum + d, context := context, got := payload[..dataNum + d],
                                    ahead := buf[readidx + d..writeidx] + Coming())
    {
      SplitStretch(buf, readidx, writeidx, d);
      LengthsInside(Here());
      s, more := AfterDecrypting(Here(), buf[readidx..writeidx], Coming(), d);
      there := Here().(dataNum := dataNum + d, context := s, got := payload[..dataNum] + more,
                       ahead := buf[readidx + d..writeidx] + Coming());
      DecryptOut(d, buf[readidx..readidx + d], s, more);
    }

    /** Copies `d` bytes that are not encrypted. */
    method TakeCopied(d: nat)
      requires Sync() && totalNum > 0 && dataNum + d <= totalNum && readidx + d <= writeidx
      requires suite.Plain? || dataNum >= totalNum - suite.macLen
      modifies this`readidx, this`wptr, this`dataNum, payload
      ensures Sync() && dataNum == old(dataNum) + d && readidx == old(readidx) + d
    {
      ghost var there := CopyOnTrack(d);
      readidx, wptr, dataNum := readidx + d, wptr + d, dataNum + d;
      assert Here() == there;
    }

    /** The place reached by copying `d` bytes. */
    method CopyOnTrack(d: nat) returns (ghost there: Place)
      requires Sync() && totalNum > 0 && dataNum + d <= totalNum && readidx + d <= writeidx
      requires suite.Plain? || dataNum >= totalNum - suite.macLen
      modifies payload
      ensures Holds(OnTrack, there)
      ensures there == old(Here()).(dataNum := dataNum + d, got := payload[..dataNum + d],
                                    ahead := buf[readidx + d..writeidx] + Coming())
    {
      SplitStretch(buf, readidx, writeidx, d);
      AfterCopying(Here(), buf[readidx..writeidx], Coming(), d);
      there := Here().(dataNum := dataNum + d, got := payload[..dataNum] + buf[readidx..readidx + d],
                       ahead := buf[readidx + d..writeidx] + Coming());
      CopyOut(d);
    }

    /** Steps over the first block, which `block` is in clear. */
    method OpenFirstBlock(n: nat) returns (block: seq<byte>)
      requires suite.HeadLen() == n && 5 <= n <= 32 && readidx + n <= writeidx <= buf.Length
      requires suite.Secure? ==> KeepsSize(suite.cipher.decrypt, n)
      modifies this`context, this`readidx, this`init, buf
      ensures block == Head(suite, old(context), old(buf[readidx..writeidx])) && |block| == n
      ensures context == if suite.Plain? then old(context)
                         else suite.cipher.decrypt(old(context), old(buf[readidx..writeidx][..n])).0
      ensures readidx == old(readidx) + n && buf[readidx..writeidx] == old(buf[readidx..writeidx])[n..]
      ensures init == if suite.Plain? then old(init) else block[..5]
    {
      ghost var raw := buf[readidx..writeidx];
      SplitStretch(buf, readidx, writeidx, n);
      if suite.Secure? {
        block := DecryptFirstBlock(n, raw[..n]);
      } else {
        block := buf[readidx..readidx + n];
      }
      readidx := readidx + n;
    }

    /** Decrypts the first block `x`, keeping its first five bytes for the MAC. */
    method DecryptFirstBlock(n: nat, ghost x: seq<byte>) returns (block: seq<byte>)
      requires suite.Secure? && suite.cipher.blocksize == n && 5 <= n <= 32 && readidx + n <= writeidx <= buf.Length
      requires KeepsSize(suite.cipher.decrypt, n) && x == buf[readidx..readidx + n]
      modifies this`context, this`init, buf
      ensures context == suite.cipher.decrypt(old(context), x).0 && block == suite.cipher.decrypt(old(context), x).1
      ensures |block| == n && init == block[..5]
      ensures buf[readidx + n..writeidx] == old(buf[readidx + n..writeidx])
    {
      ghost var b := buf[..];
      var clear := new byte[n];
      ghost var d, out := clear[..], suite.cipher.decrypt(context, x).1;
      OneBlock(suite.cipher.decrypt, n, context, x);
      SpliceWhole(d, out);
      Decrypt(readidx, clear, 0, n);
      block := clear[..];
      SpliceAround(b, readidx, writeidx, block, 5);
      init := buf[readidx..readidx + 5];
      assert buf[..][readidx..readidx + 5] == init && b[readidx + n..writeidx] == old(buf[readidx + n..writeidx]);
      assert buf[..][readidx + n..writeidx] == buf[readidx + n..writeidx];
    }

    /** Learns the packet's size from its first block and gets a buffer for it; or refuses the packet. */
    method ReadHeader() returns (ok: bool, rc: ReadResult)
      requires Sync() && totalNum == 0 && writeidx - readidx >= suite.HeadLen()
      modifies this`context, this`readidx, this`init, this`packetLength, this`paddingLength, this`totalNum,
               this`payload, this`wptr, this`dataNum, buf
      ensures ok ==> Sync() && dataNum < totalNum && readidx == old(readidx) + suite.HeadLen() && fresh(payload)
      ensures ok ==> Received() == old(Received())
      ensures !ok ==> rest == [] && payload == old(payload) && Refusal(rc)
    {
      ghost var pl, raw := Here(), buf[readidx..writeidx];
      LengthsInside(pl);
      AfterHeader(pl, raw, Coming());
      var block := OpenFirstBlock(suite.HeadLen());
      ghost var arrived := Arrived(pl, block, context, raw[suite.HeadLen()..] + Coming());
      if !HeaderRefused(suite, block) {
        LengthsInside(arrived);
        HeaderKept(arrived, init);
      }
      ok, rc := AdmitPacket(block);
      assert !ok && suite.Plain? ==> block[..4] == Head(suite, end.last, end.tail)[..4];
      assert ok ==> Here() == arrived.(init := init);
    }

    /** Sets the packet's lengths from its first block and allocates its payload, unless they are out of bounds. */
    method AdmitPacket(block: seq<byte>) returns (ok: bool, rc: ReadResult)
      requires |block| >= 5 && !HeaderRefused(suite, block) ==> |block| - 5 <= SignedLength(block) - 1 + suite.TagLen()
      requires |block| >= 5
      modifies this`packetLength, this`paddingLength, this`totalNum, this`payload, this`wptr, this`dataNum
      ensures ok <==> !HeaderRefused(suite, block)
      ensures !ok ==> payload == old(payload) && rc == if SignedLength(block) < 1 then Fail else TooBig
      ensures rc == Fail <==> Ntohu32(block) == 0 || Ntohu32(block) >= 0x8000_0000
      ensures rc == TooBig <==>
                0 < Ntohu32(block) < 0x8000_0000
                && Ntohu32(block) - 1 + (if suite.Plain? then 0 else suite.macLen) > 40000
      ensures ok ==>
                && packetLength == SignedLength(block) && paddingLength == block[4]
                && totalNum == packetLength - 1 + suite.TagLen() == payload.Length && fresh(payload)
                && wptr == dataNum == |block| - 5 && payload[..dataNum] == block[5..]
    {
      packetLength := SignedLength(block);
      if packetLength < 1 {
        return false, Fail;
      }
      paddingLength := block[4];
      totalNum := packetLength - 1 + suite.TagLen();
      if totalNum > MAXPAYLOAD {
        return false, TooBig;
      }
      StartPayload(block);
      return true, Nothing;
    }

    /** A fresh payload buffer, starting with what the first block held beyond the header. */
    method StartPayload(block: seq<byte>)
      requires |block| >= 5 && |block| - 5 <= totalNum
      modifies this`payload, this`wptr, this`dataNum
      ensures fresh(payload) && payload.Length == totalNum && wptr == dataNum == |block| - 5
      ensures payload[..dataNum] == block[5..]
    {
      payload := new byte[totalNum];
      wptr := 0;
      if |block| > 5 {
        forall k | 0 <= k < |block| - 5 {
          payload[k] := block[5 + k];
        }
        wptr := wptr + (|block| - 5);
      }
      dataNum := wptr;
    }

    /**
     * How many of the buffered bytes to decrypt, and how many then to copy: as many as there are, but none beyond this
     * packet, and of the encrypted ones only whole blocks.
     */
    method PlanRound() returns (numdecrypt: nat, numcopy: nat)
      requires Sync() && totalNum > 0 && dataNum < totalNum
      ensures numdecrypt > 0 ==>
                && suite.Secure? && suite.cipher.blocksize > 0 && Whole(numdecrypt, suite.cipher.blocksize)
                && dataNum + numdecrypt <= totalNum - suite.macLen
      ensures numcopy > 0 ==> suite.Plain? || dataNum + numdecrypt >= totalNum - suite.macLen
      ensures numdecrypt + numcopy <= writeidx - readidx && dataNum + numdecrypt + numcopy <= totalNum
      ensures writeidx - readidx >= totalNum - dataNum ==> dataNum + numdecrypt + numcopy == totalNum
      ensures writeidx - readidx >= suite.HeadLen() ==> numdecrypt + numcopy > 0
    {
      LengthsInside(Here());
      var numbytes := writeidx - readidx;
      if numbytes > totalNum - dataNum {
        // The bytes behind this packet belong to the next.
        numbytes := totalNum - dataNum;
      }
      numdecrypt := 0;
      if suite.Secure? {
        var toMac := totalNum - suite.macLen - dataNum;
        if numbytes > toMac {
          numdecrypt := if toMac > 0 then toMac else 0;
        } else {
          var frac := numbytes % suite.cipher.blocksize;
          WithoutRemainder(numbytes, suite.cipher.blocksize);
          numdecrypt := numbytes - frac;
          if frac > 0 {
            // A broken block waits for its other bytes, and nothing behind it can be taken before it.
            return numdecrypt, 0;
          }
        }
      }
      numcopy := numbytes - numdecrypt;
    }

    /** Takes from the buffer whatever belongs to the current packet and can be handled now. */
    method Collect()
      requires Sync() && totalNum > 0 && dataNum < totalNum
      modifies this`context, this`readidx, this`wptr, this`dataNum, buf, payload
      ensures Sync() && readidx >= old(readidx) && Received() == old(Received())
      ensures dataNum < totalNum ==> writeidx - readidx < totalNum - dataNum
      ensures old(writeidx - readidx) >= suite.HeadLen() ==> readidx > old(readidx)
    {
      var numdecrypt, numcopy := PlanRound();
      if numdecrypt > 0 {
        TakeDecrypted(numdecrypt);
      }
      if numcopy > 0 {
        TakeCopied(numcopy);
      }
    }

    // No packet is being handed over, and every packet counted so far has been.
    ghost predicate Idle()
      reads this`full, this`adding, this`seqno, this`done
    {
      !full.created && !adding && seqno == |done|
    }

    // The current packet is complete: its payload and the verdict on its MAC are set.
    ghost predicate Assembled()
      reads this`full, this`adding, this`seqno, this`done, this`rest, this`payload, payload
    {
      && full.created && seqno == |done| + 1 && rest != []
      && 0 < full.payloadLen <= payload.Length && payload[..full.payloadLen] == rest[0].Payload()
      && full.kind == payload[0]
      && (full.macConfirmed <==> Authentic(suite, |done|, rest[0]))
      && (adding ==> full.macConfirmed || tolerant)
    }

    /** The first half of fullpacket(): check the MAC, count the packet, and ignore the padding. */
    method Assemble()
      requires Sync() && totalNum > 0 && dataNum == totalNum && Idle()
      modifies this`full, this`seqno
      ensures Assembled()
    {
      AfterPacket(Here());
      assert payload[..dataNum] == payload[..];
      var payloadLen := packetLength - 1;
      var macConfirmed := CheckMac(payloadLen, rest[0]);
      seqno := seqno + 1;
      payloadLen := payloadLen - paddingLength;
      full := FullPacket(true, macConfirmed, payloadLen, payload[0]);
    }

    /** Recomputes the MAC of the clear packet and compares it with the one received. */
    method CheckMac(payloadLen: nat, ghost m: Packet) returns (confirmed: bool)
      requires payloadLen + suite.TagLen() == payload.Length
      requires suite.Secure? ==> init + payload[..][..payloadLen] == m.clear && payload[..][payloadLen..] == m.tag
      ensures confirmed <==> Authentic(suite, seqno, m)
      ensures confirmed <==> suite.Plain? || m.tag == suite.mac(seqno, m.clear)
    {
      confirmed := true;
      if suite.Secure? {
        assert payload[..][..payloadLen] == payload[..payloadLen];
        assert payload[..][payloadLen..] == payload[payloadLen..payloadLen + suite.macLen];
        var macbuf := suite.mac(seqno, init + payload[..payloadLen]);
        if macbuf != payload[payloadLen..payloadLen + suite.macLen] {
          confirmed := false;
        }
      }
    }

    /**
     * packet_add as the transport sees it: it rejects a bad MAC, may put the packet off, and queues the payload once.
     */
    method PacketAdd() returns (rc: ReadResult)
      requires Assembled()
      modifies this`adding, this`packets, this`stalls
      ensures var rejects := !full.macConfirmed && !tolerant && !old(adding);
              && rc == (if rejects then InvalidMac else if PutOff(old(stalls)) then Again else Nothing)
              && stalls == if rejects then old(stalls) else Later(old(stalls))
      ensures rc == Again ==> adding
      ensures rc == Nothing ==> !adding
      ensures packets == if rc == Nothing then old(packets) + [rest[0].Payload()] else old(packets)
    {
      if !adding {
        if !full.macConfirmed && !tolerant {
          return InvalidMac;
        }
        adding := true;
      }
      var blocked := PutOff(stalls);
      stalls := Later(stalls);
      if blocked {
        return Again;
      }
      packets := packets + [payload[..full.payloadLen]];
      adding := false;
      return Nothing;
    }

    /** Done with the packet: no packet buffer is in use, and the stream goes on with the next packet. */
    method Conclude(ghost m: Packet)
      requires Sync() && totalNum > 0 && dataNum == totalNum && rest != [] && m == rest[0]
      requires packets == Payloads(done) + [m.Payload()]
      modifies this`full, this`totalNum, this`base, this`rest, this`done
      ensures Sync() && totalNum == 0 && !full.created
      ensures done == old(done) + [m] && rest == old(rest)[1..] && packets == Payloads(done)
    {
      ghost var pl := Here();
      AfterPacket(pl);
      GotIsUnused(pl.(base := context, rest := rest[1..], totalNum := 0), []);
      full := full.(created := false);
      totalNum := 0;
      done, base, rest := done + [m], context, rest[1..];
      assert Here() == pl.(base := context, rest := rest, totalNum := 0, got := []);
    }

    /** What becomes of the complete packet `m`, the `n`th, which `waited` from an earlier call or not. */
    ghost function Verdict(m: Packet, n: nat, waited: bool, stalls: seq<bool>): ReadResult
      requires |m.clear| > 5
    {
      if suite.Secure? && m.tag != suite.mac(n, m.clear) && !tolerant && !waited then InvalidMac
      else if stalls != [] && stalls[0] then Again
      else Got(m.clear[5])
    }

    /** fullpacket(): assemble the packet unless that is done already, and hand it to packet_add. */
    method HandOver(ghost m: Packet) returns (rc: ReadResult)
      requires Sync() && totalNum > 0 && dataNum == totalNum && rest != [] && m == rest[0]
      requires if jump1 then Assembled() && adding else Idle()
      modifies this`full, this`seqno, this`adding, this`packets, this`stalls, this`jump1
      ensures |m.clear| > 5 && rc == Verdict(m, |done|, old(jump1), old(stalls))
      ensures jump1 <==> rc == Again
      ensures rc == Again ==> Assembled() && adding
      ensures packets == if rc.Got? then old(packets) + [m.Payload()] else old(packets)
      ensures rc.Got? ==> !adding && seqno == |done| + 1
    {
      if !full.created {
        Assemble();
      }
      assert m.Payload() == payload[..full.payloadLen] && m.Payload()[0] == m.clear[5];
      rc := PacketAdd();
      jump1 := rc == Again;
      if rc == Nothing {
        assert payload[..full.payloadLen][0] == payload[0];
        rc := Got(full.kind);
      }
    }

    /** What transport_read does with an answer of fullpacket's. */
    method Finish(rc: ReadResult, ghost m: Packet)
      requires Sync() && totalNum > 0 && dataNum == totalNum && rest != [] && m == rest[0]
      requires rc == Again || rc == InvalidMac || rc.Got?
      requires packets == if rc.Got? then Payloads(done) + [m.Payload()] else Payloads(done)
      modifies this`full, this`totalNum, this`base, this`rest, this`done
      ensures packets == Payloads(done)
      ensures rc == Again ==> unchanged(this)
      ensures rc == InvalidMac ==> done == old(done) && totalNum == 0
      ensures rc != InvalidMac ==> Sync()
      ensures rc.Got? ==> totalNum == 0 && !full.created && done == old(done) + [m] && rest == old(rest)[1..]
    {
      if rc.Got? {
        Conclude(m);
      } else if rc != Again {
        totalNum := 0;
      }
    }

    /** What transport_read does with a complete packet. */
    method Deliver(ghost m: Packet) returns (rc: ReadResult)
      requires Sync() && totalNum > 0 && dataNum == totalNum && rest != [] && m == rest[0] && packets == Payloads(done)
      requires if jump1 then Assembled() && adding else Idle()
      modifies this`full, this`seqno, this`adding, this`packets, this`stalls, this`jump1, this`totalNum, this`base
      modifies this`rest, this`done
      ensures |m.clear| > 5 && rc == Verdict(m, |old(done)|, old(jump1), old(stalls))
      ensures (jump1 <==> rc == Again) && packets == Payloads(done)
      ensures rc != InvalidMac ==> Sync()
      ensures rc == Again ==> Assembled() && adding && unchanged(this`totalNum, this`rest, this`done)
      ensures rc == InvalidMac ==> done == old(done) && totalNum == 0
      ensures rc.Got? ==> Idle() && totalNum == 0 && done == old(done) + [m] && rest == old(rest)[1..]
    {
      rc := HandOver(m);
      assert InRange();
      Finish(rc, m);
    }

    // Between two rounds of the read loop: no packet waits, and the buffered bytes do not complete the current one.
    ghost predicate Hungry()
      reads this`jump1, this`totalNum, this`dataNum, this`readidx, this`writeidx
      reads this`full, this`adding, this`seqno, this`done
    {
      !jump1 && Idle() && (totalNum > 0 ==> dataNum < totalNum && writeidx - readidx < totalNum - dataNum)
    }

    // Between two calls: either a complete packet waits for packet_add, or the reader is hungry.
    ghost predicate Valid()
      reads this, buf, payload, pipe
    {
      Ready() && Holds(OnTrack, Here())
    }

    ghost predicate Ready()
      reads this, buf, payload, pipe
    {
      && InRange() && packets == Payloads(done)
      && if jump1 then totalNum > 0 && dataNum == totalNum && Assembled() && adding else Hungry()
    }

    /** The state a call leaves, given what was done and what was still to come before it. */
    ghost predicate Answer(rc: ReadResult, done0: seq<Packet>, rest0: seq<Packet>)
      reads this, buf, payload, pipe
    {
      match rc
      case Again => Valid() && done == done0 && rest == rest0 && (jump1 || !WholeReceived())
      case Nothing => Valid() && done == done0 && rest == rest0
      case Got(_) => Valid() && rest0 != [] && done == done0 + [rest0[0]] && rest == rest0[1..]
      case _ => packets == Payloads(done0)
    }

    /**
     * A call ends for want of bytes: `recv` has been called until it would block, failed or found the end, or what it
     * brought is still no header.
     */
    ghost predicate Starved(rc: ReadResult, heard0: seq<int>)
      reads this`jump1, this`totalNum, this`readidx, this`writeidx, pipe
    {
      && Polled(heard0, pipe.heard) && |heard0| < |pipe.heard| && !jump1
      && var n := pipe.heard[|pipe.heard| - 1];
         if n <= 0 then rc == if n == -1 then Again else Fail
         else
           && rc == Again && totalNum == 0
           && writeidx - readidx < if suite.Plain? then 5 else suite.cipher.blocksize
    }

    /** A call ends for what was received: a packet is complete, or the header behind the last is refused. */
    ghost predicate Decided(rc: ReadResult, waited: bool, done0: seq<Packet>, rest0: seq<Packet>, stalls0: seq<bool>)
      reads this`end, this`jump1, this`totalNum
    {
      if rest0 == [] then Refusal(rc)
      else
        && |rest0[0].clear| > 5 && rc == Verdict(rest0[0], |done0|, waited, stalls0) && (jump1 <==> rc == Again)
        && (totalNum > 0 <==> rc == Again)
    }

    ghost predicate Reason(rc: ReadResult, heard0: seq<int>, waited: bool, done0: seq<Packet>, rest0: seq<Packet>,
                           stalls0: seq<bool>)
      reads this`end, this`jump1, this`totalNum, this`readidx, this`writeidx, pipe
    {
      || (Starved(rc, heard0) && !waited)
      || (OnlyBytes(heard0, pipe.heard) && (waited ==> pipe.heard == heard0)
          && Decided(rc, waited, done0, rest0, stalls0))
    }

    /** Reads from the socket because the buffer holds less than a block. */
    method Ask() returns (n: int)
      requires Sync() && Hungry() && writeidx - readidx < suite.HeadLen()
      modifies this`readidx, this`writeidx, buf, pipe`wire, pipe`taken, pipe`recvs, pipe`heard
      ensures Sync() && !old(WholeReceived()) && pipe.heard == old(pipe.heard) + [n]
      ensures if n > 0 then |pipe.wire| < old(|pipe.wire|) else Hungry()
      ensures n <= 0 || (totalNum == 0 && writeidx - readidx < suite.HeadLen()) ==> !WholeReceived()
    {
      ghost var pl := Here();
      if rest != [] {
        NotWholeYet(pl, writeidx - readidx);
      }
      n := Refill();
      assert Here() == pl;
      if rest != [] && totalNum == 0 && writeidx - readidx < suite.HeadLen() {
        NotWholeYet(pl, writeidx - readidx);
      }
    }

    /** Makes sure there is a block's worth of data to deal with, reading from the socket if not. */
    method Fetch() returns (go: bool, rc: ReadResult)
      requires Sync() && Hungry() && packets == Payloads(done)
      modifies this`readidx, this`writeidx, buf, pipe`wire, pipe`taken, pipe`recvs, pipe`heard
      ensures Sync()
      ensures !go ==> Answer(rc, done, rest) && Starved(rc, old(pipe.heard))
      ensures go ==>
                || |pipe.wire| < old(|pipe.wire|)
                || (|pipe.wire| == old(|pipe.wire|) && writeidx - readidx == old(writeidx - readidx) >= suite.HeadLen())
      ensures go ==> OnlyBytes(old(pipe.heard), pipe.heard)
      ensures go && totalNum == 0 ==> writeidx - readidx >= suite.HeadLen()
      ensures old(WholeReceived()) ==> go && pipe.heard == old(pipe.heard) && WholeReceived()
    {
      go, rc := true, Nothing;
      var blocksize := suite.HeadLen();
      if writeidx - readidx < blocksize {
        var n := Ask();
        if n <= 0 {
          return false, if n == EAGAIN then Again else Fail;
        }
        if totalNum == 0 && writeidx - readidx < blocksize {
          return false, Again;
        }
      }
    }

    /** Delivers the complete packet, as the call's last deed. */
    method HandUp() returns (rc: ReadResult)
      requires Sync() && totalNum > 0 && dataNum == totalNum && packets == Payloads(done)
      requires if jump1 then Assembled() && adding else Idle()
      modifies this`full, this`seqno, this`adding, this`packets, this`stalls, this`jump1, this`totalNum, this`base
      modifies this`rest, this`done
      ensures Answer(rc, old(done), old(rest))
      ensures old(rest) != [] && Decided(rc, old(jump1), old(done), old(rest), old(stalls))
    {
      LengthsInside(Here());
      rc := Deliver(rest[0]);
    }

    /** Collects what there is of the packet; some is `missing` only if the bytes received do not complete it. */
    method Gather() returns (missing: bool)
      requires Sync() && totalNum > 0 && dataNum < totalNum
      modifies this`context, this`readidx, this`wptr, this`dataNum, buf, payload
      ensures Sync() && readidx >= old(readidx)
      ensures missing ==> dataNum < totalNum && writeidx - readidx < totalNum - dataNum && !old(WholeReceived())
      ensures !missing ==> dataNum == totalNum
      ensures old(writeidx - readidx) >= suite.HeadLen() ==> readidx > old(readidx)
    {
      Collect();
      LengthsInside(Here());
      missing := dataNum < totalNum;
      if missing && rest != [] {
        NotWholeYet(Here(), writeidx - readidx);
      }
    }

    /** Collects what there is of the current packet, and delivers it if that completes it. */
    method Absorb() returns (again: bool, rc: ReadResult)
      requires Sync() && !jump1 && Idle() && packets == Payloads(done) && dataNum < totalNum
      modifies this, buf, payload
      ensures payload == old(payload) && connected == old(connected)
      ensures end == old(end)
      ensures again ==> Sync() && Hungry() && packets == Payloads(done) && done == old(done) && rest == old(rest)
      ensures again ==> readidx >= old(readidx) && writeidx == old(writeidx) && stalls == old(stalls)
      ensures again && old(writeidx - readidx) >= suite.HeadLen() ==> readidx > old(readidx)
      ensures again ==> !old(WholeReceived())
      ensures !again ==> Answer(rc, old(done), old(rest))
      ensures !again ==> old(rest) != [] && Decided(rc, false, old(done), old(rest), old(stalls))
    {
      again := Gather();
      rc := Nothing;
      if !again {
        rc := HandUp();
      }
    }

    /** Deals with what is in the buffer: a header, if that is due, and what there is of the packet behind it. */
    method Consume() returns (again: bool, rc: ReadResult)
      requires Sync() && !jump1 && Idle() && packets == Payloads(done)
      requires if totalNum == 0 then writeidx - readidx >= suite.HeadLen() else dataNum < totalNum
      modifies this, buf, payload
      ensures again ==> Sync() && Hungry() && packets == Payloads(done) && done == old(done) && rest == old(rest)
      ensures again ==> stalls == old(stalls) && !old(WholeReceived())
      ensures again && old(writeidx - readidx) >= suite.HeadLen() ==> writeidx - readidx < old(writeidx - readidx)
      ensures payload == old(payload) || fresh(payload)
      ensures !again ==> Answer(rc, old(done), old(rest)) && Decided(rc, false, old(done), old(rest), old(stalls))
      ensures connected == old(connected) && end == old(end)
    {
      again := true;
      if totalNum == 0 {
        again, rc := ReadHeader();
      }
      if again {
        again, rc := Absorb();
      }
    }

    /** One round of the read loop; it goes round `again` after taking something in without completing a packet. */
    method Round() returns (again: bool, rc: ReadResult)
      requires Sync() && Hungry() && packets == Payloads(done)
      modifies this, buf, payload, pipe`wire, pipe`taken, pipe`recvs, pipe`heard
      ensures again ==> Sync() && Hungry() && packets == Payloads(done) && done == old(done) && rest == old(rest)
      ensures again ==> stalls == old(stalls) && OnlyBytes(old(pipe.heard), pipe.heard)
      ensures again ==>
                || |pipe.wire| < old(|pipe.wire|)
                || (|pipe.wire| == old(|pipe.wire|) && writeidx - readidx < old(writeidx - readidx))
      ensures payload == old(payload) || fresh(payload)
      ensures !again ==> Answer(rc, old(done), old(rest))
      ensures !again ==> Reason(rc, old(pipe.heard), false, old(done), old(rest), old(stalls))
      ensures old(WholeReceived()) ==> !again && pipe.heard == old(pipe.heard)
      ensures connected == old(connected) && end == old(end)
    {
      again, rc := Fetch();
      if again {
        again, rc := Consume();
      }
    }

    /**
     * _libssh2_transport_read. However `recv` cuts the stream up, the payloads handed to packet_add are those of the
     * peer's packets, each once and in order; Again means that no further packet is complete. A packet already received
     * in whole is dealt with without asking the socket.
     */
    method Read() returns (rc: ReadResult)
      requires Valid()
      modifies this, buf, payload, pipe`wire, pipe`taken, pipe`recvs, pipe`heard
      ensures Answer(rc, old(done), old(rest))
      ensures if old(jump1 || connected)
              then Reason(rc, old(pipe.heard), old(jump1), old(done), old(rest), old(stalls))
              else rc == Nothing && pipe.heard == old(pipe.heard)
      ensures old(WholeReceived()) ==> pipe.heard == old(pipe.heard)
      ensures payload == old(payload) || fresh(payload)
      ensures end == old(end) && connected == old(connected)
    {
      if jump1 {
        rc := HandUp();
        return;
      }
      var again := true;
      rc := Nothing;
      while again
        invariant payload == old(payload) || fresh(payload)
        invariant end == old(end) && connected == old(connected) && (connected || pipe.heard == old(pipe.heard))
        invariant again ==> Sync() && Hungry() && packets == Payloads(done) && done == old(done) && rest == old(rest)
        invariant again ==> stalls == old(stalls) && OnlyBytes(old(pipe.heard), pipe.heard)
        invariant !again ==> Answer(rc, old(done), old(rest)) && connected
        invariant !again ==> Reason(rc, old(pipe.heard), false, old(done), old(rest), old(stalls))
        invariant old(WholeReceived()) ==> pipe.heard == old(pipe.heard) && (again ==> WholeReceived())
        decreases again, |pipe.wire|, writeidx - readidx
      {
        if !connected {
          return Nothing;
        }
        again, rc := Round();
      }
    }
  }

  lemma OneBlock(f: Step, bs: nat, s: Context, x: seq<byte>)
    requires bs > 0 && |x| == bs
    ensures Run(f, bs, s, x).0 == f(s, x).0 && Run(f, bs, s, x).1 == f(s, x).1
    ensures Whole(bs, bs)
  {
    assert x[..bs] == x && x[bs..] == [];
  }

  lemma SpliceWhole(d: seq<byte>, x: seq<byte>)
    requires |x| == |d|
    ensures Splice(d, 0, x) == x
  {
  }
}