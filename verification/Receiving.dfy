/** Where a reader stands inside a packet, on values: what it has decrypted, and what one more stretch adds to it. */
module Receiving {
  import opened Bytes
  import opened Ciphers
  import opened Framing
  import opened Naming

  /** The bytes `w` continues with at `at` are `some`. */
  predicate Continues(w: seq<byte>, at: nat, some: seq<byte>) {
    at + |some| <= |w| && some == w[at..at + |some|]
  }

  /**
   * The first `num` bytes after the five header bytes of `m` have been opened into `got`, and the cipher context has
   * moved exactly past them. Inside the encrypted part only whole blocks have been opened.
   */
  ghost predicate Opening(suite: Suite, base: Context, m: Packet, num: nat, context: Context, got: seq<byte>)
    requires suite.HeadLen() > 0
  {
    && WellFormed(suite, m)
    && suite.HeadLen() - 5 <= num <= |m.clear| - 5 + |m.tag|
    && got == (m.clear + m.tag)[5..5 + num]
    && context == ContextAt(suite, base, m.clear, 5 + num)
    && (suite.Secure? && 5 + num <= |m.clear| ==> Whole(5 + num, suite.cipher.blocksize))
  }

  /** The head of a sealed packet opens to the head of the clear packet. */
  lemma HeadOpens(suite: Suite, base: Context, m: Packet, w: seq<byte>)
    requires Sound(suite) && WellFormed(suite, m)
    requires |w| >= suite.HeadLen() && Continues(Sealed(suite, base, m).1, 0, w[..suite.HeadLen()])
    ensures |m.clear| >= suite.HeadLen()
    ensures Head(suite, base, w) == m.clear[..suite.HeadLen()]
    ensures suite.Secure? ==>
              suite.cipher.decrypt(base, w[..suite.cipher.blocksize]) ==
              (ContextAt(suite, base, m.clear, suite.cipher.blocksize), m.clear[..suite.cipher.blocksize])
    ensures Opening(suite, base, m, suite.HeadLen() - 5, ContextAt(suite, base, m.clear, suite.HeadLen()),
                    m.clear[5..suite.HeadLen()])
  {
    SealedLength(suite, base, m);
    var p := m.clear;
    assert (p + m.tag)[5..suite.HeadLen()] == p[5..suite.HeadLen()];
    if suite.Secure? {
      var c, bs := suite.cipher, suite.cipher.blocksize;
      RunSlice(c, base, p, 0, bs);
      var b := Run(c.encrypt, bs, base, p).1[0..bs];
      assert p[..0] == [];
      assert w[..bs] == b;
      RunSnoc(c.decrypt, bs, base, b, 0);
      assert b[..0] == [] && b[..0 + bs] == b && b[0..0 + bs] == b;
      assert [] + c.decrypt(base, b).1 == c.decrypt(base, b).1;
    }
  }

  /** `d` more bytes of the encrypted part, a whole number of blocks. */
  lemma MoreOpened(suite: Suite, base: Context, m: Packet, num: nat, context: Context, got: seq<byte>, d: nat)
    requires Sound(suite) && Opening(suite, base, m, num, context, got)
    requires suite.Secure? && 5 + num + d <= |m.clear| && Whole(d, suite.cipher.blocksize)
    ensures Opening(suite, base, m, num + d, ContextAt(suite, base, m.clear, 5 + num + d),
                    got + m.clear[5 + num..5 + num + d])
    ensures Whole(5 + num, suite.cipher.blocksize) && Whole(5 + num + d, suite.cipher.blocksize)
  {
    WholeSum(5 + num, d, suite.cipher.blocksize);
    JoinSlices(m.clear, m.tag, 5 + num, 5 + num + d);
  }

  /** They are what the cipher makes of the packet's next bytes. */
  lemma DecryptsTo(suite: Suite, base: Context, m: Packet, a: nat, b: nat)
    requires Sound(suite) && WellFormed(suite, m) && suite.Secure? && a <= b <= |m.clear|
    requires Whole(a, suite.cipher.blocksize) && Whole(b, suite.cipher.blocksize)
    ensures var c := suite.cipher;
            var w := Sealed(suite, base, m).1;
            && b <= |w|
            && Run(c.decrypt, c.blocksize, ContextAt(suite, base, m.clear, a), w[a..b])
               == (ContextAt(suite, base, m.clear, b), m.clear[a..b])
  {
    var c, p, w := suite.cipher, m.clear, Sealed(suite, base, m).1;
    SealedLength(suite, base, m);
    RunSlice(c, base, p, a, b);
    assert w[a..b] == Run(c.encrypt, c.blocksize, base, p).1[a..b];
    assert p[..b] == p[..if b < |p| then b else |p|];
  }

  lemma JoinSlices(p: seq<byte>, tag: seq<byte>, a: nat, b: nat)
    requires 5 <= a <= b <= |p|
    ensures (p + tag)[5..b] == (p + tag)[5..a] + p[a..b]
  {
  }

  lemma JoinParts(p: seq<byte>, a: nat, b: nat)
    requires 5 <= a <= b <= |p|
    ensures p[5..b] == p[5..a] + p[a..b]
  {
  }

  /** Taking `d` more bytes that are not encrypted: anything in the clear, and the tag. */
  lemma MoreCopied(suite: Suite, base: Context, m: Packet, num: nat, context: Context, got: seq<byte>, d: nat)
    requires Sound(suite) && Opening(suite, base, m, num, context, got)
    requires 5 + num + d <= |m.clear| + |m.tag| && (suite.Plain? || 5 + num >= |m.clear|)
    ensures var w := Sealed(suite, base, m).1;
            5 + num + d <= |w| && Opening(suite, base, m, num + d, context, got + w[5 + num..5 + num + d])
  {
    SealedLength(suite, base, m);
    CopiesTo(suite, base, m, 5 + num, 5 + num + d);
    assert suite.Secure? ==> m.clear[..|m.clear|] == m.clear[..if 5 + num < |m.clear| then 5 + num else |m.clear|];
    JoinParts(m.clear + m.tag, 5 + num, 5 + num + d);
  }

  lemma CopiesTo(suite: Suite, base: Context, m: Packet, a: nat, b: nat)
    requires Sound(suite) && WellFormed(suite, m) && a <= b <= |m.clear| + |m.tag| && (suite.Plain? || a >= |m.clear|)
    ensures b <= |Sealed(suite, base, m).1| && Sealed(suite, base, m).1[a..b] == (m.clear + m.tag)[a..b]
  {
    SealedLength(suite, base, m);
    if suite.Secure? {
      RunLength(suite.cipher.encrypt, suite.cipher.blocksize, base, m.clear);
      assert Sealed(suite, base, m).1[a..b] == m.tag[a - |m.clear|..b - |m.clear|];
    }
  }

  /** A packet opened to its last byte: header, clear body and tag are all there, and the context has moved past it. */
  lemma Complete(suite: Suite, base: Context, m: Packet, context: Context, got: seq<byte>)
    requires Sound(suite) && |m.clear| >= 5 && Opening(suite, base, m, |m.clear| - 5 + |m.tag|, context, got)
    ensures context == Sealed(suite, base, m).0
    ensures |got| == |m.clear| - 5 + |m.tag|
    ensures m.clear[..5] + got[..|m.clear| - 5] == m.clear
    ensures got[|m.clear| - 5..] == m.tag
    ensures got[..|m.Payload()|] == m.Payload()
  {
    var p := m.clear;
    assert p[..|p|] == p;
    assert got[..|p| - 5] == p[5..];
  }

  /** What the stream continues with inside its first packet is what the packet itself continues with. */
  lemma InsideFirst(suite: Suite, base: Context, rest: seq<Packet>, tail: seq<byte>, at: nat, k: nat)
    requires suite.HeadLen() > 0 && rest != [] && at + k <= |Sealed(suite, base, rest[0]).1|
    ensures at + k <= |Stream(suite, base, rest) + tail|
    ensures (Stream(suite, base, rest) + tail)[at..at + k] == Sealed(suite, base, rest[0]).1[at..at + k]
  {
    var w := Sealed(suite, base, rest[0]).1;
    var more := Stream(suite, Sealed(suite, base, rest[0]).0, rest[1..]);
    assert Stream(suite, base, rest) + tail == w + (more + tail);
  }

  /** Past its first packet, the stream is the stream of the others. */
  lemma PastFirst(suite: Suite, base: Context, rest: seq<Packet>, tail: seq<byte>, some: seq<byte>)
    requires suite.HeadLen() > 0 && rest != []
    requires Continues(Stream(suite, base, rest) + tail, |Sealed(suite, base, rest[0]).1|, some)
    ensures Continues(Stream(suite, Sealed(suite, base, rest[0]).0, rest[1..]) + tail, 0, some)
    ensures |Stream(suite, base, rest) + tail| ==
            |Sealed(suite, base, rest[0]).1| + |Stream(suite, Sealed(suite, base, rest[0]).0, rest[1..]) + tail|
  {
    var (s, w) := Sealed(suite, base, rest[0]);
    var v := Stream(suite, s, rest[1..]) + tail;
    assert Stream(suite, base, rest) + tail == w + v;
    assert v[0..|some|] == (w + v)[|w|..|w| + |some|];
  }

  lemma ContinuesSplit(w: seq<byte>, at: nat, x: seq<byte>, y: seq<byte>, k: nat)
    requires k <= |x| && Continues(w, at, x + y)
    ensures Continues(w, at, x[..k]) && Continues(w, at + k, x[k..] + y)
  {
    assert (x + y)[..k] == x[..k];
    assert (x + y)[k..] == x[k..] + y;
  }

  // ----- the reader's place in the stream

  /** A peer's stream: packets it framed properly, and nothing after them that the reader would accept. */
  ghost predicate GoodStream(suite: Suite, base: Context, rest: seq<Packet>, tail: seq<byte>) {
    Sound(suite) && AllWellFormed(suite, rest) && RefusedTail(suite, ContextAfter(suite, base, rest), tail)
  }

  /**
   * Everything the reader knows: the stream (`rest` and `tail` are still to come, `base` is where the cipher stood
   * before the packets and `last` where it will stand after them), the fields it set from the current packet's header,
   * what it has opened of that packet, and the bytes ahead: buffered, on the wire, or not sent yet.
   */
  datatype Place = Place(suite: Suite, base: Context, rest: seq<Packet>, tail: seq<byte>,
                         packetLength: int, paddingLength: nat, totalNum: nat, dataNum: nat, init: seq<byte>,
                         context: Context, got: seq<byte>, ahead: seq<byte>, last: Context)

  /** The fields set from the current packet's header. */
  ghost predicate HeaderRead(pl: Place) {
    && pl.rest != [] && pl.rest[0].Shaped()
    && pl.packetLength == |pl.rest[0].clear| - 4
    && pl.paddingLength == pl.rest[0].clear[4]
    && pl.totalNum == |pl.rest[0].clear| - 5 + |pl.rest[0].tag|
    && (pl.suite.Secure? ==> pl.init == pl.rest[0].clear[..5])
  }

  /** The reader is where the stream says it should be. */
  ghost predicate OnTrack(pl: Place) {
    && GoodStream(pl.suite, pl.base, pl.rest, pl.tail)
    && Continues(Stream(pl.suite, pl.base, pl.rest) + pl.tail, if pl.totalNum == 0 then 0 else 5 + pl.dataNum, pl.ahead)
    && (if pl.totalNum == 0 then 0 else 5 + pl.dataNum) + |pl.ahead| == |Stream(pl.suite, pl.base, pl.rest) + pl.tail|
    && ContextAfter(pl.suite, pl.base, pl.rest) == pl.last
    && (pl.totalNum == 0 ==> pl.context == pl.base)
    && (pl.totalNum > 0 ==> HeaderRead(pl) && Opening(pl.suite, pl.base, pl.rest[0], pl.dataNum, pl.context, pl.got))
  }

  /** The next `d` bytes are the packet's next bytes, and what follows them continues the stream. */
  lemma Ahead(suite: Suite, base: Context, rest: seq<Packet>, tail: seq<byte>, at: nat, raw: seq<byte>,
              wire: seq<byte>, d: nat)
    requires suite.HeadLen() > 0 && rest != [] && d <= |raw|
    requires at + d <= |Sealed(suite, base, rest[0]).1|
    requires Continues(Stream(suite, base, rest) + tail, at, raw + wire)
    ensures raw[..d] == Sealed(suite, base, rest[0]).1[at..at + d]
    ensures Continues(Stream(suite, base, rest) + tail, at + d, raw[d..] + wire)
  {
    ContinuesSplit(Stream(suite, base, rest) + tail, at, raw, wire, d);
    InsideFirst(suite, base, rest, tail, at, d);
  }

  /** The cipher of a reader on track keeps block sizes, and the lengths it handles are what `decrypt` asserts. */
  lemma LengthsInside(pl: Place)
    requires Holds(OnTrack, pl)
    ensures pl.suite.Plain? || 8 <= pl.suite.cipher.blocksize <= 32
    ensures pl.suite.Plain? || KeepsSize(pl.suite.cipher.decrypt, pl.suite.cipher.blocksize)
    ensures pl.suite.Plain? || pl.suite.macLen > 0
    ensures pl.totalNum > 0 ==>
              && pl.rest != []
              && pl.dataNum <= pl.totalNum
              && pl.totalNum - pl.suite.TagLen() == pl.packetLength - 1
              && (pl.suite.Secure? && pl.dataNum <= pl.totalNum - pl.suite.macLen ==>
                    Whole(pl.totalNum - pl.suite.macLen - pl.dataNum, pl.suite.cipher.blocksize))
  {
    Named(OnTrack, pl);
    if pl.suite.Secure? && pl.totalNum > 0 && pl.dataNum <= pl.totalNum - pl.suite.macLen {
      WholeDifference(5 + pl.dataNum, |pl.rest[0].clear|, pl.suite.cipher.blocksize);
    }
  }

  /** The same, of the place the reader has reached inside a packet. */
  lemma AheadInside(pl: Place, raw: seq<byte>, wire: seq<byte>, d: nat)
    requires Holds(OnTrack, pl) && pl.ahead == raw + wire && d <= |raw|
    requires pl.totalNum > 0 && pl.dataNum + d <= pl.totalNum
    ensures pl.rest != [] && pl.suite.HeadLen() > 0
    ensures 5 + pl.dataNum + d <= |Sealed(pl.suite, pl.base, pl.rest[0]).1|
    ensures raw[..d] == Sealed(pl.suite, pl.base, pl.rest[0]).1[5 + pl.dataNum..5 + pl.dataNum + d]
    ensures Continues(Stream(pl.suite, pl.base, pl.rest) + pl.tail, 5 + pl.dataNum + d, raw[d..] + wire)
  {
    Named(OnTrack, pl);
    SealedLength(pl.suite, pl.base, pl.rest[0]);
    Ahead(pl.suite, pl.base, pl.rest, pl.tail, 5 + pl.dataNum, raw, wire, d);
  }

  lemma AfterDecrypting(pl: Place, raw: seq<byte>, wire: seq<byte>, d: nat) returns (s: Context, more: seq<byte>)
    requires Holds(OnTrack, pl) && pl.ahead == raw + wire && d <= |raw|
    requires pl.totalNum > 0 && pl.suite.Secure? && pl.suite.cipher.blocksize > 0
    requires pl.dataNum + d <= pl.totalNum - pl.suite.macLen && Whole(d, pl.suite.cipher.blocksize)
    ensures (s, more) == Run(pl.suite.cipher.decrypt, pl.suite.cipher.blocksize, pl.context, raw[..d])
    ensures Holds(OnTrack, pl.(dataNum := pl.dataNum + d, context := s, got := pl.got + more, ahead := raw[d..] + wire))
  {
    AheadInside(pl, raw, wire, d);
    s, more := StretchDecrypted(pl, raw[..d]);
    Relocated(pl, d, s, more, raw[d..] + wire);
  }

  lemma StretchDecrypted(pl: Place, x: seq<byte>) returns (s: Context, more: seq<byte>)
    requires Holds(OnTrack, pl) && pl.totalNum > 0 && pl.rest != [] && pl.suite.HeadLen() > 0
    requires pl.suite.Secure? && pl.dataNum + |x| <= pl.totalNum - pl.suite.macLen
    requires Whole(|x|, pl.suite.cipher.blocksize)
    requires 5 + pl.dataNum + |x| <= |Sealed(pl.suite, pl.base, pl.rest[0]).1|
    requires x == Sealed(pl.suite, pl.base, pl.rest[0]).1[5 + pl.dataNum..5 + pl.dataNum + |x|]
    ensures (s, more) == Run(pl.suite.cipher.decrypt, pl.suite.cipher.blocksize, pl.context, x)
    ensures Opening(pl.suite, pl.base, pl.rest[0], pl.dataNum + |x|, s, pl.got + more)
  {
    Named(OnTrack, pl);
    s, more := BlocksOpened(pl.suite, pl.base, pl.rest[0], pl.dataNum, pl.context, pl.got, x);
  }

  lemma BlocksOpened(suite: Suite, base: Context, m: Packet, num: nat, context: Context, got: seq<byte>, x: seq<byte>)
    returns (s: Context, more: seq<byte>)
    requires Sound(suite) && Opening(suite, base, m, num, context, got)
    requires suite.Secure? && 5 + num + |x| <= |m.clear| && Whole(|x|, suite.cipher.blocksize)
    requires 5 + num + |x| <= |Sealed(suite, base, m).1| && x == Sealed(suite, base, m).1[5 + num..5 + num + |x|]
    ensures (s, more) == Run(suite.cipher.decrypt, suite.cipher.blocksize, context, x)
    ensures Opening(suite, base, m, num + |x|, s, got + more)
  {
    var from := 5 + num;
    s, more := ContextAt(suite, base, m.clear, from + |x|), m.clear[from..from + |x|];
    MoreOpened(suite, base, m, num, context, got, |x|);
    DecryptsTo(suite, base, m, from, from + |x|);
  }

  lemma Relocated(pl: Place, d: nat, s: Context, more: seq<byte>, ahead: seq<byte>)
    requires Holds(OnTrack, pl) && pl.totalNum > 0 && pl.suite.HeadLen() > 0 && pl.rest != []
    requires Opening(pl.suite, pl.base, pl.rest[0], pl.dataNum + d, s, pl.got + more)
    requires Continues(Stream(pl.suite, pl.base, pl.rest) + pl.tail, 5 + pl.dataNum + d, ahead)
    requires |ahead| + d == |pl.ahead|
    ensures Holds(OnTrack, pl.(dataNum := pl.dataNum + d, context := s, got := pl.got + more, ahead := ahead))
  {
    Named(OnTrack, pl);
    Named(OnTrack, pl.(dataNum := pl.dataNum + d, context := s, got := pl.got + more, ahead := ahead));
  }

  lemma AfterCopying(pl: Place, raw: seq<byte>, wire: seq<byte>, d: nat)
    requires Holds(OnTrack, pl) && pl.ahead == raw + wire && d <= |raw|
    requires pl.totalNum > 0 && pl.dataNum + d <= pl.totalNum
    requires pl.suite.Plain? || pl.dataNum >= pl.totalNum - pl.suite.macLen
    ensures Holds(OnTrack, pl.(dataNum := pl.dataNum + d, got := pl.got + raw[..d], ahead := raw[d..] + wire))
  {
    AheadInside(pl, raw, wire, d);
    StretchCopied(pl, raw[..d]);
    Relocated(pl, d, pl.context, raw[..d], raw[d..] + wire);
  }

  lemma StretchCopied(pl: Place, x: seq<byte>)
    requires Holds(OnTrack, pl) && pl.totalNum > 0 && pl.rest != [] && pl.suite.HeadLen() > 0
    requires pl.dataNum + |x| <= pl.totalNum && (pl.suite.Plain? || pl.dataNum >= pl.totalNum - pl.suite.macLen)
    requires 5 + pl.dataNum + |x| <= |Sealed(pl.suite, pl.base, pl.rest[0]).1|
    requires x == Sealed(pl.suite, pl.base, pl.rest[0]).1[5 + pl.dataNum..5 + pl.dataNum + |x|]
    ensures Opening(pl.suite, pl.base, pl.rest[0], pl.dataNum + |x|, pl.context, pl.got + x)
  {
    Named(OnTrack, pl);
    MoreCopied(pl.suite, pl.base, pl.rest[0], pl.dataNum, pl.context, pl.got, |x|);
  }

  /** The place reached by reading the header of the packet that comes next. */
  function Arrived(pl: Place, head: seq<byte>, context: Context, ahead: seq<byte>): Place
    requires |head| >= 5
  {
    if HeaderRefused(pl.suite, head) then pl else
      pl.(packetLength := SignedLength(head), paddingLength := head[4],
          totalNum := SignedLength(head) - 1 + pl.suite.TagLen(), dataNum := |head| - 5, init := head[..5],
          context := context, got := head[5..], ahead := ahead)
  }

  /** What the first block of the bytes ahead opens to. */
  lemma AfterHeader(pl: Place, raw: seq<byte>, wire: seq<byte>)
    requires Holds(OnTrack, pl) && pl.ahead == raw + wire && pl.totalNum == 0
    requires |raw| >= pl.suite.HeadLen() > 0
    ensures |Head(pl.suite, pl.context, raw)| == pl.suite.HeadLen() >= 5
    ensures var n, head := pl.suite.HeadLen(), Head(pl.suite, pl.context, raw);
            if pl.rest == [] then
              && HeaderRefused(pl.suite, head)
              && |pl.tail| >= n && head == Head(pl.suite, pl.last, pl.tail)
            else
              var s := if pl.suite.Plain? then pl.context else pl.suite.cipher.decrypt(pl.context, raw[..n]).0;
              && !HeaderRefused(pl.suite, head)
              && n - 5 < SignedLength(head) - 1 + pl.suite.TagLen()
              && Holds(OnTrack, Arrived(pl, head, s, raw[n..] + wire))
  {
    Named(OnTrack, pl);
    var n := pl.suite.HeadLen();
    var w := Stream(pl.suite, pl.base, pl.rest) + pl.tail;
    ContinuesSplit(w, 0, raw, wire, n);
    assert raw[..n] == w[..n];
    if pl.rest == [] {
      assert w == pl.tail;
      assert Head(pl.suite, pl.context, raw) == Head(pl.suite, pl.context, pl.tail);
    } else {
      SealedLength(pl.suite, pl.base, pl.rest[0]);
      InsideFirst(pl.suite, pl.base, pl.rest, pl.tail, 0, n);
      HeadOpens(pl.suite, pl.base, pl.rest[0], raw);
      HeaderAccepted(pl.suite, pl.rest[0], Head(pl.suite, pl.context, raw));
      Arriving(pl, raw, wire);
    }
  }

  lemma Arriving(pl: Place, raw: seq<byte>, wire: seq<byte>)
    requires OnTrack(pl) && pl.totalNum == 0 && pl.rest != [] && |raw| >= pl.suite.HeadLen() && pl.ahead == raw + wire
    requires Continues(Stream(pl.suite, pl.base, pl.rest) + pl.tail, pl.suite.HeadLen(),
                       raw[pl.suite.HeadLen()..] + wire)
    requires var m, n, head := pl.rest[0], pl.suite.HeadLen(), Head(pl.suite, pl.context, raw);
             && n <= |m.clear| && head == m.clear[..n] && !HeaderRefused(pl.suite, head)
             && SignedLength(head) == |m.clear| - 4 && head[4] == m.clear[4] && head[..5] == m.clear[..5]
             && Opening(pl.suite, pl.base, m, n - 5, ContextAt(pl.suite, pl.base, m.clear, n), m.clear[5..n])
             && (pl.suite.Secure? ==>
                   pl.suite.cipher.decrypt(pl.context, raw[..n]).0 == ContextAt(pl.suite, pl.base, m.clear, n))
    ensures var n, head := pl.suite.HeadLen(), Head(pl.suite, pl.context, raw);
            var s := if pl.suite.Plain? then pl.context else pl.suite.cipher.decrypt(pl.context, raw[..n]).0;
            Holds(OnTrack, Arrived(pl, head, s, raw[n..] + wire))
  {
    var n, head := pl.suite.HeadLen(), Head(pl.suite, pl.context, raw);
    var s := if pl.suite.Plain? then pl.context else pl.suite.cipher.decrypt(pl.context, raw[..n]).0;
    assert head[5..] == pl.rest[0].clear[5..n];
    Named(OnTrack, Arrived(pl, head, s, raw[n..] + wire));
  }

  /** In the clear the saved header bytes are not used. */
  lemma HeaderKept(pl: Place, init: seq<byte>)
    requires Holds(OnTrack, pl) && (pl.suite.Secure? ==> init == pl.init)
    ensures Holds(OnTrack, pl.(init := init))
  {
    Named(OnTrack, pl);
    Named(OnTrack, pl.(init := init));
  }

  lemma HeaderAccepted(suite: Suite, m: Packet, head: seq<byte>)
    requires Sound(suite) && WellFormed(suite, m) && 5 <= |head| <= |m.clear| && head == m.clear[..|head|]
    ensures SignedLength(head) == |m.clear| - 4 && head[4] == m.clear[4] && head[..5] == m.clear[..5]
    ensures !HeaderRefused(suite, head)
  {
  }

  /** Once a packet is complete its payload and its MAC check are there to be read off, and the next packet is due. */
  lemma AfterPacket(pl: Place)
    requires Holds(OnTrack, pl) && pl.totalNum > 0 && pl.dataNum == pl.totalNum
    ensures |pl.got| == pl.totalNum && pl.rest != []
    ensures 0 < pl.packetLength - 1 - pl.paddingLength <= pl.packetLength - 1 == pl.totalNum - pl.suite.TagLen()
    ensures pl.got[..pl.packetLength - 1 - pl.paddingLength] == pl.rest[0].Payload()
    ensures pl.suite.Secure? ==>
              && pl.init + pl.got[..pl.packetLength - 1] == pl.rest[0].clear
              && pl.got[pl.packetLength - 1..] == pl.rest[0].tag
    ensures Holds(OnTrack, pl.(base := pl.context, rest := pl.rest[1..], totalNum := 0))
  {
    NextDue(pl);
    Named(OnTrack, pl);
    Complete(pl.suite, pl.base, pl.rest[0], pl.context, pl.got);
  }

  lemma NextDue(pl: Place)
    requires Holds(OnTrack, pl) && pl.totalNum > 0 && pl.dataNum == pl.totalNum
    ensures pl.rest != [] && Holds(OnTrack, pl.(base := pl.context, rest := pl.rest[1..], totalNum := 0))
  {
    Named(OnTrack, pl);
    Complete(pl.suite, pl.base, pl.rest[0], pl.context, pl.got);
    SealedLength(pl.suite, pl.base, pl.rest[0]);
    PastFirst(pl.suite, pl.base, pl.rest, pl.tail, pl.ahead);
    Advanced(pl.suite, pl.base, pl.rest, pl.tail);
    assert ContextAfter(pl.suite, pl.context, pl.rest[1..]) == pl.last;
    Named(OnTrack, pl.(base := pl.context, rest := pl.rest[1..], totalNum := 0));
  }

  lemma GotIsUnused(pl: Place, got: seq<byte>)
    requires Holds(OnTrack, pl) && pl.totalNum == 0
    ensures Holds(OnTrack, pl.(got := got))
  {
    Named(OnTrack, pl);
    Named(OnTrack, pl.(got := got));
  }

  /** A complete packet's bytes are all there: those opened after its header are as many as the header announced. */
  lemma SealedSize(pl: Place)
    requires Holds(OnTrack, pl) && pl.rest != []
    ensures pl.suite.HeadLen() > 0
    ensures |Sealed(pl.suite, pl.base, pl.rest[0]).1| >= pl.suite.HeadLen()
    ensures pl.totalNum > 0 ==> |Sealed(pl.suite, pl.base, pl.rest[0]).1| == 5 + pl.totalNum
  {
    Named(OnTrack, pl);
    SealedLength(pl.suite, pl.base, pl.rest[0]);
  }

  lemma Advanced(suite: Suite, base: Context, rest: seq<Packet>, tail: seq<byte>)
    requires GoodStream(suite, base, rest, tail) && rest != []
    ensures GoodStream(suite, Sealed(suite, base, rest[0]).0, rest[1..], tail)
  {
  }

  /** Between packets or inside one, too few received bytes do not make the packet whole. */
  lemma NotWholeYet(pl: Place, received: nat)
    requires Holds(OnTrack, pl) && pl.rest != []
    requires if pl.totalNum == 0 then received < pl.suite.HeadLen() else received < pl.totalNum - pl.dataNum
    ensures pl.suite.HeadLen() > 0
    ensures (if pl.totalNum == 0 then 0 else 5 + pl.dataNum) + received < |Sealed(pl.suite, pl.base, pl.rest[0]).1|
  {
    Named(OnTrack, pl);
    SealedLength(pl.suite, pl.base, pl.rest[0]);
  }

  lemma OnTrackInitially(pl: Place)
    requires GoodStream(pl.suite, pl.base, pl.rest, pl.tail)
    requires pl.context == pl.base && pl.totalNum == 0
    requires pl.ahead == Stream(pl.suite, pl.base, pl.rest) + pl.tail
    requires pl.last == ContextAfter(pl.suite, pl.base, pl.rest)
    ensures Holds(OnTrack, pl)
  {
    Named(OnTrack, pl);
  }

  /** A packet still to come is all there in the bytes ahead. */
  lemma AllAhead(pl: Place)
    requires Holds(OnTrack, pl) && pl.rest != []
    ensures pl.suite.HeadLen() > 0
    ensures (if pl.totalNum == 0 then 0 else 5 + pl.dataNum) + |pl.ahead| >= |Sealed(pl.suite, pl.base, pl.rest[0]).1|
  {
    Named(OnTrack, pl);
  }

  /** One more packet to come, behind all the others. */
  lemma Lengthened(pl: Place, m: Packet)
    requires Holds(OnTrack, pl) && pl.tail == [] && Sound(pl.suite) && WellFormed(pl.suite, m)
    ensures var (s, x) := Sealed(pl.suite, pl.last, m);
            Holds(OnTrack, pl.(rest := pl.rest + [m], last := s, ahead := pl.ahead + x))
  {
    Named(OnTrack, pl);
    var (s, x) := Sealed(pl.suite, pl.last, m);
    StreamSnoc(pl.suite, pl.base, pl.rest, m);
    ContinuesLonger(Stream(pl.suite, pl.base, pl.rest), if pl.totalNum == 0 then 0 else 5 + pl.dataNum, pl.ahead, x);
    GoodStreamLonger(pl.suite, pl.base, pl.rest, m);
    assert pl.rest != [] ==> (pl.rest + [m])[0] == pl.rest[0];
    Named(OnTrack, pl.(rest := pl.rest + [m], last := s, ahead := pl.ahead + x));
  }

  lemma GoodStreamLonger(suite: Suite, base: Context, rest: seq<Packet>, m: Packet)
    requires GoodStream(suite, base, rest, []) && WellFormed(suite, m)
    ensures GoodStream(suite, base, rest + [m], [])
  {
  }

  lemma ContinuesLonger(w: seq<byte>, at: nat, y: seq<byte>, x: seq<byte>)
    requires Continues(w + [], at, y) && at + |y| == |w + []|
    ensures Continues((w + x) + [], at, y + x) && at + |y + x| == |(w + x) + []|
  {
    assert w + [] == w && (w + x) + [] == w + x;
    assert (w + x)[at..] == w[at..] + x;
  }
}
