/** The binary packet protocol (section 6 of RFC 4253): what a run of packets looks like on the wire. */
module Framing {
  import opened Bytes
  import opened Ciphers

  const PACKETBUFSIZE := 16384
  const MAXPAYLOAD := 40000
  const TWO_TO_THE_31 := 0x8000_0000

  // Before NEWKEYS nothing is encrypted; afterwards a cipher and a MAC over (sequence number, clear packet) apply.
  datatype Suite = Plain | Secure(cipher: Cipher, macLen: nat, mac: (nat, seq<byte>) -> seq<byte>) {
    function TagLen(): nat { if Plain? then 0 else macLen }

    // How many bytes the reader needs before it can see a packet's length.
    function HeadLen(): nat { if Plain? then 5 else cipher.blocksize }

    // The multiple to which the writer pads.
    function PadUnit(): nat { if Plain? then 8 else cipher.blocksize }
  }

  ghost predicate Sound(suite: Suite) {
    suite.Secure? ==>
      && Lockstep(suite.cipher)
      && 12 <= suite.macLen <= 20
      && forall n: nat, p: seq<byte> :: |suite.mac(n, p)| == suite.macLen
  }

  /**
   * One packet: everything from its length field to its padding, before encryption, and the tag that follows it in
   * clear.
   */
  datatype Packet = Packet(clear: seq<byte>, tag: seq<byte>) {
    predicate Shaped() { |clear| >= 5 && 5 + clear[4] <= |clear| }

    function Payload(): seq<byte> { if Shaped() then clear[5..|clear| - clear[4]] else [] }
  }

  /** What section 6 of RFC 4253 and the reader's size limit ask of a packet. */
  predicate WellFormed(suite: Suite, m: Packet)
    requires suite.HeadLen() > 0
  {
    && m.Shaped()
    && Ntohu32(m.clear) == |m.clear| - 4
    && |m.Payload()| >= 1 && 4 <= m.clear[4]
    && |m.tag| == suite.TagLen()
    && |m.clear| - 5 + suite.TagLen() <= MAXPAYLOAD
    && (suite.Secure? ==> Whole(|m.clear|, suite.cipher.blocksize))
  }

  predicate Authentic(suite: Suite, seqno: nat, m: Packet) {
    suite.Secure? ==> m.tag == suite.mac(seqno, m.clear)
  }

  /** The cipher context after the first `n` bytes of a clear packet (its tag leaves the context alone). */
  function ContextAt(suite: Suite, base: Context, p: seq<byte>, n: nat): Context
    requires suite.HeadLen() > 0
  {
    if suite.Plain? then base
    else Run(suite.cipher.encrypt, suite.cipher.blocksize, base, p[..if n < |p| then n else |p|]).0
  }

  /** The packet as sent, with the context it leaves behind. */
  function Sealed(suite: Suite, base: Context, m: Packet): (Context, seq<byte>)
    requires suite.HeadLen() > 0
  {
    if suite.Plain? then (base, m.clear + m.tag)
    else
      var (s, body) := Run(suite.cipher.encrypt, suite.cipher.blocksize, base, m.clear);
      (s, body + m.tag)
  }

  function Stream(suite: Suite, base: Context, ms: seq<Packet>): seq<byte>
    requires suite.HeadLen() > 0
    decreases |ms|
  {
    if ms == [] then [] else
      Sealed(suite, base, ms[0]).1 + Stream(suite, Sealed(suite, base, ms[0]).0, ms[1..])
  }

  function ContextAfter(suite: Suite, base: Context, ms: seq<Packet>): Context
    requires suite.HeadLen() > 0
    decreases |ms|
  {
    if ms == [] then base else ContextAfter(suite, Sealed(suite, base, ms[0]).0, ms[1..])
  }

  ghost predicate AllWellFormed(suite: Suite, ms: seq<Packet>)
    requires suite.HeadLen() > 0
  {
    forall i | 0 <= i < |ms| :: WellFormed(suite, ms[i])
  }

  function Payloads(ms: seq<Packet>): (ps: seq<seq<byte>>)
    ensures |ps| == |ms|
    ensures forall i | 0 <= i < |ms| :: ps[i] == ms[i].Payload()
  {
    seq(|ms|, i requires 0 <= i < |ms| => ms[i].Payload())
  }

  lemma {:induction false} StreamAppend(suite: Suite, base: Context, ms: seq<Packet>, more: seq<Packet>)
    requires suite.HeadLen() > 0
    ensures Stream(suite, base, ms + more) ==
              Stream(suite, base, ms) + Stream(suite, ContextAfter(suite, base, ms), more)
    ensures ContextAfter(suite, base, ms + more) == ContextAfter(suite, ContextAfter(suite, base, ms), more)
    decreases |ms|
  {
    if ms == [] {
      assert ms + more == more;
    } else {
      var (s, x) := Sealed(suite, base, ms[0]);
      StreamAppend(suite, s, ms[1..], more);
      assert (ms + more)[1..] == ms[1..] + more;
      var y, z := Stream(suite, s, ms[1..]), Stream(suite, ContextAfter(suite, base, ms), more);
      assert x + (y + z) == (x + y) + z;
    }
  }

  lemma StreamSnoc(suite: Suite, base: Context, ms: seq<Packet>, m: Packet)
    requires suite.HeadLen() > 0
    ensures Stream(suite, base, ms + [m]) == Stream(suite, base, ms) + Sealed(suite, ContextAfter(suite, base, ms), m).1
    ensures ContextAfter(suite, base, ms + [m]) == Sealed(suite, ContextAfter(suite, base, ms), m).0
  {
    StreamAppend(suite, base, ms, [m]);
    assert Sealed(suite, ContextAfter(suite, base, ms), m).1 + [] == Sealed(suite, ContextAfter(suite, base, ms), m).1;
  }

  lemma SealedLength(suite: Suite, base: Context, m: Packet)
    requires Sound(suite) && WellFormed(suite, m)
    ensures |Sealed(suite, base, m).1| == |m.clear| + |m.tag|
    ensures |m.clear| >= suite.HeadLen()
  {
    if suite.Secure? {
      RunLength(suite.cipher.encrypt, suite.cipher.blocksize, base, m.clear);
    }
  }

  // ----- the padding rule

  /** The writer's padding for a payload of `n` bytes. */
  function PadLen(unit: nat, n: nat): (pad: nat)
    requires unit > 0
  {
    var pad := unit - (n + 5) % unit;
    if pad < 4 then pad + unit else pad
  }

  predicate Fills(unit: nat, n: nat, pad: nat)
    requires unit > 0
  {
    Whole(5 + n + pad, unit)
  }

  /** It is the least padding of at least four bytes that fills the last block, and its length fits one octet. */
  lemma PaddingRule(unit: nat, n: nat)
    requires 4 <= unit <= 32
    ensures 4 <= PadLen(unit, n) < unit + 4
    ensures Fills(unit, n, PadLen(unit, n))
    ensures forall k: nat | 4 <= k && Fills(unit, n, k) :: PadLen(unit, n) <= k
  {
    PaddingFills(unit, n);
    forall k: nat | 4 <= k && Fills(unit, n, k)
      ensures PadLen(unit, n) <= k
    {
      if k < PadLen(unit, n) {
        WholeDifference(5 + n + k, 5 + n + PadLen(unit, n), unit);
      }
    }
  }

  lemma PaddingFills(unit: nat, n: nat)
    requires 4 <= unit <= 32
    ensures 4 <= PadLen(unit, n) < unit + 4
    ensures Fills(unit, n, PadLen(unit, n))
  {
    WithoutRemainder(n + 5, unit);
    var whole := n + 5 - (n + 5) % unit;
    assert Whole(unit, unit) && Whole(unit + unit, unit);
    WholeSum(whole, unit, unit);
    WholeSum(whole, unit + unit, unit);
  }

  // ----- headers the reader refuses

  /** The first four octets as the C `int` they are stored in. */
  function SignedLength(head: seq<byte>): int
    requires |head| >= 4
  {
    var n := Ntohu32(head);
    if n < TWO_TO_THE_31 then n else n - TWO_TO_THE_32
  }

  predicate HeaderTooBig(suite: Suite, head: seq<byte>)
    requires |head| >= 4
  {
    SignedLength(head) - 1 + suite.TagLen() > MAXPAYLOAD
  }

  predicate HeaderRefused(suite: Suite, head: seq<byte>)
    requires |head| >= 4
  {
    SignedLength(head) < 1 || HeaderTooBig(suite, head)
  }

  /** The first block of `bytes` in clear. */
  function Head(suite: Suite, base: Context, bytes: seq<byte>): (head: seq<byte>)
    requires suite.HeadLen() > 0 && |bytes| >= suite.HeadLen()
  {
    if suite.Plain? then bytes[..5] else suite.cipher.decrypt(base, bytes[..suite.cipher.blocksize]).1
  }

  /** What may follow the well-formed packets: nothing, or bytes whose header is refused once it is complete. */
  ghost predicate RefusedTail(suite: Suite, base: Context, tail: seq<byte>)
    requires Sound(suite)
  {
    |tail| >= suite.HeadLen() ==>
      && HeaderRefused(suite, Head(suite, base, tail))
      && SignedLength(Head(suite, base, tail)) + suite.TagLen() <= TWO_TO_THE_31
  }
}
