/** aes_ctr_do_cipher: counter mode over any block function (section 4 of RFC 4344). */
module Ctr {
  import opened Bits
  import opened Bytes
  import opened Ciphers

  const AES_BLOCK_SIZE := 16
  const TWO_TO_THE_128 := 0x1_0000_0000_0000_0000_0000_0000_0000_0000

  function XorByte(a: byte, b: byte): (r: byte) {
    assert Pow2(8) == 256;
    XorBound(a, b, 8);
    Xor(a, b)
  }

  function XorBytes(x: seq<byte>, mask: seq<byte>): (y: seq<byte>)
    requires |x| == |mask|
    ensures |y| == |x|
  {
    seq(|x|, i requires 0 <= i < |x| => XorByte(x[i], mask[i]))
  }

  /** The number a big-endian counter denotes. */
  function Value(s: seq<byte>): nat {
    if s == [] then 0 else Value(s[..|s| - 1]) * 256 + s[|s| - 1]
  }

  /** Four octets denote what they denote in a message. */
  lemma ValueOfFour(a: byte, b: byte, c: byte, d: byte)
    ensures Value([a, b, c, d]) == Ntohu32([a, b, c, d])
  {
    ValueAppend([], a);
    ValueAppend([a], b);
    ValueAppend([a, b], c);
    ValueAppend([a, b, c], d);
    NtohuShifts(0, 0, 0, a);
    NtohuShifts(0, 0, a, b);
    NtohuShifts(0, a, b, c);
    NtohuShifts(a, b, c, d);
    assert [] + [a] == [a] && [a] + [b] == [a, b] && [a, b] + [c] == [a, b, c] && [a, b, c] + [d] == [a, b, c, d];
  }

  lemma ValueAppend(s: seq<byte>, b: byte)
    ensures Value(s + [b]) == 256 * Value(s) + b
  {
    assert (s + [b])[..|s|] == s;
  }

  function Pow256(n: nat): (p: nat)
    ensures p > 0
  {
    if n == 0 then 1 else 256 * Pow256(n - 1)
  }

  /** The counter after one increment: carry through trailing 0xFF octets, wrapping at the end. */
  function Increment(s: seq<byte>): (r: seq<byte>)
    ensures |r| == |s|
  {
    if s == [] then [] else
      var last := s[|s| - 1];
      if last == 0xFF then Increment(s[..|s| - 1]) + [0] else s[..|s| - 1] + [last + 1]
  }

  lemma {:induction false} ValueBound(s: seq<byte>)
    ensures Value(s) < Pow256(|s|)
  {
    if s != [] {
      ValueBound(s[..|s| - 1]);
    }
  }

  /** Incrementing adds one, modulo the counter's range. */
  lemma {:induction false} IncrementAddsOne(s: seq<byte>)
    ensures Value(Increment(s)) == if Value(s) + 1 == Pow256(|s|) then 0 else Value(s) + 1
  {
    if s != [] {
      var front, last, r := s[..|s| - 1], s[|s| - 1], Increment(s);
      ValueBound(front);
      IncrementAddsOne(front);
      assert r[..|r| - 1] == if last == 0xFF then Increment(front) else front;
    }
  }

  /** One block under counter mode: mask it with the encrypted counter, then step the counter. */
  function CtrStep(aes: seq<byte> -> seq<byte>, counter: Context, block: seq<byte>): (Context, seq<byte>) {
    (Increment(counter), if |aes(counter)| == |block| then XorBytes(block, aes(counter)) else [])
  }

  /** Counter mode as a cipher: both directions are the same step. */
  function CtrCipher(aes: seq<byte> -> seq<byte>): Cipher {
    Cipher(AES_BLOCK_SIZE, (s, b) => CtrStep(aes, s, b), (s, b) => CtrStep(aes, s, b))
  }

  /** For any block function, two counter-mode contexts started alike stay in lockstep: the transport may use them. */
  lemma CtrIsLockstep(aes: seq<byte> -> seq<byte>)
    requires forall s: seq<byte> :: |aes(s)| == AES_BLOCK_SIZE
    ensures Lockstep(CtrCipher(aes))
  {
    forall s: Context, b: seq<byte> | |b| == AES_BLOCK_SIZE
      ensures XorBytes(XorBytes(b, aes(s)), aes(s)) == b
    {
      XorBytesTwice(b, aes(s));
    }
  }

  lemma XorBytesTwice(x: seq<byte>, mask: seq<byte>)
    requires |x| == |mask|
    ensures XorBytes(XorBytes(x, mask), mask) == x
  {
    forall i | 0 <= i < |x|
      ensures XorBytes(XorBytes(x, mask), mask)[i] == x[i]
    {
      XorTwice(x[i], mask[i]);
    }
  }

  /** A mask changes exactly the bits it has set. */
  lemma XorByteBit(a: byte, b: byte, k: nat)
    ensures Bit(XorByte(a, b), k) <==> Bit(a, k) != Bit(b, k)
  {
    XorBit(a, b, k);
  }

  function Steps(counter: Context, k: nat): (c: Context)
    ensures |c| == |counter|
  {
    if k == 0 then counter else Increment(Steps(counter, k - 1))
  }

  /** After `k` blocks the counter denotes its initial value plus `k`, modulo two to the 128. */
  lemma {:induction false} CounterAfter(counter: Context, k: nat)
    requires |counter| == AES_BLOCK_SIZE
    ensures Value(Steps(counter, k)) == (Value(counter) + k) % TWO_TO_THE_128
  {
    RangeOfCounter();
    ValueBound(counter);
    if k > 0 {
      CounterAfter(counter, k - 1);
      IncrementAddsOne(Steps(counter, k - 1));
      OneMore(Value(counter) + k - 1);
    }
  }

  /** No two counters of a length denote the same number. */
  lemma {:induction false} SameValue(x: seq<byte>, y: seq<byte>)
    requires |x| == |y| && Value(x) == Value(y)
    ensures x == y
  {
    if x != [] {
      var n := |x| - 1;
      Digits(Value(x[..n]), x[n], Value(y[..n]), y[n]);
      SameValue(x[..n], y[..n]);
      assert x == x[..n] + [x[n]] && y == y[..n] + [y[n]];
    }
  }

  lemma Digits(a: nat, b: byte, c: nat, d: byte)
    requires a * 256 + b == c * 256 + d
    ensures a == c && b == d
  {
  }

  /** Block `k` of `y` is block `k` of `p`, masked. */
  predicate BlockMasked(y: seq<byte>, p: seq<byte>, k: nat, mask: seq<byte>) {
    && |y| == |p| && 16 * k + 16 <= |p| && |mask| == 16
    && forall j | 0 <= j < 16 :: y[16 * k + j] == XorByte(p[16 * k + j], mask[j])
  }

  lemma LaterBlock(first: seq<byte>, others: seq<byte>, p: seq<byte>, k: nat, mask: seq<byte>)
    requires |first| == 16 <= |p| && k > 0 && BlockMasked(others, p[16..], k - 1, mask)
    ensures BlockMasked(first + others, p, k, mask)
  {
    forall j | 0 <= j < 16
      ensures (first + others)[16 * k + j] == XorByte(p[16 * k + j], mask[j])
    {
      var at := 16 * (k - 1) + j;
      assert (first + others)[16 * k + j] == others[at] && p[16 * k + j] == p[16..][at];
    }
  }

  /**
   * Section 4 of RFC 4344: block `k` of what counter mode makes of `p` is block `k` of `p`, masked with the encryption
   * of the one counter `x` that denotes the initial value plus `k`, modulo two to the 128.
   */
  lemma {:induction false} MaskedWithCounter(aes: seq<byte> -> seq<byte>, counter: Context, p: seq<byte>, k: nat,
                                             x: seq<byte>)
    requires forall s: seq<byte> :: |aes(s)| == 16
    requires |counter| == |x| == 16 && Value(x) == (Value(counter) + k) % TWO_TO_THE_128
    requires Whole(|p|, 16) && 16 * k + 16 <= |p|
    ensures BlockMasked(Run(CtrCipher(aes).encrypt, 16, counter, p).1, p, k, aes(x))
    decreases k
  {
    var next, first, others := CtrFirst(aes, counter, p);
    if k == 0 {
      ValueFits(counter);
      SameValue(x, counter);
      FirstBlock(first, others, p, aes(x));
    } else {
      StepsAhead(Value(counter), Value(next), k);
      MaskedWithCounter(aes, next, p[16..], k - 1, x);
      LaterBlock(first, others, p, k, aes(x));
    }
  }

  lemma FirstBlock(first: seq<byte>, others: seq<byte>, p: seq<byte>, mask: seq<byte>)
    requires |p| >= 16 == |mask| && first == XorBytes(p[..16], mask) && |first + others| == |p|
    ensures BlockMasked(first + others, p, 0, mask)
  {
  }

  /** The first block, and the run over the others from the next counter. */
  lemma CtrFirst(aes: seq<byte> -> seq<byte>, counter: Context, p: seq<byte>)
    returns (next: Context, first: seq<byte>, others: seq<byte>)
    requires forall s: seq<byte> :: |aes(s)| == 16
    requires |counter| == 16 && Whole(|p|, 16) && |p| >= 16
    ensures |next| == 16 && Value(next) == (Value(counter) + 1) % TWO_TO_THE_128
    ensures first == XorBytes(p[..16], aes(counter)) && others == Run(CtrCipher(aes).encrypt, 16, next, p[16..]).1
    ensures Run(CtrCipher(aes).encrypt, 16, counter, p).1 == first + others && |first + others| == |p|
  {
    CtrIsLockstep(aes);
    var f := CtrCipher(aes).encrypt;
    RunLength(f, 16, counter, p);
    next, first := f(counter, p[..16]).0, f(counter, p[..16]).1;
    others := Run(f, 16, next, p[16..]).1;
    CounterAfter(counter, 1);
    assert Steps(counter, 1) == Increment(Steps(counter, 0)) == next;
  }

  lemma ValueFits(counter: Context)
    requires |counter| == 16
    ensures Value(counter) < TWO_TO_THE_128 && Value(counter) % TWO_TO_THE_128 == Value(counter)
  {
    RangeOfCounter();
    ValueBound(counter);
  }

  lemma StepsAhead(v: nat, next: nat, k: nat)
    requires k > 0 && next == (v + 1) % TWO_TO_THE_128
    ensures (next + (k - 1)) % TWO_TO_THE_128 == (v + k) % TWO_TO_THE_128
  {
  }

  lemma OneMore(n: nat)
    ensures var r := n % TWO_TO_THE_128;
            (n + 1) % TWO_TO_THE_128 == if r + 1 == TWO_TO_THE_128 then 0 else r + 1
  {
  }

  lemma RangeOfCounter()
    ensures Pow256(AES_BLOCK_SIZE) == TWO_TO_THE_128
  {
    assert Pow256(4) == 0x1_0000_0000;
    assert Pow256(8) == 0x1_0000_0000_0000_0000;
    assert Pow256(12) == 0x1_0000_0000_0000_0000_0000_0000;
  }

  class AesCtrContext {
    const aes: seq<byte> -> seq<byte>  // AES_encrypt under this context's key
    const ctr: array<byte>

    constructor (aes: seq<byte> -> seq<byte>, iv: seq<byte>)
      requires |iv| == AES_BLOCK_SIZE
      ensures this.aes == aes && fresh(ctr) && ctr[..] == iv
    {
      this.aes := aes;
      ctr := new byte[AES_BLOCK_SIZE](i requires 0 <= i < |iv| => iv[i]);
    }

    /** Encrypts or decrypts one block; anything but one block is refused. */
    method DoCipher(input: seq<byte>) returns (ok: bool, out: seq<byte>)
      requires ctr.Length == AES_BLOCK_SIZE && forall s: seq<byte> :: |aes(s)| == AES_BLOCK_SIZE
      modifies ctr
      ensures ok <==> |input| == AES_BLOCK_SIZE
      ensures ok ==>
                && |out| == 16 && (forall j | 0 <= j < 16 :: out[j] == XorByte(input[j], aes(old(ctr[..]))[j]))
                && Value(ctr[..]) == (old(Value(ctr[..])) + 1) % TWO_TO_THE_128
      ensures ok ==> (ctr[..], out) == CtrCipher(aes).encrypt(old(ctr[..]), input)
      ensures !ok ==> ctr[..] == old(ctr[..])
    {
      out := [];
      if |input| != AES_BLOCK_SIZE {
        return false, out;
      }
      var b1 := aes(ctr[..]);
      for i := 0 to AES_BLOCK_SIZE
        invariant |out| == i
        invariant forall j | 0 <= j < i :: out[j] == XorByte(input[j], b1[j])
      {
        out := out + [XorByte(input[i], b1[i])];
      }
      assert out == XorBytes(input, b1);
      CounterAfter(ctr[..], 1);
      assert Steps(ctr[..], 1) == Increment(Steps(ctr[..], 0)) == Increment(ctr[..]);
      StepCounter();
      ok := true;
    }

    method StepCounter()
      requires ctr.Length > 0
      modifies ctr
      ensures ctr[..] == Increment(old(ctr[..]))
    {
      var i := ctr.Length - 1;
      ghost var before, whole := ctr[..], Increment(ctr[..]);
      assert before[..i + 1] == before && whole + [] == whole;
      while true
        invariant 0 <= i < ctr.Length
        invariant ctr[..i + 1] == before[..i + 1]
        invariant whole == Increment(before[..i + 1]) + ctr[i + 1..]
        decreases i
      {
        var was: int := ctr[i];
        ghost var tail := ctr[i + 1..];
        Carry(before, i, tail, whole);
        ctr[i] := (was + 1) % 256;
        assert before[i] == before[..i + 1][i] == was;
        assert ctr[..i] == before[..i] && ctr[i..] == [ctr[i]] + tail;
        if was != 0xFF || i == 0 {
          assert ctr[..] == ctr[..i] + ctr[i..];
          break;
        }
        i := i - 1;
      }
    }
  }

  /** Incrementing stops at the last octet below 0xFF, or carries past it. */
  lemma Carry(s: seq<byte>, i: nat, tail: seq<byte>, whole: seq<byte>)
    requires i < |s| && whole == Increment(s[..i + 1]) + tail
    ensures s[i] == 0xFF ==> whole == Increment(s[..i]) + ([0] + tail)
    ensures s[i] < 0xFF ==> whole == s[..i] + ([s[i] + 1] + tail)
  {
    var r, front := s[..i + 1], s[..i];
    assert r[..|r| - 1] == front && r[|r| - 1] == s[i];
    if s[i] == 0xFF {
      assert (Increment(front) + [0]) + tail == Increment(front) + ([0] + tail);
    } else {
      assert (front + [s[i] + 1]) + tail == front + ([s[i] + 1] + tail);
    }
  }
}
