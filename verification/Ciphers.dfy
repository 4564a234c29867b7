/** Stateful block ciphers, as the transport sees them: a context and a step on one block. */
module Ciphers {
  import opened Bytes

  // Everything a cipher remembers between blocks: a chaining block, a counter, an RC4 table.
  type Context = seq<byte>
  type Step = (Context, seq<byte>) -> (Context, seq<byte>)

  datatype Cipher = Cipher(blocksize: nat, encrypt: Step, decrypt: Step)

  /** Blocks keep their size under `f`. */
  ghost predicate KeepsSize(f: Step, bs: nat) {
    forall s: Context, b: seq<byte> | |b| == bs :: |f(s, b).1| == bs
  }

  /** `decrypt`, run from the context `encrypt` started from, undoes the block and arrives at the same context. */
  ghost predicate Undoes(c: Cipher) {
    forall s: Context, b: seq<byte> | |b| == c.blocksize :: c.decrypt(s, c.encrypt(s, b).1) == (c.encrypt(s, b).0, b)
  }

  /** The two directions stay in step, block after block, from any common context. */
  ghost predicate Lockstep(c: Cipher) {
    8 <= c.blocksize <= 32 && KeepsSize(c.encrypt, c.blocksize) && KeepsSize(c.decrypt, c.blocksize) && Undoes(c)
  }

  /** Runs `f` over the whole blocks of `p`, threading the context through them. */
  function Run(f: Step, bs: nat, s: Context, p: seq<byte>): (Context, seq<byte>)
    requires bs > 0
    decreases |p|
  {
    if |p| < bs then (s, []) else
      var (s1, first) := f(s, p[..bs]);
      var (s2, others) := Run(f, bs, s1, p[bs..]);
      (s2, first + others)
  }

  /** `n` bytes are a whole number of blocks. */
  predicate Whole(n: nat, bs: nat)
    requires bs > 0
    decreases n
  {
    n == 0 || (n >= bs && Whole(n - bs, bs))
  }

  lemma {:induction false} WholeSum(a: nat, b: nat, bs: nat)
    requires bs > 0 && Whole(a, bs) && Whole(b, bs)
    ensures Whole(a + b, bs)
    decreases a
  {
    if a > 0 {
      WholeSum(a - bs, b, bs);
    }
  }

  lemma {:induction false} WholeDifference(a: nat, b: nat, bs: nat)
    requires bs > 0 && Whole(a, bs) && Whole(b, bs) && a <= b
    ensures Whole(b - a, bs)
    decreases a
  {
    if a > 0 {
      WholeDifference(a - bs, b - bs, bs);
    }
  }

  /** The same, as the C code asks it. */
  lemma {:induction false} WholeIsNoRemainder(n: nat, bs: nat)
    requires bs > 0
    ensures Whole(n, bs) <==> n % bs == 0
    decreases n
  {
    if n >= bs {
      WholeIsNoRemainder(n - bs, bs);
      RemainderMinusBlock(n, bs);
    }
  }

  lemma RemainderMinusBlock(n: nat, bs: nat)
    requires 0 < bs <= n
    ensures (n - bs) % bs == n % bs
  {
    var m := n - bs;
    assert n == (n / bs) * bs + n % bs && m == (m / bs) * bs + m % bs;
    QuotientIsUnique(n / bs - 1 - m / bs, bs, m % bs - n % bs);
  }

  lemma QuotientIsUnique(d: int, bs: int, e: int)
    requires bs > 0 && d * bs == e && -bs < e < bs
    ensures d == 0 && e == 0
  {
    assert d >= 1 ==> d * bs >= bs;
    assert d <= -1 ==> d * bs <= -bs;
  }

  /** Dropping the remainder leaves whole blocks. */
  lemma WithoutRemainder(n: nat, bs: nat)
    requires bs > 0
    ensures n % bs <= n && Whole(n - n % bs, bs)
    decreases n
  {
    if n >= bs {
      RemainderMinusBlock(n, bs);
      WithoutRemainder(n - bs, bs);
    }
  }

  lemma {:induction false} RunLength(f: Step, bs: nat, s: Context, p: seq<byte>)
    requires bs > 0 && KeepsSize(f, bs) && Whole(|p|, bs)
    ensures |Run(f, bs, s, p).1| == |p|
    decreases |p|
  {
    if |p| > 0 {
      RunLength(f, bs, f(s, p[..bs]).0, p[bs..]);
    }
  }

  lemma RunFirst(f: Step, bs: nat, s: Context, b: seq<byte>, p: seq<byte>)
    requires bs > 0 && |b| == bs
    ensures Run(f, bs, s, b + p) == (Run(f, bs, f(s, b).0, p).0, f(s, b).1 + Run(f, bs, f(s, b).0, p).1)
  {
    assert (b + p)[..bs] == b && (b + p)[bs..] == p;
  }

  /** A run over two stretches is the run over the first, continued over the second. */
  lemma {:induction false} RunAppend(f: Step, bs: nat, s: Context, x: seq<byte>, y: seq<byte>)
    requires bs > 0 && Whole(|x|, bs)
    ensures Run(f, bs, s, x + y) ==
            (Run(f, bs, Run(f, bs, s, x).0, y).0, Run(f, bs, s, x).1 + Run(f, bs, Run(f, bs, s, x).0, y).1)
    decreases |x|
  {
    if |x| == 0 {
      assert x + y == y;
      assert Run(f, bs, s, x) == (s, []);
      assert [] + Run(f, bs, s, y).1 == Run(f, bs, s, y).1;
    } else {
      var b, others := x[..bs], x[bs..];
      var s1 := f(s, b).0;
      assert x == b + others;
      Regroup(b, others, y);
      RunFirst(f, bs, s, b, others);
      RunFirst(f, bs, s, b, others + y);
      RunAppend(f, bs, s1, others, y);
      Regroup(f(s, b).1, Run(f, bs, s1, others).1, Run(f, bs, Run(f, bs, s, x).0, y).1);
    }
  }

  /** Running one block further. */
  lemma RunSnoc(f: Step, bs: nat, s: Context, p: seq<byte>, i: nat)
    requires bs > 0 && KeepsSize(f, bs) && Whole(i, bs) && i + bs <= |p|
    ensures var (s1, x) := Run(f, bs, s, p[..i]);
            Run(f, bs, s, p[..i + bs]) == (f(s1, p[i..i + bs]).0, x + f(s1, p[i..i + bs]).1)
  {
    var s1, b := Run(f, bs, s, p[..i]).0, p[i..i + bs];
    RunAppend(f, bs, s, p[..i], b);
    assert p[..i] + b == p[..i + bs];
    assert b[..bs] == b && b[bs..] == [];
    assert f(s1, b).1 + [] == f(s1, b).1;
  }

  /** Halfway through a loop that runs `f` over `raw` a block at a time: `out` and `context` are the run so far. */
  ghost predicate RanSoFar(f: Step, bs: nat, start: Context, raw: seq<byte>, context: Context, out: seq<byte>)
    requires bs > 0
  {
    && KeepsSize(f, bs) && Whole(|raw|, bs) && Whole(|out|, bs) && |out| <= |raw|
    && (context, out) == Run(f, bs, start, raw[..|out|])
  }

  lemma RunStarts(f: Step, bs: nat, start: Context, raw: seq<byte>)
    requires bs > 0 && KeepsSize(f, bs) && Whole(|raw|, bs)
    ensures RanSoFar(f, bs, start, raw, start, [])
  {
    assert raw[..0] == [];
  }

  /** The next block of the loop: it is there, and taking it keeps the loop's invariant. */
  lemma RunContinues(f: Step, bs: nat, start: Context, raw: seq<byte>, context: Context, out: seq<byte>)
    requires bs > 0 && RanSoFar(f, bs, start, raw, context, out) && |out| < |raw|
    ensures |out| + bs <= |raw|
    ensures var (s, block) := f(context, raw[|out|..|out| + bs]);
            |block| == bs && RanSoFar(f, bs, start, raw, s, out + block)
  {
    WholeDifference(|out|, |raw|, bs);
    WholeSum(|out|, bs, bs);
    RunSnoc(f, bs, start, raw, |out|);
  }

  lemma RunEnds(f: Step, bs: nat, start: Context, raw: seq<byte>, context: Context, out: seq<byte>)
    requires bs > 0 && RanSoFar(f, bs, start, raw, context, out) && |out| >= |raw|
    ensures |out| == |raw| && Run(f, bs, start, raw) == (context, out)
  {
    assert raw[..|raw|] == raw;
  }

  /** Decrypting a whole encrypted stretch from the encryptor's context recovers it, and the contexts agree again. */
  lemma {:induction false} RunInverse(c: Cipher, s: Context, p: seq<byte>)
    requires Lockstep(c) && Whole(|p|, c.blocksize)
    ensures Run(c.decrypt, c.blocksize, s, Run(c.encrypt, c.blocksize, s, p).1)
         == (Run(c.encrypt, c.blocksize, s, p).0, p)
    decreases |p|
  {
    var bs := c.blocksize;
    if |p| > 0 {
      var (s1, b) := c.encrypt(s, p[..bs]);
      RunInverse(c, s1, p[bs..]);
      var others := Run(c.encrypt, bs, s1, p[bs..]).1;
      assert (b + others)[..bs] == b && (b + others)[bs..] == others;
      assert p[..bs] + p[bs..] == p;
    }
  }

  /** The front of an encrypted stretch is its encrypted front. */
  lemma RunPrefix(f: Step, bs: nat, s: Context, p: seq<byte>, b: nat)
    requires bs > 0 && KeepsSize(f, bs) && b <= |p| && Whole(b, bs) && Whole(|p|, bs)
    ensures |Run(f, bs, s, p).1| == |p| && |Run(f, bs, s, p[..b]).1| == b
    ensures Run(f, bs, s, p).1[..b] == Run(f, bs, s, p[..b]).1
  {
    RunAppend(f, bs, s, p[..b], p[b..]);
    assert p[..b] + p[b..] == p;
    RunLength(f, bs, s, p);
    RunLength(f, bs, s, p[..b]);
  }

  /** The middle of an encrypted stretch decrypts on its own, given the context reached at its start. */
  lemma RunSlice(c: Cipher, s: Context, p: seq<byte>, a: nat, b: nat)
    requires Lockstep(c) && a <= b <= |p| && Whole(a, c.blocksize) && Whole(b, c.blocksize) && Whole(|p|, c.blocksize)
    ensures |Run(c.encrypt, c.blocksize, s, p).1| == |p|
    ensures Run(c.decrypt, c.blocksize, Run(c.encrypt, c.blocksize, s, p[..a]).0,
                Run(c.encrypt, c.blocksize, s, p).1[a..b])
         == (Run(c.encrypt, c.blocksize, s, p[..b]).0, p[a..b])
  {
    var f, bs := c.encrypt, c.blocksize;
    var s1, y := Run(f, bs, s, p[..a]).0, p[a..b];
    WholeDifference(a, b, bs);
    RunPrefix(f, bs, s, p, b);
    RunAppend(f, bs, s, p[..a], y);
    assert p[..a] + y == p[..b];
    RunLength(f, bs, s, p[..a]);
    RunInverse(c, s1, y);
    assert Run(f, bs, s, p).1[a..b] == Run(f, bs, s, p).1[..b][a..] == Run(f, bs, s1, y).1;
  }
}
