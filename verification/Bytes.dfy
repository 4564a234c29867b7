/** Octets, and the big-endian 32-bit integers that every SSH message is built from. */
module Bytes {

  type byte = x: int | 0 <= x < 256

  const TWO_TO_THE_32 := 0x1_0000_0000

  /** The four octets of `value`, most significant first; wider values lose their upper bits. */
  function Htonu32(value: nat): (b: seq<byte>)
    ensures |b| == 4
  {
    [(value / 0x100_0000) % 256, (value / 0x1_0000) % 256, (value / 0x100) % 256, value % 256]
  }

  /** Reads the first four octets of `b` as an unsigned 32-bit integer. */
  function Ntohu32(b: seq<byte>): (value: nat)
    requires |b| >= 4
    ensures value < TWO_TO_THE_32
  {
    var b0: int, b1: int, b2: int, b3: int := b[0], b[1], b[2], b[3];
    b0 * 0x100_0000 + b1 * 0x1_0000 + b2 * 0x100 + b3
  }

  /** One more octet behind the others moves them up by eight bits: this fixes the value of any four. */
  lemma NtohuShifts(a: byte, b: byte, c: byte, d: byte)
    ensures Ntohu32([a, b, c, d]) == 256 * Ntohu32([0, a, b, c]) + d
  {
    var a': int, b': int, c': int := a, b, c;
    assert 256 * (a' * 0x1_0000 + b' * 0x100 + c') == a' * 0x100_0000 + b' * 0x1_0000 + c' * 0x100;
  }

  /** Writing a value and reading it back truncates it to 32 bits and does nothing else. */
  lemma NtohuHtonu(value: nat, rest: seq<byte>)
    ensures Ntohu32(Htonu32(value) + rest) == value % TWO_TO_THE_32
  {
    var m, h, t := value / 0x100, value / 0x1_0000, value / 0x100_0000;
    assert m / 0x100 == h && h / 0x100 == t;
    var b3, b2, b1, b0, u := value % 0x100, m % 0x100, h % 0x100, t % 0x100, t / 0x100;
    assert value == u * TWO_TO_THE_32 + (b0 * 0x100_0000 + b1 * 0x1_0000 + b2 * 0x100 + b3);
    var w := Htonu32(value) + rest;
    assert w[0] == b0 && w[1] == b1 && w[2] == b2 && w[3] == b3;
  }

  /** Four octets are recovered from the integer they denote. */
  lemma HtonuNtohu(b: seq<byte>)
    requires |b| == 4
    ensures Htonu32(Ntohu32(b)) == b
  {
    var v := Ntohu32(b);
    var b0: int, b1: int, b2: int := b[0], b[1], b[2];
    assert v / 0x100 == b0 * 0x1_0000 + b1 * 0x100 + b2;
    assert v / 0x1_0000 == b0 * 0x100 + b1;
    assert v / 0x100_0000 == b0;
    var b3: int := b[3];
    assert v % 256 == b3 && (v / 0x100) % 256 == b2 && (v / 0x1_0000) % 256 == b1 && b0 % 256 == b0;
  }

  /** Stores `value` big-endian at `at`, in place. */
  method PutU32(buf: array<byte>, at: nat, value: nat)
    requires at + 4 <= buf.Length
    modifies buf
    ensures buf[at..at + 4] == Htonu32(value)
    ensures buf[..at] == old(buf[..at]) && buf[at + 4..] == old(buf[at + 4..])
  {
    buf[at] := (value / 0x100_0000) % 256;
    buf[at + 1] := (value / 0x1_0000) % 256;
    buf[at + 2] := (value / 0x100) % 256;
    buf[at + 3] := value % 256;
  }

  lemma Regroup<T>(a: seq<T>, b: seq<T>, c: seq<T>)
    ensures (a + b) + c == a + (b + c)
  {
  }

  /** `s` with the stretch starting at `at` overwritten by `x`. */
  function Splice(s: seq<byte>, at: nat, x: seq<byte>): (r: seq<byte>)
    requires at + |x| <= |s|
    ensures |r| == |s|
  {
    s[..at] + x + s[at + |x|..]
  }

  lemma SpliceNothing(s: seq<byte>, at: nat)
    requires at <= |s|
    ensures Splice(s, at, []) == s
  {
  }

  lemma SpliceMore(s: seq<byte>, at: nat, x: seq<byte>, y: seq<byte>)
    requires at + |x| + |y| <= |s|
    ensures Splice(Splice(s, at, x), at + |x|, y) == Splice(s, at, x + y)
  {
  }

  /** Beyond what has been overwritten, a stretch still reads as it did. */
  lemma SpliceNext(s: seq<byte>, at: nat, raw: seq<byte>, x: seq<byte>, k: nat)
    requires at + |raw| <= |s| && raw == s[at..at + |raw|] && |x| + k <= |raw|
    ensures Splice(s, at, x)[at + |x|..at + |x| + k] == raw[|x|..|x| + k]
  {
    var u, v := Splice(s, at, x)[at + |x|..at + |x| + k], raw[|x|..|x| + k];
    forall j | 0 <= j < k
      ensures u[j] == v[j]
    {
      assert v[j] == raw[|x| + j] == s[at + (|x| + j)];
    }
    assert u == v;
  }

  lemma SpliceNextAtStart(s: seq<byte>, raw: seq<byte>, x: seq<byte>, k: nat)
    requires |raw| <= |s| && raw == s[..|raw|] && |x| + k <= |raw|
    ensures Splice(s, 0, x)[|x|..|x| + k] == raw[|x|..|x| + k]
  {
    SpliceNext(s, 0, raw, x, k);
  }

  lemma SpliceParts(s: seq<byte>, at: nat, x: seq<byte>)
    requires at + |x| <= |s|
    ensures Splice(s, at, x)[..at] == s[..at]
    ensures Splice(s, at, x)[at..at + |x|] == x
    ensures Splice(s, at, x)[at + |x|..] == s[at + |x|..]
  {
  }

  lemma SpliceFront(s: seq<byte>, at: nat, x: seq<byte>)
    requires at + |x| <= |s|
    ensures Splice(s, at, x)[..at + |x|] == s[..at] + x
  {
  }

  lemma SpliceTail(s: seq<byte>, at: nat, end: nat, x: seq<byte>)
    requires at + |x| <= end <= |s|
    ensures Splice(s, at, x)[at + |x|..end] == s[at..end][|x|..]
  {
  }

  /** What is behind the overwritten stretch, and the front of what overwrites it. */
  lemma SpliceAround(s: seq<byte>, at: nat, end: nat, x: seq<byte>, k: nat)
    requires at + |x| <= end <= |s| && k <= |x|
    ensures Splice(s, at, x)[at + |x|..end] == s[at + |x|..end]
    ensures Splice(s, at, x)[at..at + k] == x[..k]
  {
  }

  /** The first `d` elements of a stretch of an array, and the others. */
  lemma SplitStretch(a: array<byte>, lo: nat, hi: nat, d: nat)
    requires lo + d <= hi <= a.Length
    ensures a[lo..hi][..d] == a[lo..lo + d]
    ensures a[lo..hi][d..] == a[lo + d..hi]
  {
  }
}
