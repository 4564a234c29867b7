/** _libssh2_base64_encode and libssh2_base64_decode (section 4 of RFC 4648). */
module Base64 {
  import opened Bits
  import opened Bytes

  type sextet = x: int | 0 <= x < 64

  const PAD := '='
  const NUL := '\0'

  /** table64: the upper-case letters, the lower-case letters, the digits, then + and /. */
  function Symbol(v: sextet): (c: char) {
    if v < 26 then (v + 65) as char
    else if v < 52 then (v + 71) as char
    else if v < 62 then (v - 4) as char
    else if v == 62 then '+' else '/'
  }

  /** base64_reverse_table: the value of a character of the alphabet, -1 for any other. */
  function Reverse(c: char): (v: int)
    ensures -1 <= v < 64
  {
    if 'A' <= c <= 'Z' then c as int - 65
    else if 'a' <= c <= 'z' then c as int - 71
    else if '0' <= c <= '9' then c as int + 4
    else if c == '+' then 62
    else if c == '/' then 63
    else -1
  }

  /** The two tables are inverse, and the padding is in neither. */
  lemma TablesAgree(v: sextet)
    ensures Reverse(Symbol(v)) == v && Symbol(v) != NUL
    ensures forall c: char :: Reverse(c) >= 0 ==> Symbol(Reverse(c)) == c
    ensures Reverse(PAD) < 0
  {
  }

  const UPPER := "ABCDEFGHIJKLMNOPQRSTUVWXYZ"
  const LOWER := "abcdefghijklmnopqrstuvwxyz"
  const DIGITS := "0123456789"
  const ALPHABET := UPPER + LOWER + DIGITS + "+/"

  lemma Runs()
    ensures |UPPER| == 26 && forall v | 0 <= v < 26 :: UPPER[v] == (v + 65) as char
    ensures |LOWER| == 26 && forall v | 0 <= v < 26 :: LOWER[v] == (v + 97) as char
    ensures |DIGITS| == 10 && forall v | 0 <= v < 10 :: DIGITS[v] == (v + 48) as char
  {
  }

  /** The alphabet of section 4 of RFC 4648, in its order. */
  lemma AlphabetInOrder(v: sextet)
    ensures |ALPHABET| == 64 && Symbol(v) == ALPHABET[v]
  {
    Runs();
  }

  // ----- what encoding and decoding mean

  // One to three bytes, as the sextets that hold their bits.
  function First(x: seq<byte>): sextet
    requires |x| >= 1
  {
    var b0: int := x[0];
    b0 / 4
  }

  function Second(x: seq<byte>): sextet
    requires |x| >= 1
  {
    var b0: int, b1: int := x[0], if |x| > 1 then x[1] else 0;
    (b0 % 4) * 16 + b1 / 16
  }

  function Third(x: seq<byte>): sextet
    requires |x| >= 2
  {
    var b1: int, b2: int := x[1], if |x| > 2 then x[2] else 0;
    (b1 % 16) * 4 + b2 / 64
  }

  function Fourth(x: seq<byte>): sextet
    requires |x| >= 3
  {
    var b2: int := x[2];
    b2 % 64
  }

  function Sextets(x: seq<byte>): (vs: seq<sextet>)
    requires 1 <= |x| <= 3
  {
    if |x| == 1 then [First(x), Second(x)]
    else if |x| == 2 then [First(x), Second(x), Third(x)]
    else [First(x), Second(x), Third(x), Fourth(x)]
  }

  /** The text of one to three bytes. */
  function Quad(x: seq<byte>): (q: string)
    requires 1 <= |x| <= 3
    ensures |q| == 4
  {
    var front := [Symbol(First(x)), Symbol(Second(x))];
    if |x| == 1 then front + [PAD, PAD]
    else if |x| == 2 then front + [Symbol(Third(x)), PAD]
    else front + [Symbol(Third(x)), Symbol(Fourth(x))]
  }

  function Encode(x: seq<byte>): (s: string)
    decreases |x|
  {
    if x == [] then "" else if |x| <= 3 then Quad(x) else Quad(x[..3]) + Encode(x[3..])
  }

  /** What a character contributes: its sextet, or nothing. */
  function ValueOf(c: char): (vs: seq<sextet>) {
    if Reverse(c) < 0 then [] else [Reverse(c)]
  }

  function Values(s: string): (vs: seq<sextet>) {
    if s == "" then [] else Values(s[..|s| - 1]) + ValueOf(s[|s| - 1])
  }

  /** The octet that `v` completes after `last`, at position `k` of a group of four. */
  function Completed(k: nat, last: sextet, v: sextet): (b: byte)
    requires 1 <= k <= 3
  {
    var l: int, w: int := last, v;
    if k == 1 then l * 4 + w / 16 else if k == 2 then (l % 16) * 16 + w / 4 else (l % 4) * 64 + w
  }

  /** The whole octets in a string of sextets. */
  function Octets(vs: seq<sextet>): (x: seq<byte>)
    decreases |vs|
  {
    if |vs| < 2 then []
    else if |vs| == 2 then [Completed(1, vs[0], vs[1])]
    else if |vs| == 3 then [Completed(1, vs[0], vs[1]), Completed(2, vs[1], vs[2])]
    else [Completed(1, vs[0], vs[1]), Completed(2, vs[1], vs[2]), Completed(3, vs[2], vs[3])] + Octets(vs[4..])
  }

  datatype Decoded = Invalid | Data(bytes: seq<byte>)

  /** A sextet that belongs to no whole octet makes the text invalid. */
  function Decode(s: string): Decoded {
    var vs := Values(s);
    if |vs| % 4 == 1 then Invalid else Data(Octets(vs))
  }

  // ----- laws

  lemma {:induction false} ValuesAppend(s: string, t: string)
    ensures Values(s + t) == Values(s) + Values(t)
    decreases |t|
  {
    if t == "" {
      assert s + t == s;
    } else {
      var front, last := t[..|t| - 1], t[|t| - 1];
      ValuesAppend(s, front);
      assert (s + t)[..|s + t| - 1] == s + front;
      Regroup(Values(s), Values(front), ValueOf(last));
    }
  }

  /** Characters outside the alphabet can be put anywhere without changing what is decoded. */
  lemma DecodeIgnoresOthers(s: string, junk: string, t: string)
    requires forall i | 0 <= i < |junk| :: Reverse(junk[i]) < 0
    ensures Decode(s + junk + t) == Decode(s + t)
  {
    NoValues(junk);
    ValuesAppend(s, junk);
    ValuesAppend(s + junk, t);
    ValuesAppend(s, t);
    assert Values(s) + [] == Values(s);
  }

  lemma {:induction false} NoValues(junk: string)
    requires forall i | 0 <= i < |junk| :: Reverse(junk[i]) < 0
    ensures Values(junk) == []
  {
    if junk != "" {
      NoValues(junk[..|junk| - 1]);
    }
  }

  lemma ValuesOfOne(c: char)
    ensures Values([c]) == ValueOf(c)
  {
    assert [c][..0] == "" && Values("") == [];
  }

  lemma ValuesOfFour(a: char, b: char, c: char, d: char)
    ensures Values([a, b, c, d]) == ((ValueOf(a) + ValueOf(b)) + ValueOf(c)) + ValueOf(d)
  {
    ValuesOfOne(a);
    ValuesOfOne(b);
    ValuesOfOne(c);
    ValuesOfOne(d);
    ValuesAppend([a], [b]);
    ValuesAppend([a] + [b], [c]);
    ValuesAppend([a] + [b] + [c], [d]);
    assert [a] + [b] + [c] + [d] == [a, b, c, d];
  }

  lemma ValuesOfQuad(x: seq<byte>)
    requires 1 <= |x| <= 3
    ensures Values(Quad(x)) == Sextets(x)
  {
    var q := Quad(x);
    ValuesOfFour(q[0], q[1], q[2], q[3]);
    assert q == [q[0], q[1], q[2], q[3]];
    TablesAgree(First(x));
    TablesAgree(Second(x));
    if |x| > 1 { TablesAgree(Third(x)); }
    if |x| > 2 { TablesAgree(Fourth(x)); }
  }

  lemma BitsOfFirst(x: seq<byte>)
    requires |x| >= 1
    ensures Completed(1, First(x), Second(x)) == x[0]
  {
  }

  lemma BitsOfSecond(x: seq<byte>)
    requires |x| >= 2
    ensures Completed(2, Second(x), Third(x)) == x[1]
  {
    var b1: int, l: int, w: int := x[1], Second(x), Third(x);
    assert l % 16 == b1 / 16;
    assert w / 4 == b1 % 16;
  }

  lemma BitsOfThird(x: seq<byte>)
    requires |x| >= 3
    ensures Completed(3, Third(x), Fourth(x)) == x[2]
  {
  }

  lemma OctetsOfSextets(x: seq<byte>)
    requires 1 <= |x| <= 3
    ensures Octets(Sextets(x)) == x
  {
    BitsOfFirst(x);
    if |x| > 1 { BitsOfSecond(x); }
    if |x| > 2 { BitsOfThird(x); }
    assert Octets([]) == [];
  }

  lemma FourFirst(vs: seq<sextet>, more: seq<sextet>)
    requires |vs| == 4
    ensures Octets(vs + more) == Octets(vs) + Octets(more)
  {
    assert (vs + more)[4..] == more;
    assert vs[4..] == [] && Octets([]) == [];
  }

  /** The next group of bytes to read: three, or what is left. */
  function GroupSize(left: nat): nat { if left < 3 then left else 3 }

  lemma EncodeStep(x: seq<byte>)
    requires x != []
    ensures Encode(x) == Quad(x[..GroupSize(|x|)]) + Encode(x[GroupSize(|x|)..])
  {
    if |x| <= 3 {
      assert x[..|x|] == x && x[|x|..] == [] && Quad(x) + "" == Quad(x);
    }
  }

  lemma {:induction false} EncodedLength(x: seq<byte>)
    ensures |Encode(x)| == (|x| + 2) / 3 * 4
    decreases |x|
  {
    if x != [] {
      EncodeStep(x);
      EncodedLength(x[GroupSize(|x|)..]);
      OneGroupLess(|x|);
    }
  }

  lemma OneGroupLess(n: nat)
    requires n > 0
    ensures TextLength(n) == 4 + TextLength(n - GroupSize(n))
  {
  }

  /** Digit `k` of `n` to the base 64, the lowest being digit 0. */
  function Digit(n: nat, k: nat): (v: sextet)
    requires k < 4
  {
    n / (if k == 0 then 1 else if k == 1 then 64 else if k == 2 then 0x1000 else 0x4_0000) % 64
  }

  /** The characters for the lowest `k` digits of `n`, the highest first. */
  function Written(n: nat, k: nat): (s: string)
    requires k <= 4
    ensures |s| == k
  {
    if k == 0 then "" else
      AlphabetInOrder(Digit(n, k - 1));
      [ALPHABET[Digit(n, k - 1)]] + Written(n, k - 1)
  }

  /**
   * Section 4 of RFC 4648: three bytes are a number of 24 bits, and their text is its digits to the base 64; one or two
   * bytes are filled up with zero bits to 12 or 18, and their text with '='; and group follows group.
   */
  lemma EncodesDigits(a: byte, b: byte, c: byte, rest: seq<byte>)
    ensures Encode([a]) == Written(a as int * 16, 2) + "=="
    ensures Encode([a, b]) == Written((a as int * 256 + b) * 4, 3) + "="
    ensures Encode([a, b, c] + rest) == Written((a as int * 256 + b) * 256 + c, 4) + Encode(rest)
  {
    OneByte(a);
    TwoBytes(a, b);
    ThreeBytes(a, b, c);
    var x := [a, b, c] + rest;
    EncodeStep(x);
    assert x[..3] == [a, b, c] && x[3..] == rest;
  }

  lemma WrittenFrom(n: nat, o0: sextet, o1: sextet, o2: sextet, o3: sextet)
    requires n == ((o0 as int * 64 + o1) * 64 + o2) * 64 + o3
    ensures Written(n, 2) == [Symbol(o2), Symbol(o3)]
    ensures Written(n, 3) == [Symbol(o1), Symbol(o2), Symbol(o3)]
    ensures Written(n, 4) == [Symbol(o0), Symbol(o1), Symbol(o2), Symbol(o3)]
  {
    DigitsOf(n, o0, o1, o2, o3);
    AlphabetInOrder(o0);
    AlphabetInOrder(o1);
    AlphabetInOrder(o2);
    AlphabetInOrder(o3);
    assert Written(n, 0) == "";
    assert Written(n, 1) == [Symbol(o3)];
  }

  lemma DigitsOf(n: nat, o0: sextet, o1: sextet, o2: sextet, o3: sextet)
    requires n == ((o0 as int * 64 + o1) * 64 + o2) * 64 + o3
    ensures Digit(n, 3) == o0 && Digit(n, 2) == o1 && Digit(n, 1) == o2 && Digit(n, 0) == o3
  {
    var p0: int, p1: int, p2: int, p3: int := o0, o1, o2, o3;
    assert n / 0x4_0000 == p0 && n / 0x1000 == p0 * 64 + p1 && n / 64 == (p0 * 64 + p1) * 64 + p2;
  }

  lemma OneByte(a: byte)
    ensures Quad([a]) == Written(a as int * 16, 2) + "=="
  {
    var a': int := a;
    var o2: int, o3: int := First([a]), Second([a]);
    assert a' * 16 == o2 * 64 + o3;
    WrittenFrom(a' * 16, 0, 0, o2, o3);
  }

  lemma TwoBytes(a: byte, b: byte)
    ensures Quad([a, b]) == Written((a as int * 256 + b) * 4, 3) + "="
  {
    Regrouped(a, b, 0);
    WrittenFrom((a as int * 256 + b) * 4, 0, First([a, b]), Second([a, b]), Third([a, b]));
  }

  lemma ThreeBytes(a: byte, b: byte, c: byte)
    ensures Quad([a, b, c]) == Written((a as int * 256 + b) * 256 + c, 4)
  {
    var x := [a, b, c];
    Regrouped(a, b, c);
    WrittenFrom((a as int * 256 + b) * 256 + c, First(x), Second(x), Third(x), Fourth(x));
  }

  lemma Regrouped(a: int, b: int, c: int)
    ensures (a * 256 + b) * 256 + c ==
            ((a / 4 * 64 + (a % 4 * 16 + b / 16)) * 64 + (b % 16 * 4 + c / 64)) * 64 + c % 64
  {
    assert a == 4 * (a / 4) + a % 4 && b == 16 * (b / 16) + b % 16 && c == 64 * (c / 64) + c % 64;
  }

  lemma {:induction false} EncodedHasNoNul(x: seq<byte>)
    ensures NUL !in Encode(x)
    decreases |x|
  {
    if x != [] {
      EncodeStep(x);
      QuadHasNoNul(x[..GroupSize(|x|)]);
      EncodedHasNoNul(x[GroupSize(|x|)..]);
    }
  }

  lemma QuadHasNoNul(x: seq<byte>)
    requires 1 <= |x| <= 3
    ensures NUL !in Quad(x)
  {
  }

  /** Four characters for every three bytes or part of three. */
  function TextLength(n: nat): nat { (n + 2) / 3 * 4 }

  lemma {:induction false} EncodedValues(x: seq<byte>)
    ensures Octets(Values(Encode(x))) == x
    ensures |Values(Encode(x))| % 4 != 1
    decreases |x|
  {
    if x != [] {
      var n := GroupSize(|x|);
      var front, others := x[..n], x[n..];
      EncodeStep(x);
      EncodedValues(others);
      ValuesOfQuad(front);
      OctetsOfSextets(front);
      ValuesAppend(Quad(front), Encode(others));
      assert front + others == x;
      GroupThenRest(front, others, Values(Encode(others)));
    }
  }

  lemma GroupThenRest(front: seq<byte>, others: seq<byte>, more: seq<sextet>)
    requires 1 <= |front| <= 3 && (|front| < 3 ==> others == [] && more == [])
    requires Octets(Sextets(front)) == front && Octets(more) == others && |more| % 4 != 1
    ensures Octets(Sextets(front) + more) == front + others
    ensures |Sextets(front) + more| % 4 != 1
  {
    var vs := Sextets(front);
    if |front| == 3 {
      FourFirst(vs, more);
      FourMore(4, |more|);
    } else {
      assert vs + more == vs && front + others == front;
    }
  }

  lemma FourMore(m: nat, n: nat)
    requires m == 4
    ensures (m + n) % 4 == n % 4
  {
  }

  /** Decoding undoes encoding, for every byte string. */
  lemma RoundTrip(x: seq<byte>)
    ensures Decode(Encode(x)) == Data(x)
  {
    EncodedValues(x);
  }

  /** What one more sextet adds to the octets. */
  lemma {:induction false} OctetsSnoc(vs: seq<sextet>, v: sextet)
    ensures Octets(vs + [v]) == Octets(vs) + Added(vs, v)
    decreases |vs|
  {
    if |vs| > 4 {
      var front, others := vs[..4], vs[4..];
      OctetsSnoc(others, v);
      FourFirst(front, others + [v]);
      FourFirst(front, others);
      assert vs + [v] == front + (others + [v]) && vs == front + others;
      FourMore(4, |others|);
      assert (Octets(front) + Octets(others)) + Added(others, v) == Octets(front) + (Octets(others) + Added(others, v));
    } else if |vs| == 4 {
      FourFirst(vs, [v]);
    }
  }

  function Added(vs: seq<sextet>, v: sextet): (x: seq<byte>) {
    if |vs| % 4 == 0 then [] else [Completed(|vs| % 4, vs[|vs| - 1], v)]
  }

  /** The part of an octet that `v`, at position `k` of a group of four, leaves for the next sextet to complete. */
  function LeftOver(k: nat, v: sextet): (b: byte) {
    var w: int := v;
    if k == 0 then w * 4 else if k == 1 then (w * 16) % 256 else if k == 2 then (w * 64) % 256 else 0
  }

  /** The part of `v`, at position `k`, that completes the octet before. */
  function Share(k: nat, v: sextet): (b: byte) {
    if k == 1 then v / 16 else if k == 2 then v / 4 else v
  }

  /** Completing an octet in place: or-ing the next sextet's bits into what was left over. */
  lemma OrCompletes(k: nat, last: sextet, v: sextet)
    requires 1 <= k <= 3
    ensures Or(LeftOver(k - 1, last), Share(k, v)) == Completed(k, last, v)
  {
    if k == 1 {
      OrFirst(last, v);
    } else if k == 2 {
      OrSecond(last, v);
    } else {
      OrThird(last, v);
    }
  }

  lemma OrFirst(last: sextet, v: sextet)
    ensures Or(LeftOver(0, last), Share(1, v)) == Completed(1, last, v)
  {
    var l: int := last;
    assert Pow2(2) == 4;
    OrDisjoint(l * 4, v / 16, 2);
  }

  lemma OrSecond(last: sextet, v: sextet)
    ensures Or(LeftOver(1, last), Share(2, v)) == Completed(2, last, v)
  {
    var l: int := last;
    assert Pow2(4) == 16;
    assert (l * 16) % 256 == (l % 16) * 16;
    OrDisjoint((l % 16) * 16, v / 4, 4);
  }

  lemma OrThird(last: sextet, v: sextet)
    ensures Or(LeftOver(2, last), Share(3, v)) == Completed(3, last, v)
  {
    var l: int := last;
    assert Pow2(6) == 64;
    assert (l * 64) % 256 == (l % 4) * 64;
    OrDisjoint((l % 4) * 64, v, 6);
  }

  // ----- the decoder

  /** One round of the decoder's switch, on the sextet at position `k` of its group of four. */
  method Take(d: array<byte>, len: nat, k: nat, v: sextet, ghost last: sextet) returns (n: nat)
    requires k < 4 && len < d.Length
    requires k == 1 || k == 2 ==> len + 1 < d.Length
    requires k != 0 ==> d[len] == LeftOver(k - 1, last)
    modifies d
    ensures n == (if k == 0 then len else len + 1) <= d.Length
    ensures d[..n] == old(d[..len]) + if k == 0 then [] else [Completed(k, last, v)]
    ensures k != 3 ==> n < d.Length && d[n] == LeftOver(k, v)
  {
    if k == 0 {
      d[len] := v * 4;
      return len;
    }
    OrCompletes(k, last, v);
    d[len] := Or(d[len], Share(k, v));
    n := len + 1;
    if k != 3 {
      d[n] := LeftOver(k, v);
    }
  }

  /** How many octets `i` sextets have completed. */
  function Full(i: nat): nat { i / 4 * 3 + if i % 4 == 0 then 0 else i % 4 - 1 }

  /** The buffer allocated for a text of `n` characters has room wherever the decoder writes. */
  lemma Room(i: nat, n: nat)
    requires i < n
    ensures Full(i) < 3 * n / 4 + 1
    ensures i % 4 == 1 || i % 4 == 2 ==> Full(i) + 1 < 3 * n / 4 + 1
    ensures Full(i + 1) == Full(i) + (if i % 4 == 0 then 0 else 1)
  {
  }

  /**
   * Halfway through a text: `vs` are the sextets seen, and `d` holds the octets they complete and what is left over.
   */
  ghost predicate Decoding(d: seq<byte>, len: nat, vs: seq<sextet>) {
    && len == Full(|vs|) <= |d| && d[..len] == Octets(vs)
    && (|vs| % 4 != 0 ==> len < |d| && d[len] == LeftOver(|vs| % 4 - 1, vs[|vs| - 1]))
  }

  /** One character of the alphabet, the `i`th so far, in a text of `n`. */
  method Accept(d: array<byte>, len: nat, i: nat, v: sextet, ghost vs: seq<sextet>, ghost n: nat) returns (len': nat)
    requires |vs| == i < n && d.Length == 3 * n / 4 + 1
    requires Decoding(d[..], len, vs)
    modifies d
    ensures Decoding(d[..], len', vs + [v])
  {
    Room(i, n);
    OctetsSnoc(vs, v);
    assert d[..][..len] == d[..len];
    var k := i % 4;
    len' := Take(d, len, k, v, if i > 0 then vs[i - 1] else 0);
    assert d[..][..len'] == d[..len'];
    assert k != 3 ==> (i + 1) % 4 == k + 1;
    assert k == 3 ==> (i + 1) % 4 == 0;
  }

  lemma ValuesSnoc(src: string, k: nat)
    requires k < |src|
    ensures Values(src[..k + 1]) == Values(src[..k]) + ValueOf(src[k])
  {
    assert src[..k + 1][..k] == src[..k];
  }

  /** Decodes `src` into a buffer of its allocated size; no index leaves it. */
  method DecodeText(src: string) returns (r: Decoded)
    ensures r == Decode(src)
    ensures if |Values(src)| % 4 == 1 then r == Invalid else r.Data? && |r.bytes| == |Values(src)| * 3 / 4
  {
    var d := new byte[3 * |src| / 4 + 1];
    var i: nat, len: nat := 0, 0;
    ghost var vs: seq<sextet> := [];
    assert d[..][..0] == [];
    for k := 0 to |src|
      invariant vs == Values(src[..k]) && i == |vs| <= k
      invariant Decoding(d[..], len, vs)
    {
      ValuesSnoc(src, k);
      var v := Reverse(src[k]);
      if v >= 0 {
        len := Accept(d, len, i, v, vs, |src|);
        vs := vs + [v];
        i := i + 1;
      }
    }
    assert src[..|src|] == src && d[..][..len] == d[..len];
    if i % 4 == 1 {
      return Invalid;
    }
    return Data(d[..len]);
  }

  // ----- the encoder

  /** The bytes the encoder reads: `insize` of them, or up to the first zero byte when `insize` is zero. */
  function Input(inp: seq<byte>, insize: nat): (x: seq<byte>)
    requires insize <= |inp| && (insize == 0 ==> 0 in inp)
    ensures x <= inp
  {
    if insize > 0 then inp[..insize] else UpToNul(inp)
  }

  function UpToNul(inp: seq<byte>): (x: seq<byte>)
    requires 0 in inp
    ensures x <= inp && 0 !in x && |x| < |inp| && inp[|x|] == 0
  {
    if inp[0] == 0 then [] else [inp[0]] + UpToNul(inp[1..])
  }

  lemma SharesJoined(high1: nat, low1: nat, high2: nat, low2: nat)
    requires low1 < 16 && low2 < 4
    ensures Or(high1 * 16, low1) == high1 * 16 + low1 && Or(high2 * 4, low2) == high2 * 4 + low2
  {
    assert Pow2(4) == 16 && Pow2(2) == 4;
    OrShifted(high1, low1, 4);
    OrShifted(high2, low2, 2);
  }

  /** The encoder's four table indices for a group of `n` bytes, the missing ones read as zero. */
  method Group(b0: byte, b1: byte, b2: byte, ghost x: seq<byte>)
    returns (o0: sextet, o1: sextet, o2: sextet, o3: sextet)
    requires 1 <= |x| <= 3 && b0 == x[0]
    requires b1 == (if |x| > 1 then x[1] else 0) && b2 == (if |x| > 2 then x[2] else 0)
    ensures o0 == First(x) && o1 == Second(x)
    ensures |x| > 1 ==> o2 == Third(x)
    ensures |x| > 2 ==> o3 == Fourth(x)
  {
    var c0: int, c1: int, c2: int := b0, b1, b2;
    SharesJoined(c0 % 4, c1 / 16, c1 % 16, c2 / 64);
    o0, o1, o2, o3 := c0 / 4, Or(c0 % 4 * 16, c1 / 16), Or(c1 % 16 * 4, c2 / 64), c2 % 64;
  }

  /** Writes the text of one group and a NUL after it. */
  method PutQuad(out: array<char>, len: nat, n: nat, b0: byte, b1: byte, b2: byte, ghost x: seq<byte>)
    requires len + 4 < out.Length && 1 <= n == |x| <= 3 && b0 == x[0]
    requires b1 == (if |x| > 1 then x[1] else 0) && b2 == (if |x| > 2 then x[2] else 0)
    modifies out
    ensures out[..len + 4] == old(out[..len]) + Quad(x)
  {
    var o0, o1, o2, o3 := Group(b0, b1, b2, x);
    ghost var q := Quad(x);
    var c2, c3 := if n > 1 then Symbol(o2) else PAD, if n > 2 then Symbol(o3) else PAD;
    assert q[0] == Symbol(o0) && q[1] == Symbol(o1) && q[2] == c2 && q[3] == c3;
    Store(out, len, Symbol(o0), Symbol(o1), c2, c3);
    assert q == [q[0], q[1], q[2], q[3]];
  }

  /** snprintf of four characters. */
  method Store(out: array<char>, len: nat, c0: char, c1: char, c2: char, c3: char)
    requires len + 4 < out.Length
    modifies out
    ensures out[..len + 4] == old(out[..len]) + [c0, c1, c2, c3]
  {
    out[len], out[len + 1], out[len + 2], out[len + 3], out[len + 4] := c0, c1, c2, c3, NUL;
  }

  /** What the loop has written, and what it still has to: the text so far and the bytes not yet read. */
  lemma NextGroup(x: seq<byte>, written: string, i: nat)
    requires i < |x| && written + Encode(x[i..]) == Encode(x)
    ensures var n := GroupSize(|x| - i);
            (written + Quad(x[i..i + n])) + Encode(x[i + n..]) == Encode(x)
    ensures |written| + 4 <= |Encode(x)|
  {
    var n, rest := GroupSize(|x| - i), x[i..];
    Slices(x, i, n);
    EncodeStep(rest);
    Regroup(written, Quad(rest[..n]), Encode(rest[n..]));
  }

  lemma Slices(x: seq<byte>, i: nat, n: nat)
    requires i + n <= |x|
    ensures x[i..][..n] == x[i..i + n] && x[i..][n..] == x[i + n..]
  {
  }

  /** The group of bytes at `i`. */
  method PutGroup(out: array<char>, len: nat, x: seq<byte>, i: nat) returns (n: nat)
    requires len + 4 < out.Length && i < |x|
    modifies out
    ensures n == GroupSize(|x| - i) && out[..len + 4] == old(out[..len]) + Quad(x[i..i + n])
  {
    n := GroupSize(|x| - i);
    PutQuad(out, len, n, x[i], if n > 1 then x[i + 1] else 0, if n > 2 then x[i + 2] else 0, x[i..i + n]);
  }

  /** The encoder's loop. */
  method PutText(out: array<char>, x: seq<byte>) returns (len: nat)
    requires |Encode(x)| < out.Length
    modifies out
    ensures len == |Encode(x)| && out[..len] == Encode(x)
  {
    len := 0;
    var i := 0;
    assert x[0..] == x && out[..0] == "";
    while i < |x|
      invariant i <= |x| && len <= |Encode(x)|
      invariant out[..len] + Encode(x[i..]) == Encode(x)
    {
      NextGroup(x, out[..len], i);
      var n := PutGroup(out, len, x, i);
      len, i := len + 4, i + n;
    }
  }

  /** Writes the text and its terminating NUL inside the insize*4/3+4 bytes allocated, and returns the text's length. */
  method EncodeText(inp: seq<byte>, insize: nat) returns (len: nat, out: array<char>)
    requires insize <= |inp| && (insize == 0 ==> 0 in inp)
    ensures len + 1 <= out.Length && out[..len] == Encode(Input(inp, insize)) && out[len] == NUL
    ensures out.Length == |Input(inp, insize)| * 4 / 3 + 4 && NUL !in out[..len]
  {
    var x := Input(inp, insize);
    out := new char[|x| * 4 / 3 + 4];
    EncodedLength(x);
    EncodedHasNoNul(x);
    assert TextLength(|x|) < out.Length;
    len := PutText(out, x);
    out[len] := NUL;
  }
}
