/** Comma-separated name-lists (section 5 of RFC 4251), and the search kex.c makes in them. */
module NameLists {
  import opened Bytes

  const COMMA := 44

  type Text = seq<byte>

  predicate CommaFree(e: Text) { forall k | 0 <= k < |e| :: e[k] != COMMA }

  predicate ZeroFree(e: Text) { forall k | 0 <= k < |e| :: e[k] != 0 }

  predicate IsName(e: Text) { e != [] && CommaFree(e) && ZeroFree(e) }

  /** Where the first comma at or after `at` is, or the end. */
  function NextComma(x: Text, at: nat): (c: nat)
    requires at <= |x|
    ensures at <= c <= |x| && (c < |x| ==> x[c] == COMMA)
    ensures forall k | at <= k < c :: x[k] != COMMA
    decreases |x| - at
  {
    if at == |x| || x[at] == COMMA then at else NextComma(x, at + 1)
  }

  /** The element that starts at `at`. */
  function ElementAt(x: Text, at: nat): (e: Text)
    requires at <= |x|
    ensures CommaFree(e)
  {
    x[at..NextComma(x, at)]
  }

  /** The elements from `at` on: at least one, possibly empty. */
  function SplitFrom(x: Text, at: nat): (es: seq<Text>)
    requires at <= |x|
    ensures es != []
    decreases |x| - at
  {
    [ElementAt(x, at)] + if NextComma(x, at) == |x| then [] else SplitFrom(x, NextComma(x, at) + 1)
  }

  function Split(x: Text): (es: seq<Text>)
    ensures es != []
  {
    SplitFrom(x, 0)
  }

  function Join(es: seq<Text>): (x: Text) {
    if es == [] then [] else if |es| == 1 then es[0] else es[0] + [COMMA] + Join(es[1..])
  }

  /** A comma, and nothing else, between one name and the next. */
  lemma JoinOfTwo(e: Text, es: seq<Text>)
    requires es != []
    ensures Join([e] + es) == e + [44] + Join(es)
  {
    assert ([e] + es)[1..] == es;
  }

  lemma CommaIsUnique(x: Text, at: nat, c: nat)
    requires at <= c <= |x| && (c < |x| ==> x[c] == COMMA) && forall k | at <= k < c :: x[k] != COMMA
    ensures NextComma(x, at) == c
  {
  }

  /** An element put at `at`, and then the end or a comma, is the element found there. */
  lemma ElementPut(x: Text, at: nat, e: Text)
    requires CommaFree(e) && at + |e| <= |x| && x[at..at + |e|] == e && (at + |e| < |x| ==> x[at + |e|] == COMMA)
    ensures NextComma(x, at) == at + |e| && ElementAt(x, at) == e
  {
    assert forall k | at <= k < at + |e| :: x[k] == e[k - at];
    CommaIsUnique(x, at, at + |e|);
  }

  lemma JoinedRest(x: Text, at: nat, es: seq<Text>)
    requires |es| > 1 && at <= |x| && x[at..] == Join(es)
    ensures at + |es[0]| < |x| && x[at..at + |es[0]|] == es[0] && x[at + |es[0]|] == COMMA
    ensures x[at + |es[0]| + 1..] == Join(es[1..])
  {
    var n, y := |es[0]|, x[at..];
    assert y[..n] == es[0] && y[n] == COMMA && y[n + 1..] == Join(es[1..]);
    assert y[n + 1..] == x[at + n + 1..] && y[..n] == x[at..at + n];
  }

  lemma SplitStep(x: Text, at: nat, e: Text, more: seq<Text>)
    requires at <= |x| && ElementAt(x, at) == e
    requires if NextComma(x, at) == |x| then more == [] else more == SplitFrom(x, NextComma(x, at) + 1)
    ensures SplitFrom(x, at) == [e] + more
  {
  }

  lemma {:induction false} SplitJoined(x: Text, at: nat, es: seq<Text>)
    requires es != [] && forall i | 0 <= i < |es| :: CommaFree(es[i])
    requires at <= |x| && x[at..] == Join(es)
    ensures SplitFrom(x, at) == es
    decreases |es|
  {
    var e, more := es[0], es[1..];
    if more == [] {
      assert x[at..at + |e|] == e && at + |e| == |x|;
      ElementPut(x, at, e);
      SplitStep(x, at, e, []);
    } else {
      JoinedRest(x, at, es);
      ElementPut(x, at, e);
      SplitJoined(x, at + |e| + 1, more);
      SplitStep(x, at, e, more);
    }
    assert [e] + more == es;
  }

  /** The elements of a joined list are what was joined. */
  lemma SplitJoin(es: seq<Text>)
    requires es != [] && forall i | 0 <= i < |es| :: CommaFree(es[i])
    ensures Split(Join(es)) == es
  {
    assert Join(es)[0..] == Join(es);
    SplitJoined(Join(es), 0, es);
  }

  /** The needle is one of the elements from `at` on. */
  predicate Offered(list: Text, at: nat, needle: Text)
    requires at <= |list|
  {
    needle in SplitFrom(list, at)
  }

  /** No element is longer than what is left of the list. */
  lemma {:induction false} ElementsFit(list: Text, at: nat, needle: Text)
    requires at <= |list| && Offered(list, at, needle)
    ensures |needle| <= |list| - at
    decreases |list| - at
  {
    if needle != ElementAt(list, at) {
      ElementsFit(list, NextComma(list, at) + 1, needle);
    }
  }

  /** Going on behind the next comma loses only the element before it. */
  lemma NextElement(list: Text, at: nat, needle: Text)
    requires at <= |list| && needle != ElementAt(list, at)
    ensures var c := NextComma(list, at);
            Offered(list, at, needle) <==> c < |list| && Offered(list, c + 1, needle)
  {
  }

  // ----- kex_agree_instr

  datatype Found = NotFound | At(index: nat)

  /** A list of `len` bytes without a zero byte, and a zero byte behind it. */
  predicate Terminates(memory: Text, len: nat) {
    len < |memory| && memory[len] == 0 && ZeroFree(memory[..len])
  }

  /** strchr for a comma, from `from` on: it stops at the first zero byte. */
  method StrChr(memory: Text, from: nat, ghost len: nat) returns (r: Found)
    requires Terminates(memory, len) && from <= len
    ensures var c := NextComma(memory[..len], from);
            r == if c < len then At(c) else NotFound
  {
    var i := from;
    ghost var list := memory[..len];
    assert forall k | 0 <= k < len :: list[k] == memory[k];
    while memory[i] != 0
      invariant from <= i <= len && forall k | from <= k < i :: list[k] != COMMA
      decreases len - i
    {
      if memory[i] == COMMA {
        CommaIsUnique(list, from, i);
        return At(i);
      }
      i := i + 1;
    }
    CommaIsUnique(list, from, len);
    return NotFound;
  }

  /** strncmp of a needle without zero bytes against zero-terminated memory. */
  predicate SameStart(memory: Text, at: nat, needle: Text)
    requires at <= |memory|
  {
    at + |needle| <= |memory| && memory[at..at + |needle|] == needle
  }

  /** The test at the place `at` finds the element that starts there. */
  method TestAt(memory: Text, len: nat, at: nat, needle: Text) returns (matches: bool)
    requires Terminates(memory, len) && CommaFree(needle) && at + |needle| <= len
    ensures matches <==> needle == ElementAt(memory[..len], at)
  {
    ghost var list, end := memory[..len], at + |needle|;
    matches := SameStart(memory, at, needle) && (at + |needle| == len || memory[at + |needle|] == COMMA);
    assert memory[at..end] == list[at..end];
    if matches {
      assert forall k | at <= k < end :: list[k] == needle[k - at];
      CommaIsUnique(list, at, end);
    }
  }

  /** Behind the next comma, if the needle can still be there. */
  method Advance(memory: Text, len: nat, needle: Text, s: nat) returns (more: bool, next: nat)
    requires Terminates(memory, len) && s <= len && needle != ElementAt(memory[..len], s)
    ensures more ==> s < next && next + |needle| <= len
    ensures more ==> (Offered(memory[..len], s, needle) <==> Offered(memory[..len], next, needle))
    ensures !more ==> !Offered(memory[..len], s, needle)
  {
    NextElement(memory[..len], s, needle);
    var c := StrChr(memory, s, len);
    if c.NotFound? {
      return false, s;
    }
    if len - c.index <= |needle| {
      TooLong(memory[..len], c.index + 1, needle);
      return false, s;
    }
    return true, c.index + 1;
  }

  /** kex_agree_instr's loop: the element at `start` has been tested, and the search goes on behind the next comma. */
  method SearchOn(memory: Text, len: nat, needle: Text, start: nat) returns (r: Found)
    requires Terminates(memory, len) && CommaFree(needle) && start + |needle| <= len
    requires needle != ElementAt(memory[..len], start)
    ensures r.At? <==> Offered(memory[..len], start, needle)
    ensures r.At? ==> start < r.index <= len && ElementAt(memory[..len], r.index) == needle
  {
    ghost var list := memory[..len];
    var s, more, matches := start, true, false;
    while true
      invariant start <= s && s + |needle| <= len && needle != ElementAt(list, s)
      invariant Offered(list, start, needle) <==> Offered(list, s, needle)
      decreases len - s
    {
      more, s := Advance(memory, len, needle, s);
      if !more {
        return NotFound;
      }
      matches := TestAt(memory, len, s, needle);
      if matches {
        ElementIsOffered(list, s);
        return At(s);
      }
    }
  }

  lemma ElementIsOffered(list: Text, at: nat)
    requires at <= |list|
    ensures Offered(list, at, ElementAt(list, at)) && SplitFrom(list, at)[0] == ElementAt(list, at)
  {
  }

  lemma TooLong(list: Text, at: nat, needle: Text)
    requires at <= |list| && |needle| > |list| - at
    ensures !Offered(list, at, needle)
  {
    if Offered(list, at, needle) {
      ElementsFit(list, at, needle);
    }
  }

  /**
   * kex_agree_instr: looks for the needle in a list that a zero byte follows. It is found exactly when it is one of the
   * list's elements, at the start of one equal to it, and at 0 exactly when it is the first.
   */
  method AgreeInstr(memory: Text, len: nat, needle: Text) returns (r: Found)
    requires Terminates(memory, len) && CommaFree(needle) && ZeroFree(needle)
    ensures r.At? <==> needle in Split(memory[..len])
    ensures r.At? ==> r.index <= len && ElementAt(memory[..len], r.index) == needle
    ensures r == At(0) <==> needle == Split(memory[..len])[0]
  {
    ghost var list := memory[..len];
    ElementIsOffered(list, 0);
    if len < |needle| {
      TooLong(list, 0, needle);
      return NotFound;
    }
    var matches := TestAt(memory, len, 0, needle);
    if matches {
      return At(0);
    }
    r := SearchOn(memory, len, needle, 0);
  }
}
