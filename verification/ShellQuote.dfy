/** libssh2_shell_quotearg, against a reader of shell words. */
module ShellQuote {

  const NUL := '\0'
  const APOSTROPHE := '\''
  const QUOTE := '"'
  const BACKSLASH := '\\'
  const BANG := '!'

  datatype State = UqString | SqString | QString

  // ----- the text that is written

  /** The state a character is written in. */
  function Home(c: char): (s: State) {
    if c == APOSTROPHE then QString else if c == BANG then UqString else SqString
  }

  function Opening(s: State): (x: string) {
    match s case UqString => "" case SqString => [APOSTROPHE] case QString => [QUOTE]
  }

  /** What goes before a character: the quotes that end one state and start another, or a backslash. */
  function Lead(s: State, c: char): (x: string)
    ensures |x| <= 2
  {
    if c == BANG then Opening(s) + [BACKSLASH]
    else if s == Home(c) then ""
    else Opening(s) + Opening(Home(c))
  }

  /** The text for the rest of a path, from a state on. */
  function QuotedFrom(s: State, path: string): (x: string)
    decreases |path|
  {
    if path == "" then Opening(s) else Lead(s, path[0]) + [path[0]] + QuotedFrom(Home(path[0]), path[1..])
  }

  function Quoted(path: string): (x: string) { QuotedFrom(UqString, path) }

  lemma {:induction false} QuotedLength(s: State, path: string)
    ensures |QuotedFrom(s, path)| <= 3 * |path| + |Opening(s)|
    decreases |path|
  {
    if path != "" {
      QuotedLength(Home(path[0]), path[1..]);
    }
  }

  /** At most three characters for each of the path's. */
  lemma AtMostThrice(path: string)
    ensures |Quoted(path)| <= 3 * |path|
    ensures Quoted(path) == "" <==> path == ""
  {
    QuotedLength(UqString, path);
  }

  lemma QuotedNext(s: State, c: char, rest: string)
    ensures QuotedFrom(s, [c] + rest) == Lead(s, c) + [c] + QuotedFrom(Home(c), rest)
  {
    assert ([c] + rest)[1..] == rest;
  }

  /** A run of characters that are neither apostrophes nor exclamation marks stays inside one pair of quotes. */
  lemma {:induction false} QuotedRun(w: string, rest: string)
    requires APOSTROPHE !in w && BANG !in w
    ensures QuotedFrom(SqString, w + rest) == w + QuotedFrom(SqString, rest)
  {
    if w == "" {
      assert w + rest == rest;
    } else {
      assert w + rest == [w[0]] + (w[1..] + rest);
      QuotedNext(SqString, w[0], w[1..] + rest);
      QuotedRun(w[1..], rest);
    }
  }

  /**
   * Such a word is put in single quotes; an apostrophe behind it goes in double quotes, and an exclamation mark behind
   * a backslash, outside all quotes.
   */
  lemma QuotedExamples(w: string)
    requires w != "" && APOSTROPHE !in w && BANG !in w
    ensures Quoted(w) == "'" + w + "'"
    ensures Quoted(w + "'") == "'" + w + "'" + "\"'\""
    ensures Quoted(w + "!") == "'" + w + "'" + "\\!"
  {
    QuotedWord(w, "");
    QuotedWord(w, "'");
    QuotedWord(w, "!");
    assert w + "" == w;
    QuotedNext(SqString, APOSTROPHE, "");
    QuotedNext(SqString, BANG, "");
    assert "'" + "" == "'" && "!" + "" == "!";
  }

  lemma QuotedWord(w: string, rest: string)
    requires w != "" && APOSTROPHE !in w && BANG !in w
    ensures Quoted(w + rest) == "'" + (w + QuotedFrom(SqString, rest))
  {
    var c, others, q := w[0], w[1..], QuotedFrom(SqString, rest);
    assert c in w && w == [c] + others;
    QuotedNext(UqString, c, others + rest);
    QuotedRun(others, rest);
    assert [c] + (others + rest) == w + rest;
    assert Lead(UqString, c) == "'";
    Glue("'", c, others, q);
  }

  lemma Glue(a: string, c: char, others: string, q: string)
    ensures a + [c] + (others + q) == a + (([c] + others) + q)
  {
  }

  // ----- how a shell reads it

  datatype Reading = NotOneWord | Word(text: string)

  /** Characters that stand for themselves outside quotes, in the Bourne shell and its descendants. */
  predicate Plain(c: char) {
    'a' <= c <= 'z' || 'A' <= c <= 'Z' || '0' <= c <= '9' || c in {'_', '-', '.', '/', ',', ':', '@', '+'}
  }

  function Then(c: char, r: Reading): Reading { if r.Word? then Word([c] + r.text) else r }

  /**
   * The one literal word that a text is, to a reader for whom quotes group, a backslash outside them takes the next
   * character literally, and an exclamation mark is literal nowhere else: neither in single nor in double quotes.
   */
  function ReadWord(s: State, x: string): (r: Reading)
    decreases |x|
  {
    if x == "" then if s == UqString then Word("") else NotOneWord
    else if s == UqString then
      if x[0] == APOSTROPHE then ReadWord(SqString, x[1..])
      else if x[0] == QUOTE then ReadWord(QString, x[1..])
      else if x[0] == BACKSLASH then
        if |x| == 1 || x[1] == '\n' then NotOneWord else Then(x[1], ReadWord(UqString, x[2..]))
      else if Plain(x[0]) then Then(x[0], ReadWord(UqString, x[1..]))
      else NotOneWord
    else if x[0] == BANG || x[0] == NUL then NotOneWord
    else if s == SqString then
      if x[0] == APOSTROPHE then ReadWord(UqString, x[1..]) else Then(x[0], ReadWord(SqString, x[1..]))
    else
      if x[0] == QUOTE then ReadWord(UqString, x[1..])
      else if x[0] in {'$', '`', BACKSLASH} then NotOneWord
      else Then(x[0], ReadWord(QString, x[1..]))
  }

  /** Reading a state's closing quote, and then another's opening quote. */
  lemma ReadsChange(s: State, t: State, x: string)
    requires s != t
    ensures ReadWord(s, Opening(s) + Opening(t) + x) == ReadWord(t, x)
  {
    var y := Opening(t) + x;
    assert Opening(s) + Opening(t) + x == Opening(s) + y;
    if t != UqString {
      assert y[1..] == x;
    } else {
      assert y == x;
    }
    if s != UqString {
      assert (Opening(s) + y)[1..] == y;
    } else {
      assert Opening(s) + y == y;
    }
  }

  /** A character written in its state is read there. */
  lemma ReadsCharacter(s: State, c: char, x: string)
    requires c != NUL && c != BANG
    ensures ReadWord(s, Lead(s, c) + [c] + x) == Then(c, ReadWord(Home(c), x))
  {
    var t := Home(c);
    assert ([c] + x)[1..] == x;
    assert ReadWord(t, [c] + x) == Then(c, ReadWord(t, x));
    if s != t {
      assert Lead(s, c) + [c] + x == Opening(s) + Opening(t) + ([c] + x);
      ReadsChange(s, t, [c] + x);
    } else {
      assert Lead(s, c) + [c] + x == [c] + x;
    }
  }

  /** An exclamation mark is read behind its backslash. */
  lemma ReadsBang(s: State, x: string)
    ensures ReadWord(s, Lead(s, BANG) + [BANG] + x) == Then(BANG, ReadWord(UqString, x))
  {
    var y := [BACKSLASH] + [BANG] + x;
    assert y[2..] == x && y[0] == BACKSLASH && y[1] == BANG;
    assert ReadWord(UqString, y) == Then(BANG, ReadWord(UqString, x));
    assert Lead(s, BANG) + [BANG] + x == Opening(s) + Opening(UqString) + y;
    if s != UqString {
      ReadsChange(s, UqString, y);
    } else {
      assert Opening(s) + Opening(UqString) + y == y;
    }
  }

  /** A shell reads the quoted path as one word, and as the path. */
  lemma {:induction false} ReadsBack(s: State, path: string)
    requires NUL !in path
    ensures ReadWord(s, QuotedFrom(s, path)) == Word(path)
    decreases |path|
  {
    if path == "" {
      if s != UqString {
        assert Opening(s)[1..] == "";
      }
    } else {
      var c, rest := path[0], path[1..];
      ReadsBack(Home(c), rest);
      if c == BANG {
        ReadsBang(s, QuotedFrom(UqString, rest));
      } else {
        ReadsCharacter(s, c, QuotedFrom(Home(c), rest));
      }
      assert [c] + rest == path;
    }
  }

  lemma RoundTrip(path: string)
    requires NUL !in path
    ensures ReadWord(UqString, Quoted(path)) == Word(path)
  {
    ReadsBack(UqString, path);
  }

  // ----- writing it

  /** *dst++ = c, after checking that a character still fits behind it. */
  method Put(buf: array<char>, dst: nat, x: string) returns (ok: bool, end: nat)
    requires dst <= buf.Length
    modifies buf
    ensures ok <==> dst + |x| < buf.Length
    ensures ok ==> end == dst + |x| && buf[..end] == old(buf[..dst]) + x
  {
    if dst + |x| >= buf.Length {
      return false, dst;
    }
    forall k | 0 <= k < |x| {
      buf[dst + k] := x[k];
    }
    return true, dst + |x|;
  }

  /** The switch on the character and the state: what has to be written before the character. */
  method PutLead(buf: array<char>, dst: nat, state: State, c: char) returns (ok: bool, end: nat, next: State)
    requires dst <= buf.Length
    modifies buf
    ensures ok ==> end == dst + |Lead(state, c)| <= buf.Length && buf[..end] == old(buf[..dst]) + Lead(state, c)
    ensures !ok ==> dst + |Lead(state, c)| >= buf.Length
    ensures ok ==> next == Home(c)
  {
    ok, end, next := true, dst, Home(c);
    if c == APOSTROPHE {
      match state
      case UqString => ok, end := Put(buf, dst, "\"");
      case QString =>
      case SqString => ok, end := Put(buf, dst, "'\"");
    } else if c == BANG {
      match state
      case UqString => ok, end := Put(buf, dst, "\\");
      case QString => ok, end := Put(buf, dst, "\"\\");
      case SqString => ok, end := Put(buf, dst, "'\\");
    } else {
      match state
      case UqString => ok, end := Put(buf, dst, "'");
      case QString => ok, end := Put(buf, dst, "\"'");
      case SqString =>
    }
  }

  /** What is written, and what the rest of the path will add to it. */
  lemma OneMore(path: string, i: nat, s: State, written: string)
    requires i < |path| && written + QuotedFrom(s, path[i..]) == Quoted(path)
    ensures (written + Lead(s, path[i]) + [path[i]]) + QuotedFrom(Home(path[i]), path[i + 1..]) == Quoted(path)
    ensures |written| + |Lead(s, path[i])| + 1 <= |Quoted(path)|
  {
    var c := path[i];
    assert path[i..][1..] == path[i + 1..];
    Regroup(written, Lead(s, c), [c], QuotedFrom(Home(c), path[i + 1..]));
  }

  lemma Regroup(a: string, b: string, c: string, d: string)
    ensures a + (b + c + d) == (a + b + c) + d
  {
  }

  /** The loop: it writes the quoted path but for its last quote, or fails, or stops early with no room left. */
  method PutPath(path: string, buf: array<char>) returns (ok: bool, dst: nat, state: State)
    modifies buf
    ensures ok ==> dst <= buf.Length
    ensures ok ==> buf[..dst] + Opening(state) == Quoted(path) || (dst + 1 >= buf.Length && |Quoted(path)| > dst)
    ensures !ok ==> |Quoted(path)| + 1 >= buf.Length
  {
    ok, dst, state := true, 0, UqString;
    var src := 0;
    assert path[0..] == path && buf[..0] == "";
    while src < |path| && dst < buf.Length - 1
      invariant src <= |path| && dst <= buf.Length
      invariant buf[..dst] + QuotedFrom(state, path[src..]) == Quoted(path)
    {
      var c := path[src];
      OneMore(path, src, state, buf[..dst]);
      ok, dst, state := PutLead(buf, dst, state, c);
      if !ok {
        return;
      }
      ok, dst := Put(buf, dst, [c]);
      if !ok {
        return;
      }
      src := src + 1;
    }
    if src < |path| {
      OneMore(path, src, state, buf[..dst]);
    } else {
      assert path[src..] == "";
    }
  }

  /**
   * libssh2_shell_quotearg. A result that is not 0 is the length of the whole quoted path, terminated; the buffer is
   * large enough exactly when it has room for the quoted path and two characters more.
   */
  method QuoteArg(path: string, buf: array<char>) returns (n: nat)
    requires NUL !in path
    modifies buf
    ensures if |Quoted(path)| + 2 <= buf.Length then
              n == |Quoted(path)| && buf[..n] == Quoted(path) && buf[n] == NUL
            else n == 0
    ensures 3 * |path| + 2 <= buf.Length ==> n == |Quoted(path)|
  {
    AtMostThrice(path);
    var ok, dst, state := PutPath(path, buf);
    if !ok {
      return 0;
    }
    if state != UqString {
      ok, dst := Put(buf, dst, Opening(state));
      if !ok {
        return 0;
      }
    }
    if dst + 1 >= buf.Length {
      return 0;
    }
    buf[dst] := NUL;
    n := dst;
  }
}
