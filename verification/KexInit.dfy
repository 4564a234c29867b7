/** The KEXINIT message (section 7.1 of RFC 4253): built by kexinit, taken apart by kex_agree_methods. */
module KexInit {
  import opened Bytes
  import opened NameLists

  const SSH_MSG_KEXINIT: byte := 20

  // A preference string set by the application, or the names of the methods compiled in.
  datatype Preference = Chosen(text: Text) | Default(names: seq<Text>) {
    function Text(): (x: NameLists.Text) { if Chosen? then text else Join(names) }
  }

  // ----- what the message says

  function Field(x: Text): (f: seq<byte>)
    ensures |f| == 4 + |x|
  {
    Htonu32(|x|) + x
  }

  function Fields(xs: seq<Text>): (f: seq<byte>) {
    if xs == [] then [] else Fields(xs[..|xs| - 1]) + Field(xs[|xs| - 1])
  }

  function Texts(ps: seq<Preference>): (xs: seq<Text>)
    ensures |xs| == |ps|
  {
    seq(|ps|, i requires 0 <= i < |ps| => ps[i].Text())
  }

  function TotalLength(xs: seq<Text>): (n: nat) {
    if xs == [] then 0 else TotalLength(xs[..|xs| - 1]) + |xs[|xs| - 1]|
  }

  lemma {:induction false} FieldsLength(xs: seq<Text>)
    ensures |Fields(xs)| == 4 * |xs| + TotalLength(xs)
  {
    if xs != [] {
      FieldsLength(xs[..|xs| - 1]);
    }
  }

  /** Type, cookie, the lists, first_kex_packet_follows and the reserved integer. */
  function Message(cookie: seq<byte>, xs: seq<Text>): (m: seq<byte>) {
    [SSH_MSG_KEXINIT] + cookie + Fields(xs) + [0, 0, 0, 0, 0]
  }

  // ----- building it

  /** kex_method_strlen. */
  method MethodStrlen(names: seq<Text>) returns (len: nat)
    ensures len == |Join(names)|
  {
    if names == [] {
      return 0;
    }
    var n: nat, i := 0, 0;
    while i < |names|
      invariant 0 <= i <= |names| && (i > 0 ==> n > 0)
      invariant n + |Join(names[i..])| + (if i < |names| then 1 else 0) == |Join(names)| + 1
    {
      assert names[i..][1..] == names[i + 1..];
      n := n + |names[i]| + 1;
      i := i + 1;
    }
    len := n - 1;
  }

  /** Each name and a comma. */
  function Listed(names: seq<Text>): (x: Text) {
    if names == [] then [] else Listed(names[..|names| - 1]) + names[|names| - 1] + [COMMA]
  }

  lemma {:induction false} JoinSnoc(names: seq<Text>, e: Text)
    ensures Join(names + [e]) == if names == [] then e else Join(names) + [COMMA] + e
  {
    if |names| > 1 {
      JoinSnoc(names[1..], e);
      assert (names + [e])[1..] == names[1..] + [e];
      assert names[0] + [COMMA] + (Join(names[1..]) + [COMMA] + e) ==
          (names[0] + [COMMA] + Join(names[1..])) + [COMMA] + e;
    } else if |names| == 1 {
      assert (names + [e])[1..] == [e];
    } else {
      assert names + [e] == [e];
    }
  }

  lemma {:induction false} ListedIsJoined(names: seq<Text>)
    requires names != []
    ensures Listed(names) == Join(names) + [COMMA]
  {
    var front, e := names[..|names| - 1], names[|names| - 1];
    JoinSnoc(front, e);
    assert front + [e] == names;
    if front != [] {
      ListedIsJoined(front);
      assert (Join(front) + [COMMA]) + e + [COMMA] == (Join(front) + [COMMA] + e) + [COMMA];
    } else {
      assert [] + e + [COMMA] == e + [COMMA];
    }
  }

  /** Copies `x` to `at`. */
  method PutText(buf: array<byte>, at: nat, x: Text)
    requires at + |x| <= buf.Length
    modifies buf
    ensures buf[..at + |x|] == old(buf[..at]) + x
  {
    forall k | 0 <= k < |x| {
      buf[at + k] := x[k];
    }
  }

  method PutLength(buf: array<byte>, at: nat, len: nat)
    requires at + 4 <= buf.Length
    modifies buf
    ensures buf[..at + 4] == old(buf[..at]) + Htonu32(len)
  {
    PutU32(buf, at, len);
    assert buf[..at + 4] == buf[..at] + buf[at..at + 4];
  }

  /** kex_method_list's loop. */
  method PutNames(buf: array<byte>, at: nat, names: seq<Text>) returns (s: nat)
    requires at + |Listed(names)| <= buf.Length
    modifies buf
    ensures s == at + |Listed(names)| && buf[..s] == old(buf[..at]) + Listed(names)
  {
    s := at;
    ghost var before := buf[..at];
    assert names[..0] == [] && before + [] == before;
    for i := 0 to |names|
      invariant s == at + |Listed(names[..i])| && |Listed(names[..i])| <= |Listed(names)|
      invariant buf[..s] == before + Listed(names[..i])
    {
      var e := names[i];
      assert names[..i + 1][..i] == names[..i];
      ListedGrows(names, i + 1);
      PutText(buf, s, e);
      s := s + |e|;
      PutText(buf, s, [COMMA]);
      s := s + 1;
      assert (before + Listed(names[..i])) + e + [COMMA] == before + (Listed(names[..i]) + e + [COMMA]);
    }
    assert names[..|names|] == names;
  }

  /**
   * kex_method_list: the length, and every name with a comma behind it. The last comma lies behind the list's end,
   * where the next field will overwrite it.
   */
  method MethodList(buf: array<byte>, at: nat, len: nat, names: seq<Text>) returns (end: nat)
    requires len == |Join(names)| && at + 4 + len < buf.Length
    modifies buf
    ensures end == at + 4 + len && buf[..end] == old(buf[..at]) + Field(Join(names))
  {
    ghost var before := buf[..at];
    PutLength(buf, at, len);
    if names == [] {
      assert Htonu32(len) + [] == Htonu32(len);
      return at + 4;
    }
    ListedIsJoined(names);
    var s := PutNames(buf, at + 4, names);
    end := len + at + 4;
    assert buf[..end] == buf[..s][..end] == before + Htonu32(len) + Join(names);
  }

  lemma {:induction false} ListedGrows(names: seq<Text>, i: nat)
    requires i <= |names|
    ensures |Listed(names[..i])| <= |Listed(names)|
    decreases |names|
  {
    if i < |names| {
      var front := names[..|names| - 1];
      ListedGrows(front, i);
      assert front[..i] == names[..i];
    } else {
      assert names[..i] == names;
    }
  }

  /** LIBSSH2_METHOD_PREFS_LEN. */
  method PrefsLen(p: Preference) returns (len: nat)
    ensures len == |p.Text()|
  {
    if p.Chosen? {
      len := |p.text|;
    } else {
      len := MethodStrlen(p.names);
    }
  }

  /** LIBSSH2_METHOD_PREFS_STR. */
  method PrefsStr(buf: array<byte>, at: nat, len: nat, p: Preference) returns (end: nat)
    requires len == |p.Text()| && at + 4 + len < buf.Length
    modifies buf
    ensures end == at + 4 + len && buf[..end] == old(buf[..at]) + Field(p.Text())
  {
    if p.Chosen? {
      PutLength(buf, at, len);
      PutText(buf, at + 4, p.text);
      end := at + 4 + len;
    } else {
      end := MethodList(buf, at, len, p.names);
    }
  }

  /** kexinit's ten fields, in order. */
  method PutFields(buf: array<byte>, at: nat, ps: seq<Preference>) returns (end: nat)
    requires at + |Fields(Texts(ps))| < buf.Length
    modifies buf
    ensures end == at + |Fields(Texts(ps))| && buf[..end] == old(buf[..at]) + Fields(Texts(ps))
  {
    ghost var before, xs := buf[..at], Texts(ps);
    end := at;
    assert before + [] == before && xs[..0] == [] && xs[..|xs|] == xs;
    for i := 0 to |ps|
      invariant end == at + |Fields(xs[..i])| <= at + |Fields(xs)| && buf[..end] == before + Fields(xs[..i])
    {
      FieldsSplit(xs, i);
      var len := PrefsLen(ps[i]);
      end := PrefsStr(buf, end, len, ps[i]);
      assert (before + Fields(xs[..i])) + Field(xs[i]) == before + (Fields(xs[..i]) + Field(xs[i]));
    }
  }

  lemma FieldsSplit(xs: seq<Text>, i: nat)
    requires i < |xs|
    ensures Fields(xs[..i + 1]) == Fields(xs[..i]) + Field(xs[i])
    ensures |Fields(xs[..i])| + 4 + |xs[i]| <= |Fields(xs)|
  {
    assert xs[..i + 1][..i] == xs[..i];
    FieldsPrefix(xs, i + 1);
  }

  lemma {:induction false} FieldsPrefix(xs: seq<Text>, i: nat)
    requires i <= |xs|
    ensures |Fields(xs[..i])| <= |Fields(xs)|
    decreases |xs|
  {
    if i < |xs| {
      var front := xs[..|xs| - 1];
      FieldsPrefix(front, i);
      assert front[..i] == xs[..i];
    } else {
      assert xs[..i] == xs;
    }
  }

  /** The lengths, added up as kexinit does. */
  method DataLen(ps: seq<Preference>) returns (n: nat)
    ensures n == 22 + |Fields(Texts(ps))|
  {
    ghost var xs := Texts(ps);
    n := 22 + 4 * |ps|;
    assert xs[..0] == [] && xs[..|xs|] == xs;
    for i := 0 to |ps|
      invariant n == 22 + 4 * |ps| + TotalLength(xs[..i])
    {
      assert xs[..i + 1][..i] == xs[..i];
      var len := PrefsLen(ps[i]);
      n := n + len;
    }
    FieldsLength(xs);
  }

  /** kexinit: the message fills exactly the length computed for it, and no comma is left over. */
  method Kexinit(cookie: seq<byte>, ps: seq<Preference>) returns (data: array<byte>)
    requires |cookie| == 16 && |ps| == 10
    ensures data[..] == Message(cookie, Texts(ps)) && data.Length == 62 + TotalLength(Texts(ps))
    ensures data[0] == 20 && data[1..17] == cookie && Ntohu32(data[17..21]) == |ps[0].Text()| % 0x1_0000_0000
    ensures data[data.Length - 5..] == [0, 0, 0, 0, 0]
  {
    var n := DataLen(ps);
    FieldsLength(Texts(ps));
    data := new byte[n];
    data[0] := SSH_MSG_KEXINIT;
    assert data[..1] == [SSH_MSG_KEXINIT];
    PutText(data, 1, cookie);
    var s := PutFields(data, 17, ps);
    PutText(data, s, [0, 0, 0, 0, 0]);
    assert data[..] == data[..n];
    FirstField(data[..], cookie, Texts(ps));
  }

  lemma FirstField(m: seq<byte>, cookie: seq<byte>, xs: seq<Text>)
    requires |cookie| == 16 && xs != [] && m == Message(cookie, xs)
    ensures |m| >= 26 && m[0] == 20 && m[1..17] == cookie && m[|m| - 5..] == [0, 0, 0, 0, 0]
    ensures Ntohu32(m[17..21]) == |xs[0]| % 0x1_0000_0000
  {
    FieldsStart(xs);
    MessageParts(cookie, Fields(xs));
    NtohuHtonu(|xs[0]|, []);
    assert Htonu32(|xs[0]|) + [] == Htonu32(|xs[0]|);
  }

  lemma MessageParts(cookie: seq<byte>, f: seq<byte>)
    requires |cookie| == 16 && |f| >= 4
    ensures var m := [SSH_MSG_KEXINIT] + cookie + f + [0, 0, 0, 0, 0];
            m[0] == SSH_MSG_KEXINIT && m[1..17] == cookie && m[17..21] == f[..4] && m[|m| - 5..] == [0, 0, 0, 0, 0]
  {
  }

  lemma {:induction false} FieldsStart(xs: seq<Text>)
    requires xs != []
    ensures |Fields(xs)| >= 4 && Fields(xs)[..4] == Htonu32(|xs[0]|)
    decreases |xs|
  {
    var front, last := xs[..|xs| - 1], xs[|xs| - 1];
    if front == [] {
      assert Fields(front) == [] && Field(last)[..4] == Htonu32(|last|);
    } else {
      FieldsStart(front);
    }
  }

  // ----- taking it apart

  datatype Span = Span(at: nat, len: nat)
  datatype Located = Short | Lists(spans: seq<Span>, end: nat)

  /** Where `n` lists lie that start at `at`: each length is read where the list before it ends. */
  function Locate(data: seq<byte>, at: nat, n: nat): (r: Located)
    ensures r.Lists? ==> |r.spans| == n && at <= r.end <= |data|
    ensures r.Lists? ==> forall i | 0 <= i < n :: r.spans[i].at + r.spans[i].len <= |data|
    decreases n
  {
    if n == 0 then if at <= |data| then Lists([], at) else Short
    else if at + 4 > |data| then Short
    else
      var span := Span(at + 4, Ntohu32(data[at..]));
      if span.at + span.len > |data| then Short else
        var r := Locate(data, span.at + span.len, n - 1);
        if r.Short? then Short else Lists([span] + r.spans, r.end)
  }

  function TextAt(data: seq<byte>, s: Span): (x: Text) {
    if s.at + s.len <= |data| then data[s.at..s.at + s.len] else []
  }

  function TextsAt(data: seq<byte>, spans: seq<Span>): (xs: seq<Text>)
    ensures |xs| == |spans|
  {
    if spans == [] then [] else [TextAt(data, spans[0])] + TextsAt(data, spans[1..])
  }

  /** The front field of several. */
  lemma {:induction false} FieldsCons(x: Text, xs: seq<Text>)
    ensures Fields([x] + xs) == Field(x) + Fields(xs)
  {
    if xs == [] {
      assert [x] + xs == [x] && [x][..0] == [];
      assert Fields([]) == [];
      assert [] + Field(x) == Field(x) + [];
    } else {
      FieldsCons(x, xs[..|xs| - 1]);
      assert ([x] + xs)[..|xs|] == [x] + xs[..|xs| - 1];
      assert (Field(x) + Fields(xs[..|xs| - 1])) + Field(xs[|xs| - 1]) ==
          Field(x) + (Fields(xs[..|xs| - 1]) + Field(xs[|xs| - 1]));
    }
  }

  /** One field is located where it was put, whatever surrounds it. */
  lemma LocateOne(data: seq<byte>, at: nat, x: Text, rest: seq<byte>)
    requires at <= |data| && data[at..] == Field(x) + rest && |x| < TWO_TO_THE_32
    ensures at + 4 + |x| <= |data| && Ntohu32(data[at..]) == |x|
    ensures data[at + 4..at + 4 + |x|] == x && data[at + 4 + |x|..] == rest
  {
    assert data[at..] == Htonu32(|x|) + (x + rest);
    NtohuHtonu(|x|, x + rest);
    assert data[at..][4..4 + |x|] == x;
    assert data[at..][4 + |x|..] == rest;
    assert data[at..][4..4 + |x|] == data[at + 4..at + 4 + |x|];
    assert data[at..][4 + |x|..] == data[at + 4 + |x|..];
  }

  /** The lists `xs` lie at `at`, and `rest` behind them. */
  predicate Lies(data: seq<byte>, at: nat, xs: seq<Text>, rest: seq<byte>) {
    at <= |data| && data[at..] == Fields(xs) + rest
  }

  lemma LiesFirst(data: seq<byte>, at: nat, xs: seq<Text>, rest: seq<byte>)
    requires Lies(data, at, xs, rest) && xs != [] && |xs[0]| < TWO_TO_THE_32
    ensures at + 4 + |xs[0]| <= |data| && Ntohu32(data[at..]) == |xs[0]|
    ensures TextAt(data, Span(at + 4, |xs[0]|)) == xs[0]
    ensures Lies(data, at + 4 + |xs[0]|, xs[1..], rest)
    ensures |xs[0]| < 0x100_0000 ==> data[at] == 0
  {
    var x, others := xs[0], xs[1..];
    assert [x] + others == xs;
    FieldsCons(x, others);
    assert Field(x) + Fields(others) + rest == Field(x) + (Fields(others) + rest);
    LocateOne(data, at, x, Fields(others) + rest);
    assert data[at] == data[at..][0] == Htonu32(|x|)[0];
  }

  lemma LocateNext(data: seq<byte>, at: nat, n: nat, len: nat)
    requires n > 0 && at + 4 + len <= |data| && Ntohu32(data[at..]) == len
    ensures Locate(data, at, n) ==
            match Locate(data, at + 4 + len, n - 1)
            case Short => Short
            case Lists(spans, end) => Lists([Span(at + 4, len)] + spans, end)
  {
  }

  /** A length that runs over the end of the message, or is cut off by it, ends the search. */
  lemma LocateRefuses(data: seq<byte>, at: nat, n: nat)
    requires n > 0
    ensures at + 4 > |data| || at + 4 + Ntohu32(data[at..at + 4]) > |data| ==> Locate(data, at, n) == Short
  {
    if at + 4 <= |data| {
      assert Ntohu32(data[at..]) == Ntohu32(data[at..at + 4]);
    }
  }

  /** Every list is shorter than `limit`. */
  predicate Shorter(xs: seq<Text>, limit: nat) { forall i | 0 <= i < |xs| :: |xs[i]| < limit }

  ghost predicate Finds(r: Located, data: seq<byte>, xs: seq<Text>, rest: seq<byte>) {
    r.Lists? && r.end <= |data| && data[r.end..] == rest && TextsAt(data, r.spans) == xs
  }

  /** The lists are found, and what follows the last of them is `rest`. */
  ghost predicate Locates(data: seq<byte>, at: nat, xs: seq<Text>, rest: seq<byte>) {
    Finds(Locate(data, at, |xs|), data, xs, rest)
  }

  lemma FindsOneMore(r: Located, data: seq<byte>, s: Span, xs: seq<Text>, rest: seq<byte>)
    requires Finds(r, data, xs, rest)
    ensures Finds(Lists([s] + r.spans, r.end), data, [TextAt(data, s)] + xs, rest)
  {
    TextsCons(data, s, r.spans);
  }

  lemma LocatesOneMore(data: seq<byte>, at: nat, x: Text, others: seq<Text>, rest: seq<byte>)
    requires at + 4 + |x| <= |data| && Ntohu32(data[at..]) == |x| && TextAt(data, Span(at + 4, |x|)) == x
    requires Locates(data, at + 4 + |x|, others, rest)
    ensures Locates(data, at, [x] + others, rest)
  {
    var r, s := Locate(data, at + 4 + |x|, |others|), Span(at + 4, |x|);
    LocateNext(data, at, |others| + 1, |x|);
    FindsOneMore(r, data, s, others, rest);
    assert Locate(data, at, |[x] + others|) == Lists([s] + r.spans, r.end);
  }

  lemma TextsCons(data: seq<byte>, s: Span, spans: seq<Span>)
    ensures TextsAt(data, [s] + spans) == [TextAt(data, s)] + TextsAt(data, spans)
  {
    assert ([s] + spans)[1..] == spans;
  }

  /** The lists that were put are the lists found; what follows the last of them follows it still. */
  lemma {:induction false} LocateFields(data: seq<byte>, at: nat, xs: seq<Text>, rest: seq<byte>)
    requires Lies(data, at, xs, rest) && Shorter(xs, TWO_TO_THE_32)
    ensures Locates(data, at, xs, rest)
    decreases |xs|
  {
    if xs == [] {
      assert Fields(xs) + rest == rest;
    } else {
      LiesFirst(data, at, xs, rest);
      LocateFields(data, at + 4 + |xs[0]|, xs[1..], rest);
      LocatesOneMore(data, at, xs[0], xs[1..], rest);
      assert [xs[0]] + xs[1..] == xs;
    }
  }

  /** The list is followed by a zero byte. */
  predicate Terminated(data: seq<byte>, s: Span) {
    s.at + s.len < |data| && data[s.at + s.len] == 0
  }

  ghost predicate AllTerminated(data: seq<byte>, at: nat, n: nat) {
    var r := Locate(data, at, n);
    r.Lists? && forall i | 0 <= i < n :: Terminated(data, r.spans[i])
  }

  /** Each list is followed by a zero byte: the next length's first octet, or first_kex_packet_follows. */
  lemma {:induction false} ZeroFollows(data: seq<byte>, at: nat, xs: seq<Text>, rest: seq<byte>)
    requires Lies(data, at, xs, rest) && rest != [] && rest[0] == 0 && Shorter(xs, 0x100_0000)
    ensures AllTerminated(data, at, |xs|) && at < |data| && data[at] == 0
    decreases |xs|
  {
    if xs == [] {
      assert data[at] == data[at..][0] == (Fields(xs) + rest)[0];
    } else {
      LiesFirst(data, at, xs, rest);
      LocateNext(data, at, |xs|, |xs[0]|);
      ZeroFollows(data, at + 4 + |xs[0]|, xs[1..], rest);
    }
  }

  lemma MessageLies(cookie: seq<byte>, xs: seq<Text>)
    requires |cookie| == 16
    ensures Lies(Message(cookie, xs), 17, xs, [0, 0, 0, 0, 0])
  {
  }

  /**
   * What one side builds the other takes apart: the lists come back, each with a zero byte behind it, and what is left
   * is the flag and the reserved integer.
   */
  lemma RoundTrip(cookie: seq<byte>, xs: seq<Text>)
    requires |cookie| == 16 && Shorter(xs, 0x100_0000)
    ensures Locates(Message(cookie, xs), 17, xs, [0, 0, 0, 0, 0])
    ensures AllTerminated(Message(cookie, xs), 17, |xs|)
  {
    MessageLies(cookie, xs);
    LocateFields(Message(cookie, xs), 17, xs, [0, 0, 0, 0, 0]);
    ZeroFollows(Message(cookie, xs), 17, xs, [0, 0, 0, 0, 0]);
  }
}
