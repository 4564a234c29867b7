/** The known_hosts store: lines written by knownhost_writeline, read by libssh2_knownhost_readline, and the check. */
module KnownHosts {
  import opened Bytes
  import opened Naming
  import Base64

  const NUL := '\0'

  datatype KeyType = Rsa1 | SshRsa | SshDss

  // SHA1 entries keep the decoded hash and salt.
  datatype Name = Plain(name: string) | Sha1(hash: seq<byte>, salt: seq<byte>) | Custom(prehashed: string)
  datatype Entry = Entry(name: Name, keyType: KeyType, key: string)

  // ----- writing

  function KeyWord(t: KeyType): (w: string) {
    match t case Rsa1 => "" case SshRsa => " ssh-rsa" case SshDss => " ssh-dss"
  }

  function HostText(n: Name): (h: string) {
    match n
    case Plain(name) => name
    case Custom(name) => name
    case Sha1(hash, salt) => "|1|" + Base64.Encode(salt) + "|" + Base64.Encode(hash)
  }

  function KeyText(e: Entry): (k: string) { KeyWord(e.keyType) + " " + e.key }

  function Line(e: Entry): (l: string) { HostText(e.name) + KeyText(e) + "\n" }

  /** A line: the host, the key type but for rsa1, and the key, a space between each; a hashed host, salt first. */
  lemma WrittenLines(name: string, hash: seq<byte>, salt: seq<byte>, key: string)
    ensures Line(Entry(Plain(name), Rsa1, key)) == name + (" " + key + "\n")
    ensures Line(Entry(Plain(name), SshRsa, key)) == name + (" ssh-rsa " + key + "\n")
    ensures Line(Entry(Plain(name), SshDss, key)) == name + (" ssh-dss " + key + "\n")
    ensures Line(Entry(Custom(name), SshRsa, key)) == name + (" ssh-rsa " + key + "\n")
    ensures Line(Entry(Sha1(hash, salt), SshRsa, key)) ==
            ("|1|" + Base64.Encode(salt) + "|" + Base64.Encode(hash)) + (" ssh-rsa " + key + "\n")
  {
    var h := "|1|" + Base64.Encode(salt) + "|" + Base64.Encode(hash);
    LineOfParts(Entry(Plain(name), Rsa1, key), name, " ");
    LineOfParts(Entry(Plain(name), SshRsa, key), name, " ssh-rsa ");
    LineOfParts(Entry(Plain(name), SshDss, key), name, " ssh-dss ");
    LineOfParts(Entry(Custom(name), SshRsa, key), name, " ssh-rsa ");
    LineOfParts(Entry(Sha1(hash, salt), SshRsa, key), h, " ssh-rsa ");
  }

  lemma LineOfParts(e: Entry, h: string, t: string)
    requires h == HostText(e.name) && t == KeyWord(e.keyType) + " "
    ensures Line(e) == h + (t + e.key + "\n")
  {
  }

  datatype WriteResult = Written | TooSmall | AllocFailed

  /**
   * knownhost_writeline: the line and its terminator, if they fit, and the length of the line either way. An empty
   * hash or salt cannot be encoded.
   */
  method WriteLine(e: Entry, buf: array<char>) returns (r: WriteResult, outlen: nat)
    modifies buf
    ensures r == AllocFailed <==> e.name.Sha1? && (e.name.hash == [] || e.name.salt == [])
    ensures r != AllocFailed ==> outlen == |Line(e)| && (r == Written <==> |Line(e)| < buf.Length)
    ensures r == Written ==> buf[..outlen] == Line(e) && buf[outlen] == NUL
    ensures r != Written ==> buf[..] == old(buf[..])
  {
    if e.name.Sha1? && (e.name.hash == [] || e.name.salt == []) {
      return AllocFailed, 0;
    }
    var line := Line(e);
    if |line| + 1 <= buf.Length {
      forall k | 0 <= k < |line| {
        buf[k] := line[k];
      }
      buf[|line|] := NUL;
      return Written, |line|;
    }
    return TooSmall, |line|;
  }

  // ----- reading: the places in a line

  predicate Blank(c: char) { c == ' ' || c == '\t' }

  /** The first place at or after `i` that is not blank. */
  function SkipBlanks(line: string, i: nat): (j: nat)
    requires i <= |line|
    ensures i <= j <= |line| && (j < |line| ==> !Blank(line[j]))
    ensures forall k | i <= k < j :: Blank(line[k])
    decreases |line| - i
  {
    if i < |line| && Blank(line[i]) then SkipBlanks(line, i + 1) else i
  }

  /** The first place at or after `i` that is blank. */
  function SkipWord(line: string, i: nat): (j: nat)
    requires i <= |line|
    ensures i <= j <= |line| && (j < |line| ==> Blank(line[j]))
    ensures forall k | i <= k < j :: !Blank(line[k])
    decreases |line| - i
  {
    if i < |line| && !Blank(line[i]) then SkipWord(line, i + 1) else i
  }

  /** The first `c` at or after `i`, or the end. */
  function Find(line: string, i: nat, c: char): (j: nat)
    requires i <= |line|
    ensures i <= j <= |line| && (j < |line| ==> line[j] == c)
    ensures forall k | i <= k < j :: line[k] != c
    decreases |line| - i
  {
    if i < |line| && line[i] != c then Find(line, i + 1, c) else i
  }

  // ----- reading: what a line means

  // `added` are the entries appended to the store, in that order.
  datatype Parsed = Parsed(ok: bool, added: seq<Entry>)

  const FAILED := Parsed(false, [])
  const NOTHING := Parsed(true, [])

  /** The host part of a line, and the name or names in it. */
  datatype Host = Bad | Ignored | Names(names: seq<Name>)

  /** Two names of a plain host part: behind the first comma, which is added first, and before it. */
  function PlainHost(host: string): (h: Host)
    ensures h.Names? ==> 1 <= |h.names| <= 2
  {
    var c := Find(host, 0, ',');
    if c == |host| then if |host| >= 255 then Bad else Names([Plain(host)])
    else if |host| - c - 1 >= 255 || c >= 255 then Bad
    else Names([Plain(host[c + 1..]), Plain(host[..c])])
  }

  /**
   * |1|salt|hash. The end of the salt is looked for in the whole line, behind a host part of fewer than three
   * characters too; if it lies behind the host part, the hash's length is taken to be enormous.
   */
  function HashedHost(line: string, i: nat, j: nat): (h: Host)
    requires i <= j <= |line|
    ensures h.Names? ==> |h.names| == 1 && h.names[0].Sha1?
  {
    if i + 3 > |line| then Ignored else
      var p := Find(line, i + 3, '|');
      if p == |line| then Ignored
      else if p - (i + 3) >= 31 then Bad
      else if p + 1 > j || j - (p + 1) >= 255 then Bad
      else
        match (Base64.Decode(line[p + 1..j]), Base64.Decode(line[i + 3..p]))
        case (Data(hash), Data(salt)) => Names([Sha1(hash, salt)])
        case _ => Bad
  }

  /** More than two characters that do not begin with |1|. */
  predicate LooksPlain(host: string) { |host| > 2 && host[..3] != "|1|" }

  function HostPart(line: string, i: nat, j: nat): (h: Host)
    requires i <= j <= |line|
    ensures h.Names? ==> 1 <= |h.names| <= 2 && !h.names[0].Custom?
  {
    if LooksPlain(line[i..j]) then PlainHost(line[i..j]) else HashedHost(line, i, j)
  }

  datatype Key = NoKey | Key(keyType: KeyType, text: string)

  /** The key part: its type, and the text stored. A key of blanks alone takes what is behind it in the line. */
  function KeyPart(key: string, behind: string): (k: Key) {
    if |key| < 20 then NoKey
    else if '0' <= key[0] <= '9' then Key(Rsa1, key)
    else if key[..7] == "ssh-dss" || key[..7] == "ssh-rsa" then
      var rest := key[SkipBlanks(key, 7)..];
      Key(if key[..7] == "ssh-dss" then SshDss else SshRsa, if rest == "" then behind else rest)
    else NoKey
  }

  /** Where host and key lie in a line, if it is not empty or a comment. */
  datatype Places = Empty | Illegal | Parts(host: nat, hostEnd: nat, key: nat, keyEnd: nat)

  function PlacesIn(line: string): (p: Places)
    ensures p.Parts? ==> p.host <= p.hostEnd <= p.key <= p.keyEnd <= |line|
  {
    var i := SkipBlanks(line, 0);
    if i == |line| || line[i] == '#' || line[i] == '\n' then Empty else
      var j := SkipWord(line, i);
      var k := SkipBlanks(line, j);
      if k == |line| then Illegal else Parts(i, j, k, if Find(line, k, '\n') < |line| then |line| - 1 else |line|)
  }

  /** What is read from a line: nothing from an empty one or a comment. */
  function ReadLine(line: string): (r: Parsed) {
    match PlacesIn(line)
    case Empty => NOTHING
    case Illegal => FAILED
    case Parts(i, j, k, end) => Combined(HostPart(line, i, j), KeyPart(line[k..end], line[end..]))
  }

  /** hostline's verdict: a host part without names is ignored before the key is looked at. */
  function Combined(host: Host, key: Key): (r: Parsed) {
    match host
    case Bad => FAILED
    case Ignored => NOTHING
    case Names(names) => if key.NoKey? then FAILED else Parsed(true, WithKey(names, key.keyType, key.text))
  }

  function WithKey(names: seq<Name>, t: KeyType, key: string): (es: seq<Entry>)
    ensures |es| == |names| && forall i | 0 <= i < |es| :: es[i] == Entry(names[i], t, key)
  {
    seq(|names|, i requires 0 <= i < |names| => Entry(names[i], t, key))
  }

  // ----- reading back what was written

  /** A word: at least one character, and no blank. */
  predicate IsWord(h: string) { h != "" && forall k | 0 <= k < |h| :: h[k] != ' ' && h[k] != '\t' }

  /** A key that the parser takes for what it is. */
  predicate KeyFits(e: Entry) {
    if e.keyType == Rsa1 then |e.key| >= 20 && '0' <= e.key[0] <= '9'
    else |e.key| >= 12 && e.key[0] != ' ' && e.key[0] != '\t'
  }

  /** Text that ends no line. */
  predicate OneLine(x: string) { '\n' !in x && NUL !in x }

  lemma SkipWordStops(line: string, i: nat, j: nat)
    requires i <= j < |line| && Blank(line[j]) && forall k | i <= k < j :: !Blank(line[k])
    ensures SkipWord(line, i) == j
  {
  }

  lemma SkipBlanksStops(line: string, i: nat, j: nat)
    requires i <= j < |line| && !Blank(line[j]) && forall k | i <= k < j :: Blank(line[k])
    ensures SkipBlanks(line, i) == j
  {
  }

  lemma FindStops(line: string, i: nat, c: char, j: nat)
    requires i <= j <= |line| && (j < |line| ==> line[j] == c) && forall k | i <= k < j :: line[k] != c
    ensures Find(line, i, c) == j
  {
  }

  /** The key part of a written line is read as the key written. */
  lemma KeyRead(e: Entry, behind: string)
    requires KeyFits(e)
    ensures KeyText(e)[0] == ' ' && !Blank(KeyText(e)[1])
    ensures KeyPart(KeyText(e)[1..], behind) == Key(e.keyType, e.key)
  {
    var k := KeyText(e)[1..];
    if e.keyType == Rsa1 {
      assert k == e.key;
    } else {
      var w := KeyWord(e.keyType)[1..];
      assert k == w + " " + e.key && |w| == 7;
      assert k[..7] == w && k[8..] == e.key && k[8] == e.key[0];
      SkipBlanksStops(k, 7, 8);
    }
  }

  /** Where the parts of a written line are found. */
  lemma PartsFound(h: string, e: Entry)
    requires IsWord(h) && KeyFits(e)
    ensures var line := h + KeyText(e) + "\n";
            && SkipBlanks(line, 0) == 0 && SkipWord(line, 0) == |h| && SkipBlanks(line, |h|) == |h| + 1
            && Find(line, |h| + 1, '\n') < |line|
            && line[..|h|] == h && line[|h| + 1..|line| - 1] == KeyText(e)[1..]
  {
    Joined(h, KeyText(e), "\n");
    HostFound(h, e);
    KeyRead(e, "");
    KeyFound(h, e);
  }

  lemma HostFound(h: string, e: Entry)
    requires IsWord(h)
    ensures var line := h + KeyText(e) + "\n";
            SkipBlanks(line, 0) == 0 && SkipWord(line, 0) == |h|
  {
    var line := h + KeyText(e) + "\n";
    Joined(h, KeyText(e), "\n");
    SkipBlanksStops(line, 0, 0);
    assert KeyText(e)[0] == ' ';
    SkipWordStops(line, 0, |h|);
  }

  lemma KeyFound(h: string, e: Entry)
    requires |KeyText(e)| > 1 && !Blank(KeyText(e)[1])
    ensures var line := h + KeyText(e) + "\n";
            SkipBlanks(line, |h|) == |h| + 1 && Find(line, |h| + 1, '\n') < |line|
  {
    var kt := KeyText(e);
    var line := h + kt + "\n";
    Joined(h, kt, "\n");
    assert line[|h|] == kt[0] == ' ' && line[|h| + 1] == kt[1];
    SkipBlanksStops(line, |h|, |h| + 1);
    assert line[|line| - 1] == '\n';
  }

  lemma Joined(h: string, kt: string, end: string)
    requires kt != ""
    ensures var line := h + kt + end;
            && line[..|h|] == h && line[|h| + 1..|h| + |kt|] == kt[1..]
            && (forall k | 0 <= k < |h| :: line[k] == h[k])
            && (forall k | |h| <= k < |h| + |kt| :: line[k] == kt[k - |h|])
  {
  }

  lemma NoNewlineInKey(e: Entry)
    requires OneLine(e.key)
    ensures forall k | 0 <= k < |KeyText(e)| :: KeyText(e)[k] != '\n'
  {
    var w := KeyWord(e.keyType) + " ";
    assert KeyText(e) == w + e.key;
  }

  /** What a written line is read as depends on what its host part is read as. */
  lemma LineRead(e: Entry)
    requires IsWord(HostText(e.name)) && KeyFits(e)
    ensures var h := HostText(e.name);
            ReadLine(Line(e)) ==
              if h[0] in {'#', '\n'} then NOTHING else Combined(HostPart(Line(e), 0, |h|), Key(e.keyType, e.key))
  {
    var h, line := HostText(e.name), Line(e);
    PartsFound(h, e);
    KeyRead(e, line[|line| - 1..]);
    assert line[0] == h[0];
  }

  /** Where the key of a type with a name lies. */
  lemma NamedKeyFound(e: Entry, h: string)
    requires IsWord(h) && e.keyType != Rsa1
    ensures var line := h + KeyText(e) + "\n";
            var p := PlacesIn(line);
            p.Parts? ==> line[p.key..p.keyEnd] == KeyText(e)[1..] && line[p.keyEnd..] == "\n"
  {
    var kt := KeyText(e);
    HostFound(h, e);
    assert kt[1] == 's';
    KeyFound(h, e);
    Joined(h, kt, "\n");
    assert (h + kt + "\n")[|h + kt|..] == "\n";
  }

  /** A key that is read as it was given is one the parser takes for what it is. */
  lemma NamedKeyTaken(e: Entry)
    requires e.keyType != Rsa1 && KeyPart(KeyText(e)[1..], "\n") == Key(e.keyType, e.key)
    ensures KeyFits(e)
  {
    var w, k := KeyWord(e.keyType)[1..], KeyText(e)[1..];
    assert |k| == |w| + 1 + |e.key| == 8 + |e.key|;
    var i := SkipBlanks(k, 7);
    assert i < |k| && e.key == k[i..] && e.key[0] == k[i];
  }

  lemma RsaKeyTaken(key: string, behind: string, text: string)
    requires KeyPart(key, behind) == Key(Rsa1, text)
    ensures |text| >= 20 && '0' <= text[0] <= '9'
  {
  }

  /** A key that is read back is one the parser takes for what it is. */
  lemma KeyBack(e: Entry, h: string)
    requires IsWord(h)
    requires var line := h + KeyText(e) + "\n";
             var p := PlacesIn(line);
             p.Parts? && KeyPart(line[p.key..p.keyEnd], line[p.keyEnd..]) == Key(e.keyType, e.key)
    ensures KeyFits(e)
  {
    var line := h + KeyText(e) + "\n";
    var p := PlacesIn(line);
    if e.keyType == Rsa1 {
      RsaKeyTaken(line[p.key..p.keyEnd], line[p.keyEnd..], e.key);
    } else {
      NamedKeyFound(e, h);
      NamedKeyTaken(e);
    }
  }

  /** The plain names that the parser takes for what they are. */
  predicate PlainFits(name: string) {
    |name| > 2 && name[..3] != "|1|" && |name| < 255 && ',' !in name && name[0] !in {'#', '\n'}
  }

  /** One entry comes of one name, and of its key. */
  lemma OneEntry(host: Host, key: Key, e: Entry)
    ensures Combined(host, key) == Parsed(true, [e]) <==> host == Names([e.name]) && key == Key(e.keyType, e.key)
  {
    if host.Names? && key.Key? {
      var es := WithKey(host.names, key.keyType, key.text);
      assert es == [e] <==> |es| == 1 && es[0] == e;
      assert host.names == [e.name] <==> |host.names| == 1 && host.names[0] == e.name;
    }
  }

  /** An entry read back is what host and key of the line are read as. */
  lemma EntryBack(e: Entry)
    requires ReadLine(Line(e)) == Parsed(true, [e])
    ensures var line, p := Line(e), PlacesIn(Line(e));
            && p.Parts? && HostPart(line, p.host, p.hostEnd) == Names([e.name])
            && KeyPart(line[p.key..p.keyEnd], line[p.keyEnd..]) == Key(e.keyType, e.key)
  {
    var line := Line(e);
    var p := PlacesIn(line);
    if p.Parts? {
      OneEntry(HostPart(line, p.host, p.hostEnd), KeyPart(line[p.key..p.keyEnd], line[p.keyEnd..]), e);
    }
  }

  /** A host part is read as one plain name when it is one. */
  lemma PlainHostRead(line: string, i: nat, j: nat, name: string)
    requires i <= j <= |line|
    ensures HostPart(line, i, j) == Names([Plain(name)]) <==>
              line[i..j] == name && LooksPlain(name) && |name| < 255 && ',' !in name
  {
    var host := line[i..j];
    var c := Find(host, 0, ',');
    assert c < |host| ==> ',' in host;
  }

  /** A plain entry whose name is a word and whose key fits comes back exactly when its name is of that kind. */
  lemma PlainRead(e: Entry)
    requires e.name.Plain? && IsWord(e.name.name) && KeyFits(e)
    ensures ReadLine(Line(e)) == Parsed(true, [e]) <==> PlainFits(e.name.name)
  {
    var name, line := e.name.name, Line(e);
    LineRead(e);
    OneEntry(HostPart(line, 0, |name|), Key(e.keyType, e.key), e);
    PlainHostRead(line, 0, |name|, name);
    assert line[0..|name|] == name;
  }

  /** One plain name read is the host part of the line. */
  lemma NameBack(e: Entry)
    requires e.name.Plain? && ReadLine(Line(e)) == Parsed(true, [e])
    ensures IsWord(e.name.name)
  {
    var line := Line(e);
    var p := PlacesIn(line);
    EntryBack(e);
    PlainHostRead(line, p.host, p.hostEnd, e.name.name);
    WordBack(line);
  }

  lemma WordBack(line: string)
    requires PlacesIn(line).Parts?
    ensures IsWord(line[PlacesIn(line).host..PlacesIn(line).hostEnd])
  {
    var p := PlacesIn(line);
    var w := line[p.host..p.hostEnd];
    assert !Blank(line[p.host]) && p.host < p.hostEnd;
    forall k | 0 <= k < |w|
      ensures w[k] != ' ' && w[k] != '\t'
    {
      assert w[k] == line[p.host + k] && !Blank(line[p.host + k]);
    }
  }

  /**
   * A plain entry survives being written and read exactly when its name has no blank and is taken for one plain name,
   * and its key is taken for what it is.
   */
  lemma PlainRoundTrip(e: Entry)
    requires e.name.Plain?
    ensures ReadLine(Line(e)) == Parsed(true, [e]) <==> IsWord(e.name.name) && PlainFits(e.name.name) && KeyFits(e)
  {
    if ReadLine(Line(e)) == Parsed(true, [e]) {
      NameBack(e);
      EntryBack(e);
      KeyBack(e, e.name.name);
    }
    if IsWord(e.name.name) && KeyFits(e) {
      PlainRead(e);
    }
  }

  lemma EncodedIsWord(x: seq<byte>)
    requires x != []
    ensures IsWord(Base64.Encode(x)) && OneLine(Base64.Encode(x)) && '|' !in Base64.Encode(x)
  {
    var s := Base64.Encode(x);
    EncodedCharacters(x);
    Base64.EncodedLength(x);
    forall k | 0 <= k < |s|
      ensures !Blank(s[k]) && s[k] != '\n' && s[k] != NUL && s[k] != '|'
    {
      assert Base64Character(s[k]);
    }
  }

  lemma {:induction false} EncodedCharacters(x: seq<byte>)
    ensures forall k | 0 <= k < |Base64.Encode(x)| :: Base64Character(Base64.Encode(x)[k])
    decreases |x|
  {
    if x != [] {
      var n := Base64.GroupSize(|x|);
      Base64.EncodeStep(x);
      QuadCharacters(x[..n]);
      EncodedCharacters(x[n..]);
    }
  }

  predicate Base64Character(c: char) { Base64.Reverse(c) >= 0 || c == Base64.PAD }

  lemma QuadCharacters(x: seq<byte>)
    requires 1 <= |x| <= 3
    ensures forall k | 0 <= k < 4 :: Base64Character(Base64.Quad(x)[k])
  {
    Base64.TablesAgree(Base64.First(x));
    Base64.TablesAgree(Base64.Second(x));
    if |x| > 1 { Base64.TablesAgree(Base64.Third(x)); }
    if |x| > 2 { Base64.TablesAgree(Base64.Fourth(x)); }
  }

  /** Salts and hashes that fit the parser's buffers. */
  predicate HashFits(hash: seq<byte>, salt: seq<byte>) {
    |Base64.Encode(salt)| < 31 && |Base64.Encode(hash)| < 255
  }

  /** What the host part of a written hashed entry is read as. */
  lemma HashedHostRead(n: Name, line: string)
    requires n.Sha1? && n.hash != [] && n.salt != [] && HostText(n) <= line
    ensures IsWord(HostText(n)) && OneLine(HostText(n)) && HostText(n)[0] == '|'
    ensures HostPart(line, 0, |HostText(n)|) == if HashFits(n.hash, n.salt) then Names([n]) else Bad
  {
    var salt, hash, h := Base64.Encode(n.salt), Base64.Encode(n.hash), HostText(n);
    EncodedIsWord(n.salt);
    EncodedIsWord(n.hash);
    HostOfParts(salt, hash);
    assert line[0..|h|] == h;
    HashedParts(h, line, salt, hash);
    Base64.RoundTrip(n.salt);
    Base64.RoundTrip(n.hash);
  }

  lemma HashedRead(e: Entry)
    requires e.name.Sha1? && e.name.hash != [] && e.name.salt != [] && KeyFits(e)
    ensures ReadLine(Line(e)) == Parsed(true, [e]) <==> HashFits(e.name.hash, e.name.salt)
  {
    HashedHostRead(e.name, Line(e));
    LineRead(e);
    OneEntry(HostPart(Line(e), 0, |HostText(e.name)|), Key(e.keyType, e.key), e);
  }

  /** A hashed entry survives exactly when its salt and hash fit the parser's buffers and its key is one it takes. */
  lemma HashedRoundTrip(e: Entry)
    requires e.name.Sha1? && e.name.hash != [] && e.name.salt != []
    ensures ReadLine(Line(e)) == Parsed(true, [e]) <==> HashFits(e.name.hash, e.name.salt) && KeyFits(e)
  {
    if ReadLine(Line(e)) == Parsed(true, [e]) {
      HashedHostRead(e.name, Line(e));
      EntryBack(e);
      KeyBack(e, HostText(e.name));
    }
    if KeyFits(e) {
      HashedRead(e);
    }
  }

  lemma HashedParts(h: string, line: string, salt: string, hash: string)
    requires h == "|1|" + salt + "|" + hash && h <= line && '|' !in salt
    ensures Find(line, 3, '|') == 3 + |salt|
    ensures line[3..3 + |salt|] == salt && line[3 + |salt| + 1..|h|] == hash
  {
    assert line[3..3 + |salt|] == h[3..3 + |salt|] == salt;
    assert line[3 + |salt|] == h[3 + |salt|] == '|';
    assert forall k | 3 <= k < 3 + |salt| :: line[k] == salt[k - 3];
    FindStops(line, 3, '|', 3 + |salt|);
    assert line[3 + |salt| + 1..|h|] == h[3 + |salt| + 1..] == hash;
  }

  /** A custom entry never does: no line is read as one. */
  lemma CustomIsLost(e: Entry)
    requires e.name.Custom?
    ensures ReadLine(Line(e)) != Parsed(true, [e])
  {
    if ReadLine(Line(e)) == Parsed(true, [e]) {
      EntryBack(e);
    }
  }

  /** Two names in front of a key, with a comma between them: the second is added first, and both get the key. */
  lemma TwoNamesRead(a: string, b: string, key: string)
    requires IsWord(a + "," + b) && ',' !in a && |a| + |b| >= 2 && (a + "," + b)[..3] != "|1|"
    requires (a + "," + b)[0] !in {'#', '\n'} && |key| >= 12 && IsWord(key[..1])
    ensures ReadLine((a + "," + b) + (" ssh-rsa " + key + "\n")) ==
            if |a| >= 255 || |b| >= 255 then Parsed(false, [])
            else Parsed(true, [Entry(Plain(b), SshRsa, key), Entry(Plain(a), SshRsa, key)])
  {
    var host := a + "," + b;
    var e := Entry(Custom(host), SshRsa, key);
    assert key[0] == key[..1][0];
    WrittenLines(host, [], [], key);
    LineRead(e);
    assert Line(e)[0..|host|] == host;
    FindStops(host, 0, ',', |a|);
    assert host[|a| + 1..] == b && host[..|a|] == a;
    var es := WithKey([Plain(b), Plain(a)], SshRsa, key);
    assert es == [Entry(Plain(b), SshRsa, key), Entry(Plain(a), SshRsa, key)];
  }

  /** A hashed host in front of a key: the salt is what stands behind |1|, and the hash what stands behind the salt. */
  lemma HashedNameRead(salt: string, hash: string, key: string)
    requires (salt != "" ==> IsWord(salt)) && (hash != "" ==> IsWord(hash)) && '|' !in salt
    requires |key| >= 12 && IsWord(key[..1])
    ensures ReadLine(("|1|" + salt + "|" + hash) + (" ssh-rsa " + key + "\n")) ==
            if |salt| >= 31 || |hash| >= 255 then Parsed(false, [])
            else
              match (Base64.Decode(hash), Base64.Decode(salt))
              case (Data(h), Data(s)) => Parsed(true, [Entry(Sha1(h, s), SshRsa, key)])
              case _ => Parsed(false, [])
  {
    var host := "|1|" + salt + "|" + hash;
    var e := Entry(Custom(host), SshRsa, key);
    assert key[0] == key[..1][0];
    WrittenLines(host, [], [], key);
    HostOfParts(salt, hash);
    LineRead(e);
    HashedPartRead(salt, hash, Line(e));
    match HostPart(Line(e), 0, |host|)
    case Names(names) => assert WithKey(names, SshRsa, key) == [Entry(names[0], SshRsa, key)];
    case _ =>
  }

  lemma HashedPartRead(salt: string, hash: string, line: string)
    requires (salt != "" ==> IsWord(salt)) && (hash != "" ==> IsWord(hash)) && '|' !in salt
    requires "|1|" + salt + "|" + hash <= line
    ensures HostPart(line, 0, |"|1|" + salt + "|" + hash|) ==
            if |salt| >= 31 || |hash| >= 255 then Bad
            else
              match (Base64.Decode(hash), Base64.Decode(salt))
              case (Data(h), Data(s)) => Names([Sha1(h, s)])
              case _ => Bad
  {
    var host := "|1|" + salt + "|" + hash;
    HostOfParts(salt, hash);
    assert line[0..|host|] == host;
    HashedParts(host, line, salt, hash);
  }

  lemma HostOfParts(salt: string, hash: string)
    requires (salt != "" ==> IsWord(salt)) && (hash != "" ==> IsWord(hash))
    ensures var h := "|1|" + salt + "|" + hash;
            IsWord(h) && !LooksPlain(h) && h[0] == '|' && (OneLine(salt) && OneLine(hash) ==> OneLine(h))
  {
    var h := "|1|" + salt + "|" + hash;
    assert h[..3] == "|1|";
    assert forall k | 0 <= k < |h| ::
        h[k] == if k < 3 then "|1|"[k] else if k < 3 + |salt| then salt[k - 3]
                else if k == 3 + |salt| then '|' else hash[k - 4 - |salt|];
  }

  /** A name of one or two characters is looked on as hashed, and its line ignored for want of a bar in it. */
  lemma ShortNamesIgnored(name: string, key: string)
    requires 1 <= |name| <= 2 && IsWord(name) && name[0] !in {'#', '\n'}
    requires |key| >= 12 && IsWord(key[..1]) && '|' !in key
    ensures ReadLine(name + (" ssh-rsa " + key + "\n")) == Parsed(true, [])
  {
    var e := Entry(Plain(name), SshRsa, key);
    assert key[0] == key[..1][0];
    WrittenLines(name, [], [], key);
    LineRead(e);
    NoBar(name, " ssh-rsa " + key + "\n");
  }

  lemma NoBar(name: string, rest: string)
    requires 1 <= |name| <= 2 && '|' !in rest && |rest| > 2
    ensures HostPart(name + rest, 0, |name|) == Ignored
  {
    var line := name + rest;
    forall k | 3 <= k < |line|
      ensures line[k] != '|'
    {
      assert line[k] == rest[k - |name|];
    }
    FindStops(line, 3, '|', |line|);
  }

  /** A key type with nothing but blanks behind it is taken for a key: the newline at the end of the line. */
  lemma BlankKeyRead(name: string, w: string)
    requires IsWord(name) && PlainFits(name) && |w| >= 12 && forall k | 0 <= k < |w| :: w[k] == ' ' || w[k] == '\t'
    ensures ReadLine(name + (" ssh-rsa " + w + "\n")) == Parsed(true, [Entry(Plain(name), SshRsa, "\n")])
  {
    var e := Entry(Plain(name), SshRsa, w);
    WrittenLines(name, [], [], w);
    NamedParts(name, e);
    PlainHostRead(Line(e), 0, |name|, name);
    BlankKeyPart(w);
    OneEntry(Names([Plain(name)]), Key(SshRsa, "\n"), Entry(Plain(name), SshRsa, "\n"));
  }

  lemma NamedParts(name: string, e: Entry)
    requires IsWord(name) && name[0] !in {'#', '\n'} && e.name == Plain(name) && e.keyType != Rsa1
    ensures var p := PlacesIn(Line(e));
            && p.Parts? && p.host == 0 && p.hostEnd == |name| && Line(e)[0..|name|] == name
            && Line(e)[p.key..p.keyEnd] == KeyText(e)[1..] && Line(e)[p.keyEnd..] == "\n"
  {
    HostFound(name, e);
    assert KeyText(e)[1] == 's';
    KeyFound(name, e);
    NamedKeyFound(e, name);
    Joined(name, KeyText(e), "\n");
    assert Line(e)[0] == name[0];
  }

  lemma BlankKeyPart(w: string)
    requires |w| >= 12 && forall k | 0 <= k < |w| :: w[k] == ' ' || w[k] == '\t'
    ensures KeyPart((" ssh-rsa" + " " + w)[1..], "\n") == Key(SshRsa, "\n")
  {
    var key := (" ssh-rsa" + " " + w)[1..];
    assert key == "ssh-rsa" + (" " + w) && key[..7] == "ssh-rsa" && key[0] == 's';
    forall k | 7 <= k < |key|
      ensures Blank(key[k])
    {
      assert key[k] == (" " + w)[k - 7];
    }
    assert SkipBlanks(key, 7) == |key|;
  }

  /** A line that is empty, or blank up to a # or its end, adds nothing. */
  lemma NothingRead(w: string, rest: string)
    requires forall k | 0 <= k < |w| :: w[k] == ' ' || w[k] == '\t'
    requires rest == "" || rest[0] == '#' || rest[0] == '\n'
    ensures ReadLine(w + rest) == Parsed(true, [])
  {
    var line := w + rest;
    if rest == "" {
      assert SkipBlanks(line, 0) == |line|;
    } else {
      assert line[|w|] == rest[0];
      SkipBlanksStops(line, 0, |w|);
    }
  }

  /** An entry that survives in a file, where each line is read on its own. */
  predicate Survives(e: Entry) {
    && KeyFits(e) && OneLine(e.key)
    && match e.name
       case Plain(name) => IsWord(name) && PlainFits(name) && OneLine(name)
       case Sha1(hash, salt) => hash != [] && salt != [] && HashFits(hash, salt)
       case Custom(_) => false
  }

  // ----- files

  // The size of the buffers that files are written from and read into.
  const BUFFER := 2048

  /** What fgets takes from the front of a file: up to a newline, or as much as fits the buffer. */
  function PieceLength(file: string): (n: nat)
    ensures n <= |file| && n < BUFFER && (file != "" ==> n > 0)
  {
    var n := Find(file, 0, '\n');
    var end := if n < |file| then n + 1 else n;
    if end < BUFFER then end else BUFFER - 1
  }

  /** Where a C string ends. */
  function Terminated(s: string): (t: string)
    ensures NUL !in t
  {
    s[..Find(s, 0, NUL)]
  }

  // How a line is read: a name for ReadLine in proofs that do not depend on it.
  type Reader = string -> Parsed

  ghost predicate ReadsLines(read: Reader) { forall line: string :: read(line) == ReadLine(line) }

  // The entries a file adds to a store, and how many pieces are read before one cannot be.
  datatype Outcome = Outcome(added: seq<Entry>, num: nat)

  function ReadAll(read: Reader, file: string): (r: Outcome)
    decreases |file|
  {
    if file == "" then Outcome([], 0) else
      var n := PieceLength(file);
      var p := read(Terminated(file[..n]));
      if !p.ok then Outcome(p.added, 0) else
        var next := ReadAll(read, file[n..]);
        Outcome(p.added + next.added, next.num + 1)
  }

  /** The lines of the entries, one after the other. */
  function FileText(es: seq<Entry>): (file: string) { Concat(Lines(es)) }

  function Lines(es: seq<Entry>): (lines: seq<string>)
    ensures |lines| == |es| && forall k | 0 <= k < |es| :: lines[k] == Line(es[k])
  {
    seq(|es|, k requires 0 <= k < |es| => Line(es[k]))
  }

  function Concat(lines: seq<string>): (text: string) {
    if lines == [] then "" else lines[0] + Concat(lines[1..])
  }

  /** A line that fits the buffer and whose only newline is its last character is read as it is. */
  lemma PieceIsLine(line: string, rest: string)
    requires 0 < |line| < BUFFER && line[|line| - 1] == '\n' && NUL !in line
    requires forall k | 0 <= k < |line| - 1 :: line[k] != '\n'
    ensures PieceLength(line + rest) == |line| && (line + rest)[..|line|] == line && Terminated(line) == line
  {
    FindStops(line + rest, 0, '\n', |line| - 1);
    FindStops(line, 0, NUL, |line|);
  }

  lemma LineIsClean(e: Entry)
    requires Survives(e)
    ensures var line := Line(e);
            line != "" && line[|line| - 1] == '\n' && NUL !in line && forall k | 0 <= k < |line| - 1 :: line[k] != '\n'
  {
    var h, kt := HostText(e.name), KeyText(e);
    if e.name.Sha1? {
      HashedHostRead(e.name, h);
    }
    NoNewlineInKey(e);
    assert NUL !in h && NUL !in KeyWord(e.keyType) && NUL !in kt;
    Joined(h, kt, "\n");
    assert Line(e) == h + kt + "\n";
  }

  lemma SurvivorRead(e: Entry)
    requires Survives(e)
    ensures ReadLine(Line(e)) == Parsed(true, [e])
  {
    if e.name.Plain? {
      PlainRoundTrip(e);
    } else {
      HashedRoundTrip(e);
    }
  }

  /** What is read of a file whose first piece says `p`, and whose others are `next`. */
  predicate Starts(read: Reader, file: string, p: Parsed, next: string) {
    ReadAll(read, file) ==
    if p.ok then Outcome(p.added + ReadAll(read, next).added, ReadAll(read, next).num + 1) else Outcome(p.added, 0)
  }

  lemma ReadFirst(read: Reader, line: string, rest: string)
    requires 0 < |line| && PieceLength(line + rest) == |line| && Terminated(line) == line
    ensures Starts(read, line + rest, read(line), rest)
  {
    assert (line + rest)[..|line|] == line && (line + rest)[|line|..] == rest;
  }

  /** A line that fits the buffer libssh2_knownhost_writefile writes it from. */
  predicate Writable(e: Entry) { |Line(e)| < BUFFER }

  /** The line is read as one piece, and as `e`. */
  ghost predicate Returns(read: Reader, line: string, e: Entry) {
    && 0 < |line| && (forall rest: string :: PieceLength(line + rest) == |line|) && Terminated(line) == line
    && read(line) == Parsed(true, [e])
  }

  lemma FirstReturns(read: Reader, line: string, e: Entry, rest: string)
    requires Returns(read, line, e)
    ensures ReadAll(read, line + rest) == Outcome([e] + ReadAll(read, rest).added, ReadAll(read, rest).num + 1)
  {
    ReadFirst(read, line, rest);
  }

  lemma {:induction false} AllReturn(read: Reader, lines: seq<string>, es: seq<Entry>)
    requires |lines| == |es| && forall k | 0 <= k < |es| :: Returns(read, lines[k], es[k])
    ensures ReadAll(read, Concat(lines)) == Outcome(es, |es|)
  {
    if es != [] {
      AllReturn(read, lines[1..], es[1..]);
      FirstReturns(read, lines[0], es[0], Concat(lines[1..]));
      assert [es[0]] + es[1..] == es;
    }
  }

  lemma SurvivorReturns(e: Entry)
    requires Survives(e) && Writable(e)
    ensures Returns(ReadLine, Line(e), e)
  {
    LineIsClean(e);
    SurvivorRead(e);
    forall rest: string
      ensures PieceLength(Line(e) + rest) == |Line(e)|
    {
      PieceIsLine(Line(e), rest);
    }
    PieceIsLine(Line(e), "");
  }

  /** A store of surviving entries is the same after being saved and read, entry by entry and in order. */
  lemma Reload(es: seq<Entry>)
    requires forall e | e in es :: Survives(e) && Writable(e)
    ensures ReadAll(ReadLine, FileText(es)) == Outcome(es, |es|)
  {
    var lines := Lines(es);
    forall k | 0 <= k < |es|
      ensures Returns(ReadLine, lines[k], es[k])
    {
      SurvivorReturns(es[k]);
    }
    AllReturn(ReadLine, lines, es);
  }

  // ----- checking

  /** A key as it is given: in base64, or raw, `len` bytes of it or, with no length given, up to a zero byte. */
  datatype Given = Encoded(text: string) | Raw(bytes: seq<byte>, len: nat) {
    predicate Valid() { Raw? ==> len <= |bytes| && (len == 0 ==> 0 in bytes) }

    /** The text kept and compared: none for a raw key without a byte. */
    function Text(): (t: string)
      requires Valid()
    {
      if Encoded? then text else Base64.Encode(Base64.Input(bytes, len))
    }

    predicate Usable()
      requires Valid()
    {
      Raw? ==> Base64.Input(bytes, len) != []
    }
  }

  datatype Asked = AskPlain | AskSha1 | AskCustom

  // `Unsupported` is a MISMATCH without an entry.
  datatype Answer = Match(entry: Entry) | Mismatch(entry: Entry) | NotFound | Unsupported | Failure

  // HMAC-SHA1 with the salt as its key.
  type Hmac = (seq<byte>, string) -> seq<byte>

  predicate SameHost(hmac: Hmac, n: Name, host: string, asked: Asked) {
    match n
    case Plain(name) => asked.AskPlain? && name == host
    case Custom(name) => asked.AskCustom? && name == host
    case Sha1(hash, salt) => asked.AskPlain? && |hash| == 20 && hmac(salt, host) == hash
  }

  /** A plain name asked about answers to itself, and in a hashed entry to its hash; a custom one only to itself. */
  lemma WhoAnswers(hmac: Hmac, n: Name, host: string)
    ensures SameHost(hmac, n, host, AskPlain) <==>
              n == Plain(host) || (n.Sha1? && |n.hash| == 20 && n.hash == hmac(n.salt, host))
    ensures SameHost(hmac, n, host, AskCustom) <==> n == Custom(host)
    ensures !SameHost(hmac, n, host, AskSha1)
  {
  }

  /** `e` answers for the host and, with this key, for the key too. */
  predicate Answers(hmac: Hmac, e: Entry, host: string, asked: Asked, key: string) {
    SameHost(hmac, e.name, host, asked) && e.key == key
  }

  // ----- loops over a line

  /** The first `c` at or after `i`. */
  method FindIn(line: string, i: nat, c: char) returns (p: nat)
    requires i <= |line|
    ensures p == Find(line, i, c)
  {
    p := i;
    while p < |line| && line[p] != c
      invariant i <= p <= |line| && Find(line, p, c) == Find(line, i, c)
    {
      p := p + 1;
    }
  }

  /** The first half of hostline, for a name or two. */
  method SplitPlain(host: string) returns (h: Host)
    ensures h == PlainHost(host)
  {
    var c := FindIn(host, 0, ',');
    if c < |host| {
      if |host| - c - 1 >= 255 || c >= 255 {
        return Bad;
      }
      return Names([Plain(host[c + 1..]), Plain(host[..c])]);
    }
    if |host| >= 255 {
      return Bad;
    }
    return Names([Plain(host)]);
  }

  /** The same for a salt and a hash. */
  method SplitHashed(line: string, i: nat, j: nat) returns (h: Host)
    requires i <= j <= |line|
    ensures h == HashedHost(line, i, j)
  {
    if i + 3 > |line| {
      return Ignored;
    }
    var p := FindIn(line, i + 3, '|');
    if p == |line| {
      return Ignored;
    }
    if p - (i + 3) >= 31 || p + 1 > j || j - (p + 1) >= 255 {
      return Bad;
    }
    var hash := Base64.DecodeText(line[p + 1..j]);
    if hash.Invalid? {
      return Bad;
    }
    var salt := Base64.DecodeText(line[i + 3..p]);
    if salt.Invalid? {
      return Bad;
    }
    return Names([Sha1(hash.bytes, salt.bytes)]);
  }

  /** The second half: the key's type, and its text behind the type and blanks. */
  method SplitKey(key: string, behind: string) returns (k: Key)
    ensures k == KeyPart(key, behind)
  {
    if |key| < 20 {
      return NoKey;
    }
    if '0' <= key[0] <= '9' {
      return Key(Rsa1, key);
    }
    if key[..7] != "ssh-dss" && key[..7] != "ssh-rsa" {
      return NoKey;
    }
    var i := 7;
    while i < |key| && Blank(key[i])
      invariant 7 <= i <= |key| && SkipBlanks(key, i) == SkipBlanks(key, 7)
    {
      i := i + 1;
    }
    return Key(if key[..7] == "ssh-dss" then SshDss else SshRsa, if i == |key| then behind else key[i..]);
  }

  class Store {
    var entries: seq<Entry>

    constructor ()
      ensures entries == []
    {
      entries := [];
    }

    /** The loops of libssh2_knownhost_readline: where host and key start and end. */
    method Scan(line: string) returns (p: Places)
      ensures p == PlacesIn(line)
    {
      var i := 0;
      while i < |line| && Blank(line[i])
        invariant 0 <= i <= |line| && SkipBlanks(line, i) == SkipBlanks(line, 0)
      {
        i := i + 1;
      }
      if i == |line| || line[i] == '#' || line[i] == '\n' {
        return Empty;
      }
      var j := i;
      while j < |line| && !Blank(line[j])
        invariant i <= j <= |line| && SkipWord(line, j) == SkipWord(line, i)
      {
        j := j + 1;
      }
      var k := j;
      while k < |line| && Blank(line[k])
        invariant j <= k <= |line| && SkipBlanks(line, k) == SkipBlanks(line, j)
      {
        k := k + 1;
      }
      if k == |line| {
        return Illegal;
      }
      var n := k;
      while n < |line| && line[n] != '\n'
        invariant k <= n <= |line| && Find(line, n, '\n') == Find(line, k, '\n')
      {
        n := n + 1;
      }
      return Parts(i, j, k, if n < |line| then |line| - 1 else |line|);
    }

    /** Links an entry into the store. */
    method Link(e: Entry)
      modifies this
      ensures entries == old(entries) + [e]
    {
      entries := entries + [e];
    }

    /** libssh2_knownhost_add: nothing is added if the hash, the salt or the key cannot be converted. */
    method Add(host: string, salt: string, kind: Asked, keyType: KeyType, key: Given) returns (ok: bool)
      requires key.Valid()
      modifies this
      ensures ok <==>
                && (kind.AskSha1? ==> Base64.Decode(host).Data? && Base64.Decode(salt).Data?)
                && key.Usable()
      ensures entries == old(entries) +
                if !ok then [] else
                  match kind
                  case AskPlain => [Entry(Plain(host), keyType, key.Text())]
                  case AskCustom => [Entry(Custom(host), keyType, key.Text())]
                  case AskSha1 =>
                    [Entry(Sha1(Base64.Decode(host).bytes, Base64.Decode(salt).bytes), keyType, key.Text())]
    {
      var name := if kind.AskPlain? then Plain(host) else Custom(host);
      if kind.AskSha1? {
        var h := Base64.DecodeText(host);
        if h.Invalid? {
          return false;
        }
        var t := Base64.DecodeText(salt);
        if t.Invalid? {
          return false;
        }
        name := Sha1(h.bytes, t.bytes);
      }
      var text: string;
      ok, text := KeyOf(key);
      if ok {
        Link(Entry(name, keyType, text));
      }
    }

    /** A key that is raw is encoded. */
    method KeyOf(key: Given) returns (ok: bool, text: string)
      requires key.Valid()
      ensures (ok <==> key.Usable()) && (ok ==> text == key.Text())
    {
      match key
      case Encoded(t) => return true, t;
      case Raw(bytes, len) =>
        var n, out := Base64.EncodeText(bytes, len);
        Base64.EncodedLength(Base64.Input(bytes, len));
        return n > 0, out[..n];
    }

    /** The end of hostline: adds the name behind the comma first. */
    method AddNames(names: seq<Name>, t: KeyType, key: string)
      requires 1 <= |names| <= 2
      modifies this
      ensures entries == old(entries) + WithKey(names, t, key)
    {
      Link(Entry(names[0], t, key));
      if |names| == 2 {
        Link(Entry(names[1], t, key));
      }
      assert WithKey(names, t, key) ==
             if |names| == 2 then [Entry(names[0], t, key), Entry(names[1], t, key)] else [Entry(names[0], t, key)];
    }

    /** hostline, on the host at `i` up to `j` and the key at `k` up to `end`. */
    method HostLine(line: string, i: nat, j: nat, k: nat, end: nat) returns (ok: bool)
      requires i <= j <= k <= end <= |line|
      modifies this
      ensures var r := Combined(HostPart(line, i, j), KeyPart(line[k..end], line[end..]));
              ok == r.ok && entries == old(entries) + r.added
    {
      var host;
      if LooksPlain(line[i..j]) {
        host := SplitPlain(line[i..j]);
      } else {
        host := SplitHashed(line, i, j);
      }
      match host
      case Bad => ok := false;
      case Ignored => ok := true;
      case Names(names) =>
        var key := SplitKey(line[k..end], line[end..]);
        ok := key.Key?;
        if ok {
          AddNames(names, key.keyType, key.text);
        }
    }

    /** libssh2_knownhost_readline on a whole line. */
    method Read(line: string) returns (ok: bool)
      requires NUL !in line
      modifies this
      ensures ok == ReadLine(line).ok && entries == old(entries) + ReadLine(line).added
    {
      var p := Scan(line);
      match p
      case Empty => ok := true;
      case Illegal => ok := false;
      case Parts(i, j, k, end) => ok := HostLine(line, i, j, k, end);
    }

    /** fgets, on what is left of a file. */
    method Fgets(rest: string) returns (n: nat)
      ensures n == PieceLength(rest)
      ensures n <= |rest| && n <= 2047 && forall k | 0 <= k < n - 1 :: rest[k] != '\n'
      ensures n == |rest| || n == 2047 || (n > 0 && rest[n - 1] == '\n')
    {
      n := 0;
      while n < |rest| && n < BUFFER - 1
        invariant n <= |rest| && n <= BUFFER - 1 && Find(rest, n, '\n') == Find(rest, 0, '\n')
      {
        n := n + 1;
        if rest[n - 1] == '\n' {
          return;
        }
      }
    }

    /** The piece is read as the C string it is. */
    method ReadPiece(piece: string, ghost read: Reader) returns (ok: bool)
      requires Holds(ReadsLines, read)
      modifies this
      ensures var p := read(Terminated(piece));
              ok == p.ok && entries == old(entries) + p.added
    {
      Named(ReadsLines, read);
      var len := FindIn(piece, 0, NUL);
      ok := Read(piece[..len]);
    }

    /** One round of the loop of libssh2_knownhost_readfile, in a reading that will come to `all`. */
    method ReadNext(rest: string, num: nat, ghost read: Reader, ghost all: Outcome) returns (ok: bool, n: nat)
      requires rest != "" && Holds(ReadsLines, read) && Reading(entries, num, ReadAll(read, rest)) == all
      modifies this
      ensures 0 < n <= |rest|
      ensures all == if ok then Reading(entries, num + 1, ReadAll(read, rest[n..])) else Outcome(entries, num)
    {
      n := Fgets(rest);
      ReadOneMore(entries, num, read, rest);
      ok := ReadPiece(rest[..n], read);
    }

    /** The loop itself. */
    method ReadPieces(file: string, ghost read: Reader, ghost all: Outcome) returns (num: nat)
      requires Holds(ReadsLines, read) && Reading(entries, 0, ReadAll(read, file)) == all
      modifies this
      ensures Outcome(entries, num) == all
    {
      num := 0;
      var rest := file;
      while rest != ""
        invariant Reading(entries, num, ReadAll(read, rest)) == all
        decreases |rest|
      {
        var ok, n := ReadNext(rest, num, read, all);
        if !ok {
          return;
        }
        num, rest := num + 1, rest[n..];
      }
    }

    /** libssh2_knownhost_readfile: `num` lines, or pieces of lines too long, were read before one could not be. */
    method ReadFile(file: string) returns (num: nat)
      modifies this
      ensures entries == old(entries) + ReadAll(ReadLine, file).added && num == ReadAll(ReadLine, file).num
    {
      Named(ReadsLines, ReadLine);
      num := ReadPieces(file, ReadLine, Reading(entries, 0, ReadAll(ReadLine, file)));
    }

    /** A line, by way of the buffer. */
    method LineOf(e: Entry, buffer: array<char>) returns (fits: bool, text: string)
      requires buffer.Length == BUFFER
      modifies buffer
      ensures fits <==> |Line(e)| < 2048 && Encodable(e.name)
      ensures fits ==> text == Line(e)
    {
      var r, n := WriteLine(e, buffer);
      return r == Written, if r == Written then buffer[..n] else "";
    }

    /** libssh2_knownhost_writefile: the lines, up to the first that cannot be written. */
    method WriteFile() returns (ok: bool, file: string)
      ensures ok <==> forall e | e in entries :: |Line(e)| < 2048 && Encodable(e.name)
      ensures ok ==> file == FileText(entries)
    {
      var buffer := new char[BUFFER];
      file := "";
      ghost var lines := Lines(entries);
      assert lines[0..] == lines;
      for k := 0 to |entries|
        invariant forall i | 0 <= i < k :: |Line(entries[i])| < 2048 && Encodable(entries[i].name)
        invariant file + Concat(lines[k..]) == Concat(lines)
      {
        var fits, text := LineOf(entries[k], buffer);
        if !fits {
          assert entries[k] in entries;
          return false, file;
        }
        assert lines[k..][1..] == lines[k + 1..];
        Regroup(file, lines[k], Concat(lines[k + 1..]));
        file := file + text;
      }
      assert file + "" == file;
      ok := true;
    }

    /** The answer is the first entry with this host and key, or else the first with this host. */
    ghost predicate Right(a: Answer, hmac: Hmac, host: string, asked: Asked, key: string)
      reads this
    {
      match a
      case Match(e) =>
        exists k :: 0 <= k < |entries| && entries[k] == e && Answers(hmac, e, host, asked, key)
                    && forall i | 0 <= i < k :: !Answers(hmac, entries[i], host, asked, key)
      case Mismatch(e) =>
        (forall i | 0 <= i < |entries| :: !Answers(hmac, entries[i], host, asked, key))
        && exists k :: 0 <= k < |entries| && entries[k] == e && SameHost(hmac, e.name, host, asked)
                       && forall i | 0 <= i < k :: !SameHost(hmac, entries[i].name, host, asked)
      case NotFound => forall i | 0 <= i < |entries| :: !SameHost(hmac, entries[i].name, host, asked)
      case _ => false
    }

    /** The loop of libssh2_knownhost_check. */
    method Search(hmac: Hmac, host: string, asked: Asked, key: string) returns (a: Answer)
      ensures Right(a, hmac, host, asked, key)
    {
      a := NotFound;
      for k := 0 to |entries|
        invariant forall i | 0 <= i < k :: !Answers(hmac, entries[i], host, asked, key)
        invariant match a
                  case Mismatch(e) =>
                    exists j :: 0 <= j < k && entries[j] == e && SameHost(hmac, e.name, host, asked)
                                && forall i | 0 <= i < j :: !SameHost(hmac, entries[i].name, host, asked)
                  case NotFound => forall i | 0 <= i < k :: !SameHost(hmac, entries[i].name, host, asked)
                  case _ => false
      {
        if SameHost(hmac, entries[k].name, host, asked) {
          if entries[k].key == key {
            return Match(entries[k]);
          }
          if a.NotFound? {
            a := Mismatch(entries[k]);
          }
        }
      }
    }

    /** libssh2_knownhost_check. A hashed name cannot be asked about, nor a raw key without a byte. */
    method Check(hmac: Hmac, host: string, asked: Asked, key: Given) returns (a: Answer)
      requires key.Valid()
      ensures a == Unsupported <==> asked.AskSha1?
      ensures a == Failure <==> !asked.AskSha1? && !key.Usable()
      ensures !asked.AskSha1? && key.Usable() ==> Right(a, hmac, host, asked, key.Text())
    {
      if asked.AskSha1? {
        return Unsupported;
      }
      var ok, text := KeyOf(key);
      if !ok {
        return Failure;
      }
      a := Search(hmac, host, asked, text);
    }
  }

  /** A name with something to encode. */
  predicate Encodable(n: Name) { n.Sha1? ==> n.hash != [] && n.salt != [] }

  /** Where a reading will end that has got so far. */
  function Reading(es: seq<Entry>, num: nat, next: Outcome): (r: Outcome) {
    Outcome(es + next.added, num + next.num)
  }

  /** One more piece of a file read. */
  lemma ReadOneMore(es: seq<Entry>, num: nat, read: Reader, rest: string)
    requires rest != ""
    ensures var n := PieceLength(rest);
            var p := read(Terminated(rest[..n]));
            Reading(es, num, ReadAll(read, rest)) ==
            if p.ok then Reading(es + p.added, num + 1, ReadAll(read, rest[n..])) else Outcome(es + p.added, num)
  {
    var n := PieceLength(rest);
    var p, next := read(Terminated(rest[..n])), ReadAll(read, rest[n..]);
    Regroup(es, p.added, next.added);
  }
}
