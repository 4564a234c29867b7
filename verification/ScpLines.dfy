/** The control lines of scp: printed by scp_send, read a byte at a time and parsed by scp_recv. */
module ScpLines {

  const BUFLEN := 256
  const LONG_MAX := 0x7fff_ffff_ffff_ffff

  // ----- numbers

  predicate IsDigit(c: char, base: nat)
    requires 2 <= base <= 10
  {
    '0' <= c && c as int < '0' as int + base
  }

  function DigitOf(c: char): int { c as int - '0' as int }

  function Digits(n: nat, base: nat): (s: string)
    requires 2 <= base <= 10
    ensures s != "" && forall i | 0 <= i < |s| :: IsDigit(s[i], base)
    decreases n
  {
    var last := [('0' as int + n % base) as char];
    if n < base then last else Smaller(n, base); Digits(n / base, base) + last
  }

  lemma Smaller(n: nat, base: nat)
    requires 2 <= base <= n
    ensures n / base < n
  {
    var q := n / base;
    assert n == q * base + n % base;
    AtLeastTwice(q, base);
  }

  lemma {:induction false} AtLeastTwice(q: nat, base: nat)
    requires base >= 2
    ensures q * base >= q * 2
  {
    if base > 2 {
      AtLeastTwice(q, base - 1);
      assert q * base == q * (base - 1) + q;
    }
  }

  /** The number a string of digits denotes. */
  function Value(s: string, base: nat): (v: int)
    requires 2 <= base <= 10
  {
    if s == "" then 0 else Value(s[..|s| - 1], base) * base + DigitOf(s[|s| - 1])
  }

  /** One more digit behind the others moves them up by a place. */
  lemma ValueSnoc(front: string, c: char, base: nat)
    requires 2 <= base <= 10
    ensures Value(front + [c], base) == Value(front, base) * base + DigitOf(c)
    ensures DigitOf(c) == c as int - 48 && Value("", base) == 0
  {
    assert (front + [c])[..|front|] == front;
  }

  /** The last digit, and what is in front of it. */
  lemma DigitsSnoc(n: nat, base: nat) returns (front: string, c: char)
    requires 2 <= base <= 10
    ensures Digits(n, base) == front + [c] && DigitOf(c) == n % base
    ensures front == if n < base then "" else Digits(n / base, base)
  {
    c := ('0' as int + n % base) as char;
    front := if n < base then "" else Digits(n / base, base);
  }

  lemma DivideAgain(n: nat, base: nat, q: int, r: int)
    requires base > 0 && q == n / base && r == n % base
    ensures q * base + r == n
  {
  }

  lemma {:induction false} ValueOfDigits(n: nat, base: nat)
    requires 2 <= base <= 10
    ensures Value(Digits(n, base), base) == n
    decreases n
  {
    var front, c := DigitsSnoc(n, base);
    ValueSnoc(front, c, base);
    if n >= base {
      Smaller(n, base);
      ValueOfDigits(n / base, base);
    } else {
      NoQuotient(n, base);
    }
    DivideAgain(n, base, Value(front, base), DigitOf(c));
  }

  lemma NoQuotient(n: nat, base: nat)
    requires n < base
    ensures n / base == 0
  {
  }

  function Space(c: char): bool { c == ' ' || '\t' <= c <= '\r' }

  /** The digits at the front of a text. */
  function Prefix(s: string, base: nat): (n: nat)
    requires 2 <= base <= 10
    ensures n <= |s| && (forall i | 0 <= i < n :: IsDigit(s[i], base)) && (n < |s| ==> !IsDigit(s[n], base))
  {
    if s == "" || !IsDigit(s[0], base) then 0 else 1 + Prefix(s[1..], base)
  }

  // A number and what follows it, or a number out of range.
  datatype Strtol = Parsed(value: int, rest: string) | OutOfRange

  /** strtol: white space, a sign, digits. Without digits the value is 0 and everything follows it. */
  function ParseLong(s: string, base: nat): (r: Strtol)
    requires 2 <= base <= 10
  {
    if s != "" && Space(s[0]) then
      var r := ParseLong(s[1..], base);
      if r.Parsed? && r.rest == s[1..] then Parsed(0, s) else r
    else
      var neg := s != "" && s[0] == '-';
      var t := if s != "" && (s[0] == '-' || s[0] == '+') then s[1..] else s;
      var n := Prefix(t, base);
      var v := Value(t[..n], base);
      if n == 0 then Parsed(0, s)
      else if v > LONG_MAX then OutOfRange
      else Parsed(if neg then -v else v, t[n..])
  }

  /** Reading what was printed, up to the character behind it. */
  lemma LongRead(n: nat, base: nat, rest: string)
    requires 2 <= base <= 10 && n <= LONG_MAX && (rest != "" ==> !IsDigit(rest[0], base))
    ensures ParseLong(Digits(n, base) + rest, base) == Parsed(n, rest)
  {
    PlainDigits(Digits(n, base), rest, base);
    ValueOfDigits(n, base);
  }

  lemma {:induction false} PrefixFound(d: string, rest: string, base: nat)
    requires 2 <= base <= 10 && (forall i | 0 <= i < |d| :: IsDigit(d[i], base))
    requires rest != "" ==> !IsDigit(rest[0], base)
    ensures Prefix(d + rest, base) == |d|
  {
    if d == "" {
      assert d + rest == rest;
    } else {
      assert (d + rest)[1..] == d[1..] + rest;
      PrefixFound(d[1..], rest, base);
    }
  }

  predicate AllDigits(d: string, base: nat)
    requires 2 <= base <= 10
  {
    d != "" && forall i | 0 <= i < |d| :: IsDigit(d[i], base)
  }

  /** All the digits there are make the number, which has to fit 64 bits. */
  lemma PlainDigits(d: string, rest: string, base: nat)
    requires 2 <= base <= 10 && AllDigits(d, base) && (rest != "" ==> !IsDigit(rest[0], base))
    ensures ParseLong(d + rest, base) ==
            if Value(d, base) > 0x7fff_ffff_ffff_ffff then OutOfRange else Parsed(Value(d, base), rest)
  {
    PrefixFound(d, rest, base);
    var t := d + rest;
    assert t[..|d|] == d && t[|d|..] == rest && t[0] == d[0];
  }

  /** The same behind a minus sign. */
  lemma MinusDigits(d: string, rest: string, base: nat)
    requires 2 <= base <= 10 && AllDigits(d, base) && (rest != "" ==> !IsDigit(rest[0], base))
    ensures ParseLong("-" + (d + rest), base) ==
            if Value(d, base) > 0x7fff_ffff_ffff_ffff then OutOfRange else Parsed(-Value(d, base), rest)
  {
    PrefixFound(d, rest, base);
    var t := d + rest;
    assert t[..|d|] == d && t[|d|..] == rest && ("-" + t)[0] == '-' && ("-" + t)[1..] == t;
  }

  /** Without a digit the number is 0, and all of the text follows it. */
  lemma NoDigits(s: string, base: nat)
    requires 2 <= base <= 10 && (s == "" || !(IsDigit(s[0], base) || Space(s[0]) || s[0] == '-' || s[0] == '+'))
    ensures ParseLong(s, base) == Parsed(0, s) && ParseLong("-" + s, base) == Parsed(0, "-" + s)
  {
    assert ("-" + s)[1..] == s && ("-" + s)[0] == '-';
  }

  lemma SkipSpace(c: char, s: string, base: nat)
    requires 2 <= base <= 10 && Space(c) && ParseLong(s, base) != Parsed(0, s)
    requires var r := ParseLong(s, base); r.Parsed? ==> r.rest != s
    ensures ParseLong([c] + s, base) == ParseLong(s, base)
  {
    assert ([c] + s)[1..] == s;
  }

  /** White space in front of a number does not count: a space, or one of the characters 9 to 13. */
  lemma {:induction false} SkipSpaces(w: string, s: string, base: nat)
    requires 2 <= base <= 10 && forall i | 0 <= i < |w| :: w[i] == ' ' || 9 <= w[i] as int <= 13
    requires var r := ParseLong(s, base); r.Parsed? ==> |r.rest| < |s|
    ensures ParseLong(w + s, base) == ParseLong(s, base)
  {
    if w == "" {
      assert w + s == s;
    } else {
      var t := w[1..] + s;
      SkipSpaces(w[1..], s, base);
      assert |t| >= |s| && w + s == [w[0]] + t;
      SkipSpace(w[0], t, base);
    }
  }

  // ----- the lines

  function TimeLine(mtime: nat, atime: nat): (l: string) {
    "T" + Digits(mtime, 10) + " 0 " + Digits(atime, 10) + " 0\n"
  }

  function FileLine(mode: nat, size: nat, name: string): (l: string) {
    "C0" + Digits(mode, 8) + " " + Digits(size, 10) + " " + name + "\n"
  }

  /** For example: the times in this order, and a mode that C would write 0644. */
  lemma PrintedLines()
    ensures TimeLine(17, 42) == "T17 0 42 0\n"
    ensures FileLine(420, 95, "a b") == "C0644 95 a b\n"
  {
    assert Digits(1, 10) == "1" && Digits(17, 10) == "17";
    assert Digits(4, 10) == "4" && Digits(42, 10) == "42";
    assert Digits(9, 10) == "9" && Digits(95, 10) == "95";
    assert Digits(6, 8) == "6" && Digits(52, 8) == "64" && Digits(420, 8) == "644";
  }

  /** strchr for a space, or the end. */
  function FindSpace(s: string): (i: nat)
    ensures i <= |s| && (i < |s| ==> s[i] == ' ') && forall k | 0 <= k < i :: s[k] != ' '
  {
    if s == "" || s[0] == ' ' then 0 else 1 + FindSpace(s[1..])
  }

  lemma {:induction false} SpaceFound(w: string, rest: string)
    requires ' ' !in w && rest != "" && rest[0] == ' '
    ensures FindSpace(w + rest) == |w|
  {
    if w == "" {
      assert w + rest == rest;
    } else {
      assert (w + rest)[1..] == w[1..] + rest;
      SpaceFound(w[1..], rest);
    }
  }

  // ----- parsing a whole line, without its end

  datatype Word = NoWord | Word(text: string, rest: string)

  /** The text up to the next space, if there is one and there is text before it. */
  function NextWord(s: string): (w: Word) {
    var i := FindSpace(s);
    if i == |s| || i == 0 then NoWord else Word(s[..i], s[i + 1..])
  }

  lemma WordFound(w: string, rest: string)
    requires w != "" && ' ' !in w
    ensures NextWord(w + " " + rest) == Word(w, rest)
  {
    assert w + " " + rest == w + (" " + rest);
    SpaceFound(w, " " + rest);
  }

  datatype Times = NoTimes | Times(mtime: int, atime: int)
  datatype File = NoFile | File(mode: int, size: int)

  /** scp_recv on a T line: the first and the third number; the second has to be there. */
  function ParseTimes(line: string): (t: Times)
    requires line != ""
  {
    if |line| < 8 then NoTimes else
      var first := NextWord(line[1..]);
      if first.NoWord? then NoTimes else
        var usec := NextWord(first.rest);
        if usec.NoWord? then NoTimes else
          var third := NextWord(usec.rest);
          if third.NoWord? then NoTimes else
            match (ParseLong(first.text, 10), ParseLong(third.text, 10))
            case (Parsed(mtime, _), Parsed(atime, _)) => Times(mtime, atime)
            case _ => NoTimes
  }

  /** scp_recv on a C line: an octal mode and a decimal size, each of them the whole of its word. */
  function ParseFile(line: string): (f: File)
    requires line != ""
  {
    if |line| < 6 then NoFile else
      var first := NextWord(line[1..]);
      if first.NoWord? then NoFile else
        var second := NextWord(first.rest);
        if second.NoWord? then NoFile else
          match (ParseLong(first.text, 8), ParseLong(second.text, 10))
          case (Parsed(mode, ""), Parsed(size, "")) => File(mode, size)
          case _ => NoFile
  }

  predicate IsWord(w: string) { w != "" && ' ' !in w }

  /** Of a T line with three words the first and the third are the times, in that order, in decimal; junk is skipped. */
  lemma TimesRead(m: string, u: string, a: string, v: string)
    requires IsWord(m) && IsWord(u) && IsWord(a)
    ensures ParseTimes("T" + (m + " " + (u + " " + (a + " " + v)))) ==
            if |m| + |u| + |a| + |v| < 4 then NoTimes
            else
              match (ParseLong(m, 10), ParseLong(a, 10))
              case (Parsed(mtime, _), Parsed(atime, _)) => Times(mtime, atime)
              case _ => NoTimes
  {
    var third := a + " " + v;
    var usec := u + " " + third;
    var line := "T" + (m + " " + usec);
    assert line[1..] == m + " " + usec && |line| == |m| + |u| + |a| + |v| + 4;
    WordFound(m, usec);
    WordFound(u, third);
    WordFound(a, v);
  }

  /** With fewer words, each with a space behind it, there are no times. */
  lemma NoTimesRead(m: string, u: string, a: string)
    requires IsWord(m) && IsWord(u) && ' ' !in a
    ensures ParseTimes("T" + m) == NoTimes && ParseTimes("T" + (m + " " + u)) == NoTimes
    ensures ParseTimes("T" + (m + " " + (u + " " + a))) == NoTimes
  {
    NoWordFound(m);
    NoWordFound(u);
    NoWordFound(a);
    WordFound(m, u);
    WordFound(m, u + " " + a);
    WordFound(u, a);
    assert ("T" + m)[1..] == m && ("T" + (m + " " + u))[1..] == m + " " + u;
    assert ("T" + (m + " " + (u + " " + a)))[1..] == m + " " + (u + " " + a);
  }

  lemma {:induction false} NoWordFound(w: string)
    requires ' ' !in w
    ensures FindSpace(w) == |w| && NextWord(w).NoWord?
  {
    if w != "" {
      NoWordFound(w[1..]);
    }
  }

  /** Of a C line the first word is the mode, in octal, and the second the size, in decimal, and nothing is skipped. */
  lemma FileRead(o: string, d: string, name: string)
    requires IsWord(o) && IsWord(d)
    ensures ParseFile("C" + (o + " " + (d + " " + name))) ==
            if |o| + |d| + |name| < 3 then NoFile
            else
              match (ParseLong(o, 8), ParseLong(d, 10))
              case (Parsed(mode, ""), Parsed(size, "")) => File(mode, size)
              case _ => NoFile
  {
    var second := d + " " + name;
    var line := "C" + (o + " " + second);
    assert line[1..] == o + " " + second && |line| == |o| + |d| + |name| + 3;
    WordFound(o, second);
    WordFound(d, name);
  }

  /** With fewer words, there is neither. */
  lemma NoFileRead(o: string, d: string)
    requires IsWord(o) && ' ' !in d
    ensures ParseFile("C" + o) == NoFile && ParseFile("C" + (o + " " + d)) == NoFile
  {
    NoWordFound(o);
    NoWordFound(d);
    WordFound(o, d);
    assert ("C" + o)[1..] == o && ("C" + (o + " " + d))[1..] == o + " " + d;
  }

  lemma WholeNumber(n: nat, base: nat)
    requires 2 <= base <= 10 && n <= LONG_MAX
    ensures ' ' !in Digits(n, base) && ParseLong(Digits(n, base), base) == Parsed(n, "")
  {
    LongRead(n, base, "");
    assert Digits(n, base) + "" == Digits(n, base);
  }

  /** The times come back. */
  lemma TimesRoundTrip(mtime: nat, atime: nat)
    requires mtime <= LONG_MAX && atime <= LONG_MAX
    ensures |TimeLine(mtime, atime)| >= 9
    ensures ParseTimes(Ended(TimeLine(mtime, atime))) == Times(mtime, atime)
  {
    var m, a := Digits(mtime, 10), Digits(atime, 10);
    TimeWords(m, a);
    WordFound(m, "0 " + a + " 0");
    WordFound("0", a + " 0");
    WordFound(a, "0");
    WholeNumber(mtime, 10);
    WholeNumber(atime, 10);
  }

  /** A line without its newline. */
  function Ended(line: string): (x: string)
    requires line != ""
  {
    line[..|line| - 1]
  }

  lemma TimeWords(m: string, a: string)
    ensures Ended("T" + m + " 0 " + a + " 0\n") == "T" + (m + " " + ("0 " + a + " 0"))
    ensures ("T" + (m + " " + ("0 " + a + " 0")))[1..] == m + " " + ("0 " + a + " 0")
    ensures "0 " + a + " 0" == "0" + " " + (a + " 0") && a + " 0" == a + " " + "0"
  {
  }

  /** So do the mode and the size; the name may be any. */
  lemma FileRoundTrip(mode: nat, size: nat, name: string)
    requires mode <= LONG_MAX && size <= LONG_MAX
    ensures |FileLine(mode, size, name)| >= 7
    ensures ParseFile(Ended(FileLine(mode, size, name))) == File(mode, size)
  {
    var o, d := Digits(mode, 8), Digits(size, 10);
    FileWords(o, d, name);
    WholeNumber(mode, 8);
    WholeNumber(size, 10);
    WordFound("0" + o, d + " " + name);
    WordFound(d, name);
    LeadingZero(mode);
  }

  lemma FileWords(o: string, d: string, name: string)
    ensures Ended("C0" + o + " " + d + " " + name + "\n") == "C" + ("0" + o + " " + (d + " " + name))
    ensures ("C" + ("0" + o + " " + (d + " " + name)))[1..] == "0" + o + " " + (d + " " + name)
  {
  }

  /** A leading zero does not change an octal number. */
  lemma LeadingZero(mode: nat)
    requires mode <= LONG_MAX
    ensures ParseLong("0" + Digits(mode, 8), 8) == Parsed(mode, "")
  {
    var o := Digits(mode, 8);
    var s := "0" + o;
    PrefixFound(s, "", 8);
    assert s + "" == s && s[..|s|] == s;
    ZeroInFront(o);
    ValueOfDigits(mode, 8);
  }

  lemma {:induction false} ZeroInFront(s: string)
    ensures Value("0" + s, 8) == Value(s, 8)
  {
    if s == "" {
      assert "0" + s == "0" && "0"[..0] == "";
    } else {
      ZeroInFront(s[..|s| - 1]);
      assert ("0" + s)[..|s|] == "0" + s[..|s| - 1];
    }
  }

  // ----- receiving a line

  datatype Kind = TLine | CLine {
    function First(): char { if TLine? then 'T' else 'C' }
    function Least(): nat { if TLine? then 9 else 7 }
    predicate Allows(c: char) {
      c == '\r' || c == '\n' || if TLine? then '0' <= c <= '9' || c == ' ' else ' ' <= c <= '~'
    }
  }

  datatype Verdict = More | Refused | Whole

  /** What is made of the bytes received, each time another one has come. */
  function Judge(kind: Kind, x: string): (v: Verdict)
    requires x != ""
  {
    if x[0] != kind.First() then Refused
    else if |x| > 1 && !kind.Allows(x[|x| - 1]) then Refused
    else if |x| < kind.Least() || x[|x| - 1] != '\n' then if |x| == BUFLEN then Refused else More
    else Whole
  }

  /** A T line starts with T, goes on with digits and spaces, and is at least 9 and at most 256 bytes long. */
  lemma JudgesTimes(x: string)
    requires x != ""
    ensures var c := x[|x| - 1];
            && (Judge(TLine, x) == Whole <==> x[0] == 'T' && c == '\n' && |x| >= 9)
            && (Judge(TLine, x) == Refused <==>
                  || x[0] != 'T'
                  || (|x| > 1 && !('0' <= c <= '9' || c == ' ' || c == '\r' || c == '\n'))
                  || (|x| == 256 && c != '\n'))
  {
  }

  /** A C line starts with C, goes on with printable characters, and is at least 7 and at most 256 bytes long. */
  lemma JudgesFile(x: string)
    requires x != ""
    ensures var c := x[|x| - 1];
            && (Judge(CLine, x) == Whole <==> x[0] == 'C' && c == '\n' && |x| >= 7)
            && (Judge(CLine, x) == Refused <==>
                  || x[0] != 'C'
                  || (|x| > 1 && !(32 <= c as int <= 126 || c == '\r' || c == '\n'))
                  || (|x| == 256 && c != '\n'))
  {
  }

  /** The reader has asked for every one of these bytes, and for one more. */
  ghost predicate Unfinished(kind: Kind, x: string) {
    |x| < BUFLEN && forall n | 1 <= n <= |x| :: Judge(kind, x[..n]) == More
  }

  // What a channel is going to answer: a byte if it has one; nothing yet; or, as at its end or on an error, no more.
  datatype Answer = Gives | NotYet | Over
  datatype Arrival = Byte(c: char) | Nothing | End

  /** The channel the bytes come from. It has nothing yet once it has given its answers. */
  class Source {
    var bytes: string
    var answers: seq<Answer>

    constructor (bytes: string, answers: seq<Answer>)
      ensures this.bytes == bytes && this.answers == answers
    {
      this.bytes, this.answers := bytes, answers;
    }

    /** channel_read of one byte. */
    method Read() returns (r: Arrival)
      modifies this
      ensures r == Arriving(old(bytes), old(answers))
      ensures bytes == if r.Byte? then old(bytes)[1..] else old(bytes)
      ensures answers == if old(answers) == [] then [] else old(answers)[1..]
    {
      r := Arriving(bytes, answers);
      if answers != [] {
        answers := answers[1..];
      }
      if r.Byte? {
        bytes := bytes[1..];
      }
    }
  }

  function Arriving(bytes: string, answers: seq<Answer>): (r: Arrival)
    ensures r.Byte? ==> bytes != "" && answers != [] && r.c == bytes[0]
  {
    if answers == [] then Nothing else
      match answers[0]
      case Gives => if bytes == "" then Nothing else Byte(bytes[0])
      case NotYet => Nothing
      case Over => End
  }

  /** The end of a loop that has already taken `n` bytes. */
  function ToGo(n: nat, e: (Progress, nat)): (r: (Progress, nat)) { (e.0, n + e.1) }

  // `Lost`: the channel ended, or reading it failed.
  datatype Progress = Again | Lost | Failed | Ready

  /** Where the loop over single bytes will end that has `x` in its buffer: its answer, and how many bytes it takes. */
  function Ending(kind: Kind, x: string, bytes: string, answers: seq<Answer>): (e: (Progress, nat))
    decreases |answers|
  {
    match Arriving(bytes, answers)
    case Nothing => (Again, 0)
    case End => (Lost, 0)
    case Byte(c) =>
      match Judge(kind, x + [c])
      case Refused => (Failed, 1)
      case Whole => (Ready, 1)
      case More => var (p, n) := Ending(kind, x + [c], bytes[1..], answers[1..]); (p, n + 1)
  }

  /** It ends to be taken up again when the channel has nothing yet, and for good when that has no more. */
  lemma EndsWithoutByte(kind: Kind, x: string, bytes: string, answers: seq<Answer>)
    ensures Ending(kind, x, bytes, []) == (Again, 0) && Ending(kind, x, bytes, [NotYet] + answers) == (Again, 0)
    ensures Ending(kind, x, "", [Gives] + answers) == (Again, 0)
    ensures Ending(kind, x, bytes, [Over] + answers) == (Lost, 0)
  {
  }

  /** The next `n` answers are bytes. */
  predicate Willing(answers: seq<Answer>, n: nat) { n <= |answers| && forall i | 0 <= i < n :: answers[i] == Gives }

  /** The loop ends with a whole line if the channel has the rest of one and gives it. */
  lemma {:induction false} EndsReady(kind: Kind, line: string, rest: string, x: string, bytes: string,
                                     answers: seq<Answer>)
    requires Acceptable(kind, line) && |x| < |line| && x + bytes == line + rest && Willing(answers, |line| - |x|)
    ensures Ending(kind, x, bytes, answers) == (Ready, |line| - |x|)
    decreases |line| - |x|
  {
    var n, all := |x|, x + bytes;
    assert bytes != "" && all[n] == bytes[0];
    var y := x + [bytes[0]];
    assert y == all[..n + 1] == line[..n + 1];
    JudgeAcceptable(kind, line, n + 1);
    if n + 1 < |line| {
      assert y + bytes[1..] == x + bytes;
      EndsReady(kind, line, rest, y, bytes[1..], answers[1..]);
    }
  }

  /** The times that a received line gives, or none. */
  ghost predicate EndedTimes(x: string, t: Times) {
    x != "" && x[0] == 'T' && t == ParseTimes(Stripped(x))
  }

  ghost predicate EndedFile(x: string, f: File) {
    x != "" && x[0] == 'C' && f == ParseFile(Stripped(x))
  }

  class Receiver {
    const response: array<char>
    var len: nat

    ghost predicate Valid(kind: Kind)
      reads this, response
    {
      response.Length == BUFLEN && len < BUFLEN && Unfinished(kind, response[..len])
    }

    constructor ()
      ensures Valid(TLine) && Valid(CLine) && len == 0 && fresh(response)
    {
      response := new char[BUFLEN];
      len := 0;
    }

    /** One round of that loop: it goes on after a byte that leaves the line unfinished. */
    method ReceiveOne(kind: Kind, source: Source) returns (more: bool, p: Progress)
      requires Valid(kind)
      modifies this, response, source
      ensures old(len) <= len <= BUFLEN
      ensures response[..len] + source.bytes == old(response[..len] + source.bytes)
      ensures more ==>
                && Valid(kind) && len == old(len) + 1
                && old(Ending(kind, response[..len], source.bytes, source.answers))
                   == ToGo(1, Ending(kind, response[..len], source.bytes, source.answers))
      ensures !more ==> (p, len - old(len)) == old(Ending(kind, response[..len], source.bytes, source.answers))
      ensures !more ==> Stopped(kind, p)
    {
      ghost var before := response[..len];
      var r := source.Read();
      match r
      case Nothing => return false, Again;
      case End => return false, Lost;
      case Byte(c) =>
        response[len] := c;
        len := len + 1;
        assert response[..len] == before + [c];
        assert before + ([c] + source.bytes) == (before + [c]) + source.bytes;
        assert response[..len][..len - 1] == before;
        match Judge(kind, response[..len])
        case Refused => return false, Failed;
        case Whole => return false, Ready;
        case More =>
          UnfinishedMore(kind, before, c);
          return true, Again;
    }

    /** How the loop leaves the buffer: unfinished, or judged at its last byte. */
    ghost predicate Stopped(kind: Kind, p: Progress)
      reads this, response
    {
      if p == Again || p == Lost then Valid(kind) else
        && 0 < len <= response.Length && Unfinished(kind, response[..len - 1])
        && Judge(kind, response[..len]) == if p == Ready then Whole else Refused
    }

    /** The loop over single bytes: Again leaves it where it can be taken up. Whole lines are left in the buffer. */
    method Receive(kind: Kind, source: Source) returns (p: Progress)
      requires Valid(kind)
      modifies this, response, source
      ensures len <= BUFLEN && response[..len] + source.bytes == old(response[..len] + source.bytes)
      ensures (p, len - old(len)) == old(Ending(kind, response[..len], source.bytes, source.answers))
      ensures Stopped(kind, p)
    {
      var more := true;
      p := Again;
      ghost var all, end := response[..len] + source.bytes, Ending(kind, response[..len], source.bytes, source.answers);
      while more
        invariant old(len) <= len <= BUFLEN && response[..len] + source.bytes == all
        invariant more ==> Valid(kind)
        invariant more ==> end == ToGo(len - old(len), Ending(kind, response[..len], source.bytes, source.answers))
        invariant !more ==> (p, len - old(len)) == end && Stopped(kind, p)
        decreases more, BUFLEN - len
      {
        more, p := ReceiveOne(kind, source);
      }
    }

    /** scp_recv's times: the numbers the sender printed, however their bytes come, and nothing of what follows them. */
    method ReadTimes(source: Source) returns (p: Progress, t: Times)
      requires Valid(TLine)
      modifies this, response, source
      ensures p == Again ==> Valid(TLine)
      ensures len <= BUFLEN && response[..len] + source.bytes == old(response[..len] + source.bytes)
      // Whatever the line: it is the loop that ends the call, and then the line is a good one or is not.
      ensures var (end, n) := old(Ending(TLine, response[..len], source.bytes, source.answers));
              && len == old(len) + n
              && if end != Ready then p == end && t.NoTimes?
                 else EndedTimes(response[..len], t) && p == if t.NoTimes? then Failed else Ready
      ensures forall m: nat, a: nat, rest: string ::
                m <= LONG_MAX && a <= LONG_MAX && |TimeLine(m, a)| <= BUFLEN
                && old(response[..len] + source.bytes) == TimeLine(m, a) + rest ==>
                  && p != Failed && (p == Ready ==> t == Times(m, a) && source.bytes == rest)
                  && (old(Willing(source.answers, Left(TimeLine(m, a), len))) ==> p == Ready)
    {
      t := NoTimes;
      forall m: nat, a: nat, rest: string | m <= LONG_MAX && a <= LONG_MAX && |TimeLine(m, a)| <= BUFLEN
                                          && response[..len] + source.bytes == TimeLine(m, a) + rest
                                          && Willing(source.answers, Left(TimeLine(m, a), len))
        ensures Ending(TLine, response[..len], source.bytes, source.answers).0 == Ready
      {
        TimeLineAcceptable(m, a);
        WholeArrives(TLine, TimeLine(m, a), rest, response[..len], source.bytes, source.answers);
      }
      p := Receive(TLine, source);
      if p == Again || p == Lost {
        return;
      }
      ghost var x := response[..len];
      assert x[..|x| - 1] == response[..len - 1];
      forall m: nat, a: nat, rest: string | m <= LONG_MAX && a <= LONG_MAX && |TimeLine(m, a)| <= BUFLEN
                                          && x + source.bytes == TimeLine(m, a) + rest
        ensures p == Ready && source.bytes == rest && ParseTimes(Stripped(x)) == Times(m, a)
      {
        TimesArrive(m, a, rest, x, source.bytes);
      }
      if p == Ready {
        t := ParseTimes(Stripped(response[..len]));
        if t.NoTimes? {
          p := Failed;
        }
      }
    }

    /** scp_recv's mode and size, likewise. */
    method ReadFile(source: Source) returns (p: Progress, f: File)
      requires Valid(CLine)
      modifies this, response, source
      ensures p == Again ==> Valid(CLine)
      ensures len <= BUFLEN && response[..len] + source.bytes == old(response[..len] + source.bytes)
      // Whatever the line: it is the loop that ends the call, and then the line is a good one or is not.
      ensures var (end, n) := old(Ending(CLine, response[..len], source.bytes, source.answers));
              && len == old(len) + n
              && if end != Ready then p == end && f.NoFile?
                 else EndedFile(response[..len], f) && p == if f.NoFile? then Failed else Ready
      ensures forall m: nat, n: nat, name: string, rest: string ::
                m <= LONG_MAX && n <= LONG_MAX && Printable(name) && |FileLine(m, n, name)| <= BUFLEN
                && old(response[..len] + source.bytes) == FileLine(m, n, name) + rest ==>
                  && p != Failed && (p == Ready ==> f == File(m, n) && source.bytes == rest)
                  && (old(Willing(source.answers, Left(FileLine(m, n, name), len))) ==> p == Ready)
    {
      f := NoFile;
      forall m: nat, n: nat, name: string, rest: string
        | m <= LONG_MAX && n <= LONG_MAX && Printable(name) && |FileLine(m, n, name)| <= BUFLEN
          && response[..len] + source.bytes == FileLine(m, n, name) + rest
          && Willing(source.answers, Left(FileLine(m, n, name), len))
        ensures Ending(CLine, response[..len], source.bytes, source.answers).0 == Ready
      {
        FileLineAcceptable(m, n, name);
        WholeArrives(CLine, FileLine(m, n, name), rest, response[..len], source.bytes, source.answers);
      }
      p := Receive(CLine, source);
      if p == Again || p == Lost {
        return;
      }
      ghost var x := response[..len];
      assert x[..|x| - 1] == response[..len - 1];
      forall m: nat, n: nat, name: string, rest: string
        | m <= LONG_MAX && n <= LONG_MAX && Printable(name) && |FileLine(m, n, name)| <= BUFLEN
          && x + source.bytes == FileLine(m, n, name) + rest
        ensures p == Ready && source.bytes == rest && ParseFile(Stripped(x)) == File(m, n)
      {
        FileArrives(m, n, name, rest, x, source.bytes);
      }
      if p == Ready {
        f := ParseFile(Stripped(response[..len]));
        if f.NoFile? {
          p := Failed;
        }
      }
    }
  }

  /** How much of a line is still to come when `len` bytes are there. */
  function Left(line: string, len: nat): (n: nat) { if len < |line| then |line| - len else 0 }

  /** A reader that has not finished lacks some of the line, and will have it all if the channel gives it. */
  lemma WholeArrives(kind: Kind, line: string, rest: string, x: string, bytes: string, answers: seq<Answer>)
    requires Acceptable(kind, line) && x + bytes == line + rest && Unfinished(kind, x)
    requires Willing(answers, Left(line, |x|))
    ensures Ending(kind, x, bytes, answers).0 == Ready
  {
    WholeIsSeen(kind, line, rest, x, bytes);
    EndsReady(kind, line, rest, x, bytes, answers);
  }

  lemma WholeIsSeen(kind: Kind, line: string, rest: string, x: string, bytes: string)
    requires Acceptable(kind, line) && x + bytes == line + rest
    ensures |x| >= |line| ==> !Unfinished(kind, x)
  {
    if |x| >= |line| {
      assert (x + bytes)[..|line|] == x[..|line|] && (line + rest)[..|line|] == line;
      JudgeAcceptable(kind, line, |line|);
      assert line[..|line|] == line;
    }
  }

  lemma UnfinishedMore(kind: Kind, x: string, c: char)
    requires Unfinished(kind, x) && Judge(kind, x + [c]) == More
    ensures Unfinished(kind, x + [c])
  {
    var y := x + [c];
    forall n | 1 <= n <= |y|
      ensures Judge(kind, y[..n]) == More
    {
      if n == |y| {
        assert y[..n] == y;
      } else {
        assert y[..n] == x[..n];
      }
    }
  }

  // ----- a printed line, received

  /** A line whose only newline is its last character, and whose characters the reader allows. */
  predicate Acceptable(kind: Kind, line: string) {
    && kind.Least() <= |line| <= BUFLEN && line[0] == kind.First() && line[|line| - 1] == '\n'
    && forall i | 1 <= i < |line| - 1 :: kind.Allows(line[i]) && line[i] != '\n'
  }

  /** The reader asks for more until the end of such a line, and not after it. */
  lemma JudgeAcceptable(kind: Kind, line: string, n: nat)
    requires Acceptable(kind, line) && 1 <= n <= |line|
    ensures Judge(kind, line[..n]) == if n < |line| then More else Whole
  {
  }

  /** Whatever way its bytes come, the reader stops at the end of such a line. */
  lemma StopsAtTheEnd(kind: Kind, line: string, rest: string, x: string, y: string)
    requires Acceptable(kind, line) && x + y == line + rest
    requires x != "" && Unfinished(kind, x[..|x| - 1]) && Judge(kind, x) != More
    ensures x == line && y == rest && Judge(kind, x) == Whole
  {
    var n, all := |x|, line + rest;
    assert x == all[..n] && y == all[n..];
    var k, l := if n < |line| then n else |line|, if n - 1 < |line| then n - 1 else |line|;
    assert all[..k] == line[..k] && x[..n] == x;
    JudgeAcceptable(kind, line, k);
    assert n >= |line|;
    assert x[..n - 1][..l] == all[..l] == line[..l] && line[..|line|] == line;
    assert n <= |line|;
    assert all[..|line|] == line && all[|line|..] == rest;
  }

  lemma {:induction false} DigitsFit(n: nat, base: nat, kind: Kind)
    requires 2 <= base <= 10
    ensures forall i | 0 <= i < |Digits(n, base)| :: kind.Allows(Digits(n, base)[i]) && Digits(n, base)[i] != '\n'
  {
  }

  predicate Printable(name: string) { forall i | 0 <= i < |name| :: ' ' <= name[i] <= '~' }

  /** The lines scp_send prints are of that kind, if they fit. */
  lemma TimeLineAcceptable(mtime: nat, atime: nat)
    requires |TimeLine(mtime, atime)| <= BUFLEN
    ensures Acceptable(TLine, TimeLine(mtime, atime))
  {
    var m, a, line := Digits(mtime, 10), Digits(atime, 10), TimeLine(mtime, atime);
    DigitsFit(mtime, 10, TLine);
    DigitsFit(atime, 10, TLine);
    forall i | 1 <= i < |line| - 1
      ensures TLine.Allows(line[i]) && line[i] != '\n'
    {
      assert line[i] == if i <= |m| then m[i - 1] else if i <= |m| + 3 then " 0 "[i - |m| - 1]
                        else if i <= |m| + 3 + |a| then a[i - |m| - 4] else " 0\n"[i - |m| - |a| - 4];
    }
  }

  lemma FileLineAcceptable(mode: nat, size: nat, name: string)
    requires |FileLine(mode, size, name)| <= BUFLEN && Printable(name)
    ensures Acceptable(CLine, FileLine(mode, size, name))
  {
    var o, d, line := Digits(mode, 8), Digits(size, 10), FileLine(mode, size, name);
    DigitsFit(mode, 8, CLine);
    DigitsFit(size, 10, CLine);
    forall i | 1 <= i < |line| - 1
      ensures CLine.Allows(line[i]) && line[i] != '\n'
    {
      assert line[i] == if i == 1 then '0' else if i < 2 + |o| then o[i - 2] else if i == 2 + |o| then ' '
                        else if i < 3 + |o| + |d| then d[i - 3 - |o|]
                        else if i == 3 + |o| + |d| then ' ' else name[i - 4 - |o| - |d|];
    }
  }

  /** A received line without the carriage returns and newlines at its end. */
  function Stripped(x: string): (y: string)
    requires x != "" && x[0] != '\r' && x[0] != '\n'
    ensures y != "" && y <= x && y[|y| - 1] != '\r' && y[|y| - 1] != '\n'
    ensures forall i | |y| <= i < |x| :: x[i] == '\r' || x[i] == '\n'
  {
    if x[|x| - 1] == '\r' || x[|x| - 1] == '\n' then Stripped(x[..|x| - 1]) else x
  }

  lemma StrippedOnce(line: string)
    requires |line| >= 2 && line[0] != '\r' && line[0] != '\n' && line[|line| - 1] == '\n'
    requires line[|line| - 2] != '\r' && line[|line| - 2] != '\n'
    ensures Stripped(line) == Ended(line)
  {
  }

  /** What the reader makes of the times the sender prints, and what it leaves on the channel. */
  lemma TimesArrive(mtime: nat, atime: nat, rest: string, x: string, y: string)
    requires mtime <= LONG_MAX && atime <= LONG_MAX && |TimeLine(mtime, atime)| <= BUFLEN
    requires x + y == TimeLine(mtime, atime) + rest
    requires x != "" && Unfinished(TLine, x[..|x| - 1]) && Judge(TLine, x) != More
    ensures Judge(TLine, x) == Whole && y == rest && ParseTimes(Stripped(x)) == Times(mtime, atime)
  {
    var line := TimeLine(mtime, atime);
    TimeLineAcceptable(mtime, atime);
    StopsAtTheEnd(TLine, line, rest, x, y);
    TimesRoundTrip(mtime, atime);
    assert line[|line| - 2] == '0';
    StrippedOnce(line);
  }

  /** The same for the mode and the size, if the name is printable. */
  lemma FileArrives(mode: nat, size: nat, name: string, rest: string, x: string, y: string)
    requires mode <= LONG_MAX && size <= LONG_MAX && |FileLine(mode, size, name)| <= BUFLEN
    requires Printable(name)
    requires x + y == FileLine(mode, size, name) + rest
    requires x != "" && Unfinished(CLine, x[..|x| - 1]) && Judge(CLine, x) != More
    ensures Judge(CLine, x) == Whole && y == rest && ParseFile(Stripped(x)) == File(mode, size)
  {
    var line := FileLine(mode, size, name);
    FileLineAcceptable(mode, size, name);
    StopsAtTheEnd(CLine, line, rest, x, y);
    FileRoundTrip(mode, size, name);
    assert line[|line| - 2] == (if name == "" then ' ' else name[|name| - 1]);
    StrippedOnce(line);
  }
}
