/** Algorithm negotiation (section 7.1 of RFC 4253): the kex_agree_* functions. */
module Negotiate {
  import opened Bytes
  import opened NameLists
  import opened KexInit

  const REQ_ENC_HOSTKEY := 1
  const REQ_SIGN_HOSTKEY := 2

  // A method table entry. Key exchange methods have flags; host key methods can or cannot encrypt and sign.
  datatype KexMethod = KexMethod(name: Text, flags: nat)
  datatype HostkeyMethod = HostkeyMethod(name: Text, encrypts: bool, signs: bool)

  // `Broken`: the default host key loop runs over the end of its table, as kex_agree_hostkey does when none will do.
  datatype Outcome = Agreed(index: nat) | Refused | Broken

  // ----- what a client prefers

  /**
   * The elements the preference loops visit: they stop at the end of the string, so a last empty element is not one.
   */
  function Visited(prefs: Text): (es: seq<Text>) {
    VisitedFrom(prefs, 0)
  }

  function VisitedFrom(prefs: Text, s: nat): (es: seq<Text>)
    decreases |prefs| - s
  {
    if s >= |prefs| then [] else [ElementAt(prefs, s)] + VisitedFrom(prefs, NextComma(prefs, s) + 1)
  }

  /** A list of elements but for an empty one at its end. */
  function Trimmed(es: seq<Text>): (ts: seq<Text>)
    requires es != []
  {
    if es[|es| - 1] == [] then es[..|es| - 1] else es
  }

  lemma TrimmedRest(e: Text, rest: seq<Text>)
    requires rest != []
    ensures Trimmed([e] + rest) == [e] + Trimmed(rest)
  {
    var es := [e] + rest;
    assert es[|es| - 1] == rest[|rest| - 1];
    assert es[..|es| - 1] == [e] + rest[..|rest| - 1];
  }

  lemma LastVisited(prefs: Text, s: nat)
    requires s <= |prefs| && NextComma(prefs, s) == |prefs|
    ensures VisitedFrom(prefs, s) == Trimmed(SplitFrom(prefs, s))
  {
    assert SplitFrom(prefs, s) == [ElementAt(prefs, s)];
    assert VisitedFrom(prefs, |prefs| + 1) == [];
  }

  lemma MoreVisited(prefs: Text, s: nat, next: nat)
    requires s < next <= |prefs| && NextComma(prefs, s) + 1 == next
    requires VisitedFrom(prefs, next) == Trimmed(SplitFrom(prefs, next))
    ensures VisitedFrom(prefs, s) == Trimmed(SplitFrom(prefs, s))
  {
    var e, rest := ElementAt(prefs, s), SplitFrom(prefs, next);
    assert SplitFrom(prefs, s) == [e] + rest;
    TrimmedRest(e, rest);
    assert VisitedFrom(prefs, s) == [e] + VisitedFrom(prefs, next);
  }

  /** A preference string is visited element by element; only an empty element at its end is missed. */
  lemma {:induction false} VisitedIsSplit(prefs: Text, s: nat)
    requires s <= |prefs|
    ensures VisitedFrom(prefs, s) == Trimmed(SplitFrom(prefs, s))
    decreases |prefs| - s
  {
    var c := NextComma(prefs, s);
    if c == |prefs| {
      LastVisited(prefs, s);
    } else {
      VisitedIsSplit(prefs, c + 1);
      MoreVisited(prefs, s, c + 1);
    }
  }

  /** kex_get_method_by_name: the first entry of that name, or the number of entries. */
  function Lookup(names: seq<Text>, name: Text): (k: nat)
    ensures k <= |names| && (k < |names| ==> names[k] == name)
    ensures forall j | 0 <= j < k :: names[j] != name
  {
    if names == [] || names[0] == name then 0 else 1 + Lookup(names[1..], name)
  }

  /** The first preference the server offers decides: it is agreed on if it is supported. */
  function Choice(wanted: seq<Text>, names: seq<Text>, offered: seq<Text>): (o: Outcome) {
    if wanted == [] then Refused
    else if wanted[0] in offered then
      var k := Lookup(names, wanted[0]);
      if k < |names| then Agreed(k) else Refused
    else Choice(wanted[1..], names, offered)
  }

  predicate Supported(wanted: seq<Text>, names: seq<Text>) {
    forall i | 0 <= i < |wanted| :: wanted[i] in names
  }

  /**
   * The first preference the server offers decides, whatever follows it: it is agreed on, or agreement fails if it is
   * none of the methods there are; and agreement fails when none is offered.
   */
  lemma {:induction false} ChoiceIsFirst(wanted: seq<Text>, names: seq<Text>, offered: seq<Text>) returns (i: nat)
    ensures i <= |wanted| && forall j | 0 <= j < i :: wanted[j] !in offered
    ensures if i < |wanted| && wanted[i] in names then
              wanted[i] in offered && Lookup(names, wanted[i]) < |names|
              && Choice(wanted, names, offered) == Agreed(Lookup(names, wanted[i]))
            else
              Choice(wanted, names, offered) == Refused && (i < |wanted| ==> wanted[i] in offered)
  {
    if wanted == [] {
      i := 0;
    } else if wanted[0] in offered {
      i := 0;
      assert Lookup(names, wanted[0]) < |names| <==> wanted[0] in names;
    } else {
      assert forall j | 0 <= j < |wanted| - 1 :: wanted[1..][j] == wanted[j + 1];
      var k := ChoiceIsFirst(wanted[1..], names, offered);
      i := k + 1;
    }
  }

  // ----- agreeing on a cipher, a MAC or a compression method

  /** The server's list, where it lies in its message. */
  datatype Offer = Offer(memory: Text, len: nat) {
    predicate Valid() { Terminates(memory, len) }
    function Names(): seq<Text> requires len <= |memory| { Split(memory[..len]) }
  }

  /** One element of a preference string: where it ends, and where the next one starts. */
  method Element(prefs: Text, s: nat) returns (e: Text, next: nat)
    requires s < |prefs| && ZeroFree(prefs)
    ensures s < next && CommaFree(e) && ZeroFree(e)
    ensures VisitedFrom(prefs, s) == [e] + VisitedFrom(prefs, next)
  {
    e := ElementAt(prefs, s);
    next := NextComma(prefs, s) + 1;
  }

  /** kex_agree_crypt, kex_agree_mac and kex_agree_comp, with a preference string. */
  method AgreeByPrefs(prefs: Text, names: seq<Text>, offer: Offer) returns (o: Outcome)
    requires offer.Valid() && ZeroFree(prefs)
    ensures o == Choice(Visited(prefs), names, offer.Names())
  {
    var s := 0;
    while s < |prefs|
      invariant 0 <= s
      invariant Choice(Visited(prefs), names, offer.Names()) == Choice(VisitedFrom(prefs, s), names, offer.Names())
      decreases |prefs| - s
    {
      var e, next := Element(prefs, s);
      ChoiceStep(e, VisitedFrom(prefs, next), names, offer.Names());
      var found := AgreeInstr(offer.memory, offer.len, e);
      if found.At? {
        var k := Lookup(names, e);
        return if k < |names| then Agreed(k) else Refused;
      }
      s := next;
    }
    return Refused;
  }

  lemma ChoiceStep(e: Text, rest: seq<Text>, names: seq<Text>, offered: seq<Text>)
    ensures Choice([e] + rest, names, offered) ==
            if e in offered then if Lookup(names, e) < |names| then Agreed(Lookup(names, e)) else Refused
            else Choice(rest, names, offered)
  {
    assert ([e] + rest)[1..] == rest;
  }

  /** The same, without: the methods compiled in are tried in their order. */
  method AgreeByDefault(names: seq<Text>, offer: Offer) returns (o: Outcome)
    requires offer.Valid() && forall k | 0 <= k < |names| :: IsName(names[k])
    ensures o == Choice(names, names, offer.Names())
  {
    assert names[0..] == names;
    for k := 0 to |names|
      invariant Choice(names, names, offer.Names()) == Choice(names[k..], names, offer.Names())
      invariant forall j | 0 <= j < k :: names[j] !in offer.Names()
    {
      assert names[k..] == [names[k]] + names[k + 1..];
      ChoiceStep(names[k], names[k + 1..], names, offer.Names());
      var found := AgreeInstr(offer.memory, offer.len, names[k]);
      if found.At? {
        assert Lookup(names, names[k]) == k;
        return Agreed(k);
      }
    }
    return Refused;
  }

  /** kex_agree_crypt, kex_agree_mac and kex_agree_comp. */
  method Agree(pref: Preference, names: seq<Text>, offer: Offer) returns (o: Outcome)
    requires offer.Valid() && Usable(pref, names)
    ensures o == Choice(Wanted(pref), names, offer.Names())
  {
    match pref
    case Chosen(text) => o := AgreeByPrefs(text, names, offer);
    case Default(_) => o := AgreeByDefault(names, offer);
  }

  /** The preferences, in order. */
  function Wanted(pref: Preference): (es: seq<Text>) {
    if pref.Chosen? then Visited(pref.text) else pref.names
  }

  /** A zero-terminated string, or the names in the table. */
  predicate Usable(pref: Preference, names: seq<Text>) {
    match pref
    case Chosen(text) => ZeroFree(text)
    case Default(ns) => ns == names && forall k | 0 <= k < |names| :: IsName(names[k])
  }

  // ----- agreeing on a key exchange and a host key

  predicate Suits(m: HostkeyMethod, flags: nat) {
    && (flags / REQ_ENC_HOSTKEY % 2 == 0 || m.encrypts)
    && (flags / REQ_SIGN_HOSTKEY % 2 == 0 || m.signs)
  }

  function HostNames(table: seq<HostkeyMethod>): (ns: seq<Text>)
    ensures |ns| == |table| && forall i | 0 <= i < |ns| :: ns[i] == table[i].name
  {
    seq(|table|, i requires 0 <= i < |table| => table[i].name)
  }

  function KexNames(table: seq<KexMethod>): (ns: seq<Text>)
    ensures |ns| == |table| && forall i | 0 <= i < |ns| :: ns[i] == table[i].name
  {
    seq(|table|, i requires 0 <= i < |table| => table[i].name)
  }

  predicate Distinct(ns: seq<Text>) { forall i, j | 0 <= i < j < |ns| :: ns[i] != ns[j] }

  /** The first preferred host key that is offered and suits the key exchange; `none` if there is none. */
  function HostChoice(wanted: seq<Text>, table: seq<HostkeyMethod>, offered: seq<Text>, flags: nat, none: Outcome)
    : (o: Outcome)
  {
    if wanted == [] then none
    else if wanted[0] !in offered then HostChoice(wanted[1..], table, offered, flags, none)
    else
      var k := Lookup(HostNames(table), wanted[0]);
      if k == |table| then Refused
      else if Suits(table[k], flags) then Agreed(k)
      else HostChoice(wanted[1..], table, offered, flags, none)
  }

  /**
   * What comes of a host key search that finds nothing: with preferences -1, without them a run over the table's end.
   */
  function NoHost(pref: Preference): (o: Outcome) { if pref.Chosen? then Refused else Broken }

  lemma HostStep(e: Text, rest: seq<Text>, table: seq<HostkeyMethod>, offered: seq<Text>, flags: nat, none: Outcome)
    ensures HostChoice([e] + rest, table, offered, flags, none) ==
            if e !in offered then HostChoice(rest, table, offered, flags, none)
            else if Lookup(HostNames(table), e) == |table| then Refused
            else if Suits(table[Lookup(HostNames(table), e)], flags) then Agreed(Lookup(HostNames(table), e))
            else HostChoice(rest, table, offered, flags, none)
  {
    assert ([e] + rest)[1..] == rest;
  }

  /** kex_agree_hostkey with a preference string. */
  method HostByPrefs(prefs: Text, table: seq<HostkeyMethod>, offer: Offer, flags: nat) returns (o: Outcome)
    requires offer.Valid() && ZeroFree(prefs)
    ensures o == HostChoice(Visited(prefs), table, offer.Names(), flags, Refused)
  {
    var s := 0;
    while s < |prefs|
      invariant 0 <= s
      invariant HostChoice(Visited(prefs), table, offer.Names(), flags, Refused)
             == HostChoice(VisitedFrom(prefs, s), table, offer.Names(), flags, Refused)
      decreases |prefs| - s
    {
      var e, next := Element(prefs, s);
      HostStep(e, VisitedFrom(prefs, next), table, offer.Names(), flags, Refused);
      var found := AgreeInstr(offer.memory, offer.len, e);
      if found.At? {
        var k := Lookup(HostNames(table), e);
        if k == |table| {
          return Refused;
        }
        if Suits(table[k], flags) {
          return Agreed(k);
        }
      }
      s := next;
    }
    return Refused;
  }

  /** The same, without: the loop has no end but success. */
  method HostByDefault(table: seq<HostkeyMethod>, offer: Offer, flags: nat) returns (o: Outcome)
    requires offer.Valid() && Distinct(HostNames(table)) && forall k | 0 <= k < |table| :: IsName(table[k].name)
    ensures o == HostChoice(HostNames(table), table, offer.Names(), flags, Broken)
  {
    ghost var names := HostNames(table);
    assert names[0..] == names;
    for k := 0 to |table|
      invariant HostChoice(names, table, offer.Names(), flags, Broken)
             == HostChoice(names[k..], table, offer.Names(), flags, Broken)
    {
      assert names[k..] == [names[k]] + names[k + 1..];
      HostStep(names[k], names[k + 1..], table, offer.Names(), flags, Broken);
      assert Lookup(names, names[k]) == k;
      var found := AgreeInstr(offer.memory, offer.len, table[k].name);
      if found.At? && Suits(table[k], flags) {
        return Agreed(k);
      }
    }
    return Broken;
  }

  datatype Hosts = Hosts(pref: Preference, table: seq<HostkeyMethod>, offer: Offer) {
    predicate Valid() {
      offer.Valid() && Distinct(HostNames(table)) && Usable(pref, HostNames(table))
    }

    function Choose(flags: nat): Outcome
      requires offer.Valid()
    {
      HostChoice(Wanted(pref), table, offer.Names(), flags, NoHost(pref))
    }
  }

  /** kex_agree_hostkey. */
  method AgreeHostkey(hosts: Hosts, flags: nat) returns (o: Outcome)
    requires hosts.Valid()
    ensures o == hosts.Choose(flags)
    ensures o.Agreed? && flags < 4 ==>
              && o.index < |hosts.table| && hosts.table[o.index].name in hosts.offer.Names()
              && (flags == 1 || flags == 3 ==> hosts.table[o.index].encrypts)
              && (flags == 2 || flags == 3 ==> hosts.table[o.index].signs)
  {
    if flags < 4 {
      AgreedCanDo(Wanted(hosts.pref), hosts.table, hosts.offer.Names(), flags, NoHost(hosts.pref));
    }
    match hosts.pref
    case Chosen(text) => o := HostByPrefs(text, hosts.table, hosts.offer, flags);
    case Default(_) =>
      assert forall k | 0 <= k < |hosts.table| :: IsName(HostNames(hosts.table)[k]);
      o := HostByDefault(hosts.table, hosts.offer, flags);
  }

  datatype Pairing = Pair(kex: nat, hostkey: nat, wanted: Text) | NoPair | BrokenPair

  /** The first preferred key exchange that is offered and for which a host key can be agreed on. */
  function KexChoice(wanted: seq<Text>, table: seq<KexMethod>, offered: seq<Text>, hosts: Hosts): (r: Pairing)
    requires hosts.offer.Valid()
  {
    if wanted == [] then NoPair
    else if wanted[0] !in offered then KexChoice(wanted[1..], table, offered, hosts)
    else
      var k := Lookup(KexNames(table), wanted[0]);
      if k == |table| then NoPair else
        match hosts.Choose(table[k].flags)
        case Agreed(h) => Pair(k, h, wanted[0])
        case Refused => KexChoice(wanted[1..], table, offered, hosts)
        case Broken => BrokenPair
  }

  lemma KexStep(e: Text, rest: seq<Text>, table: seq<KexMethod>, offered: seq<Text>, hosts: Hosts)
    requires hosts.offer.Valid()
    ensures KexChoice([e] + rest, table, offered, hosts) ==
            if e !in offered then KexChoice(rest, table, offered, hosts)
            else if Lookup(KexNames(table), e) == |table| then NoPair else
              match hosts.Choose(table[Lookup(KexNames(table), e)].flags)
              case Agreed(h) => Pair(Lookup(KexNames(table), e), h, e)
              case Refused => KexChoice(rest, table, offered, hosts)
              case Broken => BrokenPair
  {
    assert ([e] + rest)[1..] == rest;
  }

  /**
   * The key exchange preferences are tried in order: one that is not offered, or with which no host key goes, is passed
   * over; one that is offered and not in the table ends the search, and so does one with which the search for a host
   * key runs over its table.
   */
  lemma {:induction false} KexEnds(wanted: seq<Text>, table: seq<KexMethod>, offered: seq<Text>, hosts: Hosts)
    returns (i: nat)
    requires hosts.offer.Valid()
    ensures i <= |wanted|
    ensures forall a | 0 <= a < i && wanted[a] in offered ::
              Lookup(KexNames(table), wanted[a]) < |table|
              && hosts.Choose(table[Lookup(KexNames(table), wanted[a])].flags).Refused?
    ensures var r := KexChoice(wanted, table, offered, hosts);
            if i == |wanted| then r == NoPair
            else if wanted[i] !in KexNames(table) then r == NoPair && wanted[i] in offered
            else
              && wanted[i] in offered && Lookup(KexNames(table), wanted[i]) < |table|
              && match hosts.Choose(table[Lookup(KexNames(table), wanted[i])].flags)
                 case Agreed(h) => r == Pair(Lookup(KexNames(table), wanted[i]), h, wanted[i])
                 case Broken => r == BrokenPair
                 case Refused => false
  {
    i := 0;
    if wanted != [] {
      var k := Lookup(KexNames(table), wanted[0]);
      assert k < |table| <==> wanted[0] in KexNames(table);
      if wanted[0] !in offered || (k < |table| && hosts.Choose(table[k].flags).Refused?) {
        assert forall a | 0 <= a < |wanted| - 1 :: wanted[1..][a] == wanted[a + 1];
        var n := KexEnds(wanted[1..], table, offered, hosts);
        i := n + 1;
      }
    }
  }

  /** The server's guess turns out right: the key exchange agreed on is the first of its list. */
  predicate GuessedRight(r: Pairing, offered: seq<Text>)
    requires offered != []
  {
    r.Pair? && r.wanted == offered[0]
  }

  /** kex_agree_kex_hostkey with a preference string. */
  method KexByPrefs(prefs: Text, table: seq<KexMethod>, offer: Offer, hosts: Hosts, burn: bool)
    returns (r: Pairing, burn': bool)
    requires offer.Valid() && ZeroFree(prefs) && hosts.Valid()
    ensures r == KexChoice(Visited(prefs), table, offer.Names(), hosts)
    ensures burn' <==> burn && !GuessedRight(r, offer.Names())
  {
    burn' := burn;
    var s := 0;
    while s < |prefs|
      invariant 0 <= s && burn' == burn
      invariant KexChoice(Visited(prefs), table, offer.Names(), hosts) ==
                  KexChoice(VisitedFrom(prefs, s), table, offer.Names(), hosts)
      decreases |prefs| - s
    {
      var e, next := Element(prefs, s);
      KexStep(e, VisitedFrom(prefs, next), table, offer.Names(), hosts);
      var found := AgreeInstr(offer.memory, offer.len, e);
      if found.At? {
        var k := Lookup(KexNames(table), e);
        if k == |table| {
          return NoPair, burn';
        }
        var host := AgreeHostkey(hosts, table[k].flags);
        if host.Broken? {
          return BrokenPair, burn';
        }
        if host.Agreed? {
          return Pair(k, host.index, e), burn && found != At(0);
        }
      }
      s := next;
    }
    return NoPair, burn';
  }

  /** The same, without. */
  method KexByDefault(table: seq<KexMethod>, offer: Offer, hosts: Hosts, burn: bool) returns (r: Pairing, burn': bool)
    requires offer.Valid() && hosts.Valid()
    requires Distinct(KexNames(table)) && forall k | 0 <= k < |table| :: IsName(table[k].name)
    ensures r == KexChoice(KexNames(table), table, offer.Names(), hosts)
    ensures burn' <==> burn && !GuessedRight(r, offer.Names())
  {
    burn' := burn;
    ghost var names := KexNames(table);
    assert names[0..] == names;
    for k := 0 to |table|
      invariant burn' == burn
      invariant KexChoice(names, table, offer.Names(), hosts) == KexChoice(names[k..], table, offer.Names(), hosts)
    {
      assert names[k..] == [names[k]] + names[k + 1..];
      KexStep(names[k], names[k + 1..], table, offer.Names(), hosts);
      assert Lookup(names, names[k]) == k;
      var found := AgreeInstr(offer.memory, offer.len, table[k].name);
      if found.At? {
        var host := AgreeHostkey(hosts, table[k].flags);
        if host.Broken? {
          return BrokenPair, burn';
        }
        if host.Agreed? {
          return Pair(k, host.index, table[k].name), burn && found != At(0);
        }
      }
    }
    return NoPair, burn';
  }

  /** kex_agree_kex_hostkey. */
  method AgreeKexHostkey(pref: Preference, table: seq<KexMethod>, offer: Offer, hosts: Hosts, burn: bool)
    returns (r: Pairing, burn': bool)
    requires offer.Valid() && hosts.Valid() && Distinct(KexNames(table)) && Usable(pref, KexNames(table))
    ensures r == KexChoice(Wanted(pref), table, offer.Names(), hosts)
    ensures burn' <==> burn && !GuessedRight(r, offer.Names())
  {
    match pref
    case Chosen(text) => r, burn' := KexByPrefs(text, table, offer, hosts, burn);
    case Default(_) =>
      assert forall k | 0 <= k < |table| :: IsName(KexNames(table)[k]);
      r, burn' := KexByDefault(table, offer, hosts, burn);
  }

  // ----- what the pair agreed on is

  /** Host key preference `j` is offered and suits a key exchange with these flags. */
  predicate Works(wanted: seq<Text>, table: seq<HostkeyMethod>, offered: seq<Text>, flags: nat, j: int) {
    && 0 <= j < |wanted| && wanted[j] in offered
    && Lookup(HostNames(table), wanted[j]) < |table| && Suits(table[Lookup(HostNames(table), wanted[j])], flags)
  }

  lemma WorksRest(wanted: seq<Text>, table: seq<HostkeyMethod>, offered: seq<Text>, flags: nat, j: int)
    requires 0 < j < |wanted|
    ensures Works(wanted, table, offered, flags, j) <==> Works(wanted[1..], table, offered, flags, j - 1)
  {
    assert wanted[1..][j - 1] == wanted[j];
  }

  /** The search for a host key finds the first that works, or nothing when none does. */
  lemma {:induction false} HostIsFirst(wanted: seq<Text>, table: seq<HostkeyMethod>, offered: seq<Text>, flags: nat,
                                       none: Outcome)
    returns (j: nat)
    requires Supported(wanted, HostNames(table))
    ensures j <= |wanted| && forall i | 0 <= i < j :: !Works(wanted, table, offered, flags, i)
    ensures if j < |wanted| then
              && Works(wanted, table, offered, flags, j)
              && HostChoice(wanted, table, offered, flags, none) == Agreed(Lookup(HostNames(table), wanted[j]))
            else HostChoice(wanted, table, offered, flags, none) == none
  {
    j := 0;
    if wanted != [] && !Works(wanted, table, offered, flags, 0) {
      assert wanted[0] in HostNames(table);
      assert forall i | 0 <= i < |wanted| - 1 :: wanted[1..][i] == wanted[i + 1];
      var k := HostIsFirst(wanted[1..], table, offered, flags, none);
      j := k + 1;
      forall i | 0 <= i < j
        ensures !Works(wanted, table, offered, flags, i)
      {
        if i > 0 {
          WorksRest(wanted, table, offered, flags, i);
        }
      }
      if j < |wanted| {
        WorksRest(wanted, table, offered, flags, j);
      }
    }
  }

  /** Whatever the preferences, a host key agreed on is offered and can do what the key exchange asks of it. */
  lemma {:induction false} AgreedCanDo(wanted: seq<Text>, table: seq<HostkeyMethod>, offered: seq<Text>, flags: nat,
                                       none: Outcome)
    requires flags < 4 && !none.Agreed?
    ensures var o := HostChoice(wanted, table, offered, flags, none);
            o.Agreed? ==>
              && o.index < |table| && table[o.index].name in wanted && table[o.index].name in offered
              && (flags == 1 || flags == 3 ==> table[o.index].encrypts)
              && (flags == 2 || flags == 3 ==> table[o.index].signs)
  {
    if wanted != [] {
      AgreedCanDo(wanted[1..], table, offered, flags, none);
    }
  }

  /** A host key that can do what a key exchange with these flags asks: 1 to encrypt, 2 to sign, 3 both. */
  ghost predicate CanDo(m: HostkeyMethod, flags: nat) {
    (flags == 1 || flags == 3 ==> m.encrypts) && (flags == 2 || flags == 3 ==> m.signs)
  }

  /**
   * The first preference that the server offers and that can do what is asked is agreed on. One that the server offers
   * and that is not in the table ends the search before.
   */
  lemma {:induction false} HostForFlags(wanted: seq<Text>, table: seq<HostkeyMethod>, offered: seq<Text>, flags: nat,
                                        none: Outcome)
    returns (j: nat)
    requires flags < 4
    ensures j <= |wanted|
    ensures forall i | 0 <= i < j && wanted[i] in offered ::
              Lookup(HostNames(table), wanted[i]) < |table|
              && !CanDo(table[Lookup(HostNames(table), wanted[i])], flags)
    ensures var o := HostChoice(wanted, table, offered, flags, none);
            if j == |wanted| then o == none
            else if wanted[j] in HostNames(table) then
              && wanted[j] in offered && o.Agreed? && o.index < |table| && table[o.index].name == wanted[j]
              && CanDo(table[o.index], flags)
            else wanted[j] in offered && o == Refused
  {
    j := 0;
    if wanted != [] {
      var k := Lookup(HostNames(table), wanted[0]);
      assert k < |table| <==> wanted[0] in HostNames(table);
      if wanted[0] !in offered || (k < |table| && !CanDo(table[k], flags)) {
        assert forall i | 0 <= i < |wanted| - 1 :: wanted[1..][i] == wanted[i + 1];
        var n := HostForFlags(wanted[1..], table, offered, flags, none);
        j := n + 1;
      }
    }
  }

  /** Everything the choice of a pair depends on. */
  datatype Question = Question(wanted: seq<Text>, table: seq<KexMethod>, offered: seq<Text>, hosts: Hosts) {
    predicate Valid() {
      && hosts.offer.Valid() && Supported(wanted, KexNames(table))
      && Supported(Wanted(hosts.pref), HostNames(hosts.table))
    }

    /** Key exchange preference `i` and host key preference `j` are both offered and go together. */
    predicate Feasible(i: int, j: int)
      requires hosts.offer.Valid()
    {
      && 0 <= i < |wanted| && wanted[i] in offered && Lookup(KexNames(table), wanted[i]) < |table|
      && Works(Wanted(hosts.pref), hosts.table, hosts.offer.Names(), table[Lookup(KexNames(table), wanted[i])].flags, j)
    }
  }

  lemma FeasibleRest(q: Question, i: int, j: int)
    requires q.hosts.offer.Valid() && 0 < i < |q.wanted|
    ensures q.Feasible(i, j) <==> q.(wanted := q.wanted[1..]).Feasible(i - 1, j)
  {
    assert q.wanted[1..][i - 1] == q.wanted[i];
  }

  /** The pair at the place `(i, j)` is agreed on. */
  predicate IsPair(q: Question, r: Pairing, i: nat, j: nat)
    requires q.hosts.offer.Valid()
  {
    && i < |q.wanted| && j < |Wanted(q.hosts.pref)| && r.Pair? && r.wanted == q.wanted[i]
    && r.kex == Lookup(KexNames(q.table), q.wanted[i])
    && r.hostkey == Lookup(HostNames(q.hosts.table), Wanted(q.hosts.pref)[j])
  }

  /** No pair works with a key exchange before `i`, and none with that one and a host key before `j`. */
  ghost predicate NoneBefore(q: Question, i: nat, j: nat)
    requires q.hosts.offer.Valid()
  {
    && (forall a: int, b: int :: a < i ==> !q.Feasible(a, b))
    && (forall b: int :: b < j ==> !q.Feasible(i, b))
  }

  lemma NoneBeforeShifts(q: Question, i: nat, j: nat)
    requires q.hosts.offer.Valid() && q.wanted != [] && (forall b: int :: !q.Feasible(0, b))
    requires NoneBefore(q.(wanted := q.wanted[1..]), i, j)
    ensures NoneBefore(q, i + 1, j)
  {
    var p := q.(wanted := q.wanted[1..]);
    forall a: int, b: int | a < i + 1
      ensures !q.Feasible(a, b)
    {
      if 0 < a < |q.wanted| {
        FeasibleRest(q, a, b);
      }
    }
    forall b: int {:trigger q.Feasible(i + 1, b)} | b < j
      ensures !q.Feasible(i + 1, b)
    {
      if i + 1 < |q.wanted| {
        FeasibleRest(q, i + 1, b);
      }
    }
  }

  /** What the search ends with, at the place `(i, j)`. */
  predicate EndsAt(q: Question, r: Pairing, i: nat, j: nat)
    requires q.hosts.offer.Valid()
  {
    match r
    case Pair(_, _, _) => q.Feasible(i, j) && IsPair(q, r, i, j)
    case NoPair => i >= |q.wanted|
    case BrokenPair =>
      q.hosts.pref.Default? && i < |q.wanted| && q.wanted[i] in q.offered && j >= |Wanted(q.hosts.pref)|
  }

  lemma EndsAtShifts(q: Question, r: Pairing, i: nat, j: nat)
    requires q.hosts.offer.Valid() && q.wanted != [] && EndsAt(q.(wanted := q.wanted[1..]), r, i, j)
    ensures EndsAt(q, r, i + 1, j)
  {
    if i + 1 < |q.wanted| {
      assert q.wanted[1..][i] == q.wanted[i + 1];
      FeasibleRest(q, i + 1, j);
    }
  }

  /** The first preferred key exchange: with it the search ends here, or no pair with it works. */
  lemma FirstKex(q: Question) returns (ends: bool, j: nat)
    requires q.Valid() && q.wanted != []
    ensures var r := KexChoice(q.wanted, q.table, q.offered, q.hosts);
            if ends then NoneBefore(q, 0, j) && EndsAt(q, r, 0, j)
            else r == KexChoice(q.wanted[1..], q.table, q.offered, q.hosts) && forall b: int :: !q.Feasible(0, b)
  {
    var e, rest := q.wanted[0], q.wanted[1..];
    assert [e] + rest == q.wanted;
    KexStep(e, rest, q.table, q.offered, q.hosts);
    assert e in KexNames(q.table);
    ends, j := false, 0;
    if e in q.offered {
      var flags := q.table[Lookup(KexNames(q.table), e)].flags;
      j := HostIsFirst(Wanted(q.hosts.pref), q.hosts.table, q.hosts.offer.Names(), flags, NoHost(q.hosts.pref));
      ends := !q.hosts.Choose(flags).Refused?;
    }
  }

  /**
   * The key exchange and the host key agreed on are, of all the pairs that go together and that the server offers, the
   * first: no pair works with an earlier key exchange, and none with this one and an earlier host key. Without a result
   * no pair works at all, unless the search ran over the end of the host key table.
   */
  lemma {:induction false} PairIsFirst(q: Question) returns (i: nat, j: nat)
    requires q.Valid()
    ensures NoneBefore(q, i, j) && EndsAt(q, KexChoice(q.wanted, q.table, q.offered, q.hosts), i, j)
    decreases |q.wanted|
  {
    i, j := 0, 0;
    if q.wanted != [] {
      var ends, k := FirstKex(q);
      if ends {
        return 0, k;
      }
      var rest := q.(wanted := q.wanted[1..]);
      assert forall n | 0 <= n < |rest.wanted| :: rest.wanted[n] == q.wanted[n + 1];
      var i', j' := PairIsFirst(rest);
      NoneBeforeShifts(q, i', j');
      EndsAtShifts(q, KexChoice(rest.wanted, q.table, q.offered, q.hosts), i', j');
      return i' + 1, j';
    }
  }

  /** Key exchange preference `i` is the first the server offers, and no host key goes with it. */
  ghost predicate Stranded(q: Question, i: nat)
    requires q.hosts.offer.Valid()
  {
    && i < |q.wanted| && q.wanted[i] in q.offered
    && (forall a | 0 <= a < i :: q.wanted[a] !in q.offered)
    && (forall b: int :: !q.Feasible(i, b))
  }

  lemma StrandedShifts(q: Question, i: nat)
    requires q.hosts.offer.Valid() && q.wanted != [] && q.wanted[0] !in q.offered
    ensures !Stranded(q, 0)
    ensures Stranded(q, i + 1) <==> Stranded(q.(wanted := q.wanted[1..]), i)
  {
    var p := q.(wanted := q.wanted[1..]);
    if i < |p.wanted| {
      forall b: int {:trigger q.Feasible(i + 1, b)} {:trigger p.Feasible(i, b)}
        ensures q.Feasible(i + 1, b) <==> p.Feasible(i, b)
      {
        FeasibleRest(q, i + 1, b);
      }
      if Stranded(p, i) {
        forall a | 0 <= a < i + 1
          ensures q.wanted[a] !in q.offered
        {
          assert a > 0 ==> q.wanted[a] == p.wanted[a - 1];
        }
      }
    }
  }

  /** When the first preferred key exchange is offered, the host keys decide. */
  lemma FirstDecides(q: Question)
    requires q.Valid() && q.wanted != [] && q.wanted[0] in q.offered
    ensures var o := q.hosts.Choose(q.table[Lookup(KexNames(q.table), q.wanted[0])].flags);
            (o.Broken? <==> q.hosts.pref.Default? && Stranded(q, 0)) && (o.Refused? ==> !q.hosts.pref.Default?)
  {
    var flags := q.table[Lookup(KexNames(q.table), q.wanted[0])].flags;
    var wanted := Wanted(q.hosts.pref);
    var j := HostIsFirst(wanted, q.hosts.table, q.hosts.offer.Names(), flags, NoHost(q.hosts.pref));
    if j < |wanted| {
      assert q.Feasible(0, j);
    } else {
      assert forall b: int :: !q.Feasible(0, b);
    }
  }

  /**
   * The search runs over the end of the host key table exactly when there are no host key preferences and no host key
   * the server offers goes with the first key exchange preference it offers.
   */
  lemma {:induction false} RunsOverTheEnd(q: Question)
    requires q.Valid()
    ensures KexChoice(q.wanted, q.table, q.offered, q.hosts).BrokenPair?
       <==> q.hosts.pref.Default? && exists i: nat :: Stranded(q, i)
    decreases |q.wanted|
  {
    if q.wanted != [] {
      var e, rest := q.wanted[0], q.(wanted := q.wanted[1..]);
      assert [e] + rest.wanted == q.wanted;
      KexStep(e, rest.wanted, q.table, q.offered, q.hosts);
      assert forall n | 0 <= n < |rest.wanted| :: rest.wanted[n] == q.wanted[n + 1];
      RunsOverTheEnd(rest);
      if e in q.offered {
        assert e in KexNames(q.table);
        FirstDecides(q);
        if i: nat :| Stranded(q, i) {
          assert i == 0;
        }
      } else {
        OnlyBehind(q);
      }
    }
  }

  lemma OnlyBehind(q: Question)
    requires q.hosts.offer.Valid() && q.wanted != [] && q.wanted[0] !in q.offered
    ensures (exists i: nat :: Stranded(q, i)) <==> exists i: nat :: Stranded(q.(wanted := q.wanted[1..]), i)
  {
    var p := q.(wanted := q.wanted[1..]);
    if i: nat :| Stranded(q, i) {
      StrandedShifts(q, if i > 0 then i - 1 else 0);
      assert Stranded(p, i - 1);
    }
    if i: nat :| Stranded(p, i) {
      StrandedShifts(q, i);
      assert Stranded(q, i + 1);
    }
  }

  /** The question a client with one key exchange and these host keys has for a server with that key exchange. */
  function Small(hostkeys: seq<HostkeyMethod>, offered: seq<Text>): (q: Question) {
    var kex := [97];
    Question([kex], [KexMethod(kex, 0)], [kex],
             Hosts(Default(HostNames(hostkeys)), hostkeys, Offer(Join(offered) + [0], |Join(offered)|)))
  }

  /** A list of names, with a zero byte behind it. */
  lemma OfferOf(names: seq<Text>)
    requires names != [] && forall i | 0 <= i < |names| :: IsName(names[i])
    ensures var o := Offer(Join(names) + [0], |Join(names)|);
            o.Valid() && o.Names() == names
  {
    var o := Offer(Join(names) + [0], |Join(names)|);
    assert o.memory[..o.len] == Join(names);
    JoinHasNoZero(names);
    SplitJoin(names);
  }

  /** It comes to that: with one host key in the table and a server that offers another. */
  lemma RunsOverTheEndSomewhere() returns (q: Question)
    ensures q.Valid() && Stranded(q, 0) && KexChoice(q.wanted, q.table, q.offered, q.hosts).BrokenPair?
  {
    var mine, other: Text := [98], [99];
    q := Small([HostkeyMethod(mine, true, true)], [other]);
    OfferOf([other]);
    assert HostNames(q.hosts.table) == [mine];
    assert forall b: int :: !q.Feasible(0, b);
    assert Stranded(q, 0);
    RunsOverTheEnd(q);
  }

  // ----- whether the server guessed right

  /** What section 7.1 of RFC 4253 asks of a guess: the two sides' first key exchanges, and host keys, are the same. */
  predicate RightByStandard(q: Question)
    requires q.hosts.offer.Valid()
  {
    && q.wanted != [] && q.offered != [] && q.wanted[0] == q.offered[0]
    && SameFirstHost(q)
  }

  predicate SameFirstHost(q: Question)
    requires q.hosts.offer.Valid()
  {
    Wanted(q.hosts.pref) != [] && Wanted(q.hosts.pref)[0] == q.hosts.offer.Names()[0]
  }

  /** Some host key goes with key exchange preference `i`. */
  ghost predicate Goes(q: Question, i: int)
    requires q.hosts.offer.Valid()
  {
    exists j: int :: q.Feasible(i, j)
  }

  /** The server's first key exchange is preference `i`, a host key goes with it, and with no earlier preference. */
  ghost predicate FirstGoes(q: Question, i: int)
    requires q.hosts.offer.Valid() && q.offered != []
  {
    0 <= i < |q.wanted| && q.wanted[i] == q.offered[0] && Goes(q, i) && forall a | 0 <= a < i :: !Goes(q, a)
  }

  /** The code counts the guess as right exactly when the server's first key exchange is the first that goes. */
  lemma GuessIsFirst(q: Question)
    requires q.Valid() && q.offered != [] && !KexChoice(q.wanted, q.table, q.offered, q.hosts).BrokenPair?
    ensures GuessedRight(KexChoice(q.wanted, q.table, q.offered, q.hosts), q.offered) <==>
              exists i: int :: FirstGoes(q, i)
  {
    var r := KexChoice(q.wanted, q.table, q.offered, q.hosts);
    var i, j := PairIsFirst(q);
    assert forall a: int | a < i :: !Goes(q, a);
    if r.Pair? {
      assert q.Feasible(i, j);
      assert Goes(q, i);
      if q.wanted[i] == q.offered[0] {
        assert FirstGoes(q, i);
      }
      if k: int :| FirstGoes(q, k) {
        assert k == i;
      }
    }
  }

  /** What goes with one of two equal preferences goes with the other. */
  lemma SameGoes(q: Question, i: int, k: int)
    requires q.hosts.offer.Valid() && 0 <= i < |q.wanted| && 0 <= k < |q.wanted| && q.wanted[i] == q.wanted[k]
    ensures Goes(q, i) <==> Goes(q, k)
  {
    if j: int :| q.Feasible(i, j) {
      assert q.Feasible(k, j);
    }
    if j: int :| q.Feasible(k, j) {
      assert q.Feasible(i, j);
    }
  }

  /**
   * Code and standard agree on the guess exactly in these cases: the two sides' first key exchanges are the same, and
   * their first host keys are the same just when some host key goes with that key exchange; or they differ, and the
   * server's is not the first that goes all the same.
   */
  lemma GuessesAgree(q: Question)
    requires q.Valid() && q.offered != [] && !KexChoice(q.wanted, q.table, q.offered, q.hosts).BrokenPair?
    ensures (GuessedRight(KexChoice(q.wanted, q.table, q.offered, q.hosts), q.offered) <==> RightByStandard(q)) <==>
              if q.wanted != [] && q.wanted[0] == q.offered[0] then SameFirstHost(q) <==> Goes(q, 0)
              else forall i: int :: !FirstGoes(q, i)
  {
    GuessIsFirst(q);
    if q.wanted != [] && q.wanted[0] == q.offered[0] {
      if Goes(q, 0) {
        assert FirstGoes(q, 0);
      }
      if i: int :| FirstGoes(q, i) {
        SameGoes(q, 0, i);
      }
    }
  }

  /** They differ on a server that prefers another of two host keys: the code keeps the packet sent ahead. */
  lemma GuessesDiffer() returns (q: Question)
    ensures q.Valid() && q.offered != []
    ensures GuessedRight(KexChoice(q.wanted, q.table, q.offered, q.hosts), q.offered) && !RightByStandard(q)
  {
    var h1, h2: Text := [98], [99];
    var table := [HostkeyMethod(h1, true, true), HostkeyMethod(h2, true, true)];
    q := Small(table, [h2, h1]);
    OfferOf([h2, h1]);
    assert HostNames(table) == [h1, h2];
    assert q.hosts.offer.Names()[1] == h1;
    assert Lookup(HostNames(table), h1) == 0 && Lookup(KexNames(q.table), [97]) == 0;
    assert q.Feasible(0, 0);
    assert Goes(q, 0);
    assert FirstGoes(q, 0);
    RunsOverTheEnd(q);
    assert |q.wanted| == 1;
    GuessIsFirst(q);
  }

  // ----- the whole negotiation

  datatype Directed = Directed(crypt: Preference, mac: Preference, comp: Preference)
  datatype Tables = Tables(kexes: seq<KexMethod>, hostkeys: seq<HostkeyMethod>,
                           crypts: seq<Text>, macs: seq<Text>, comps: seq<Text>) {
    predicate Valid() { Distinct(KexNames(kexes)) && Distinct(HostNames(hostkeys)) }
  }

  /** What comes of the six choices of a method for one direction, and of the pair: all of them, or failure. */
  datatype Selected = Selected(crypt: nat, mac: nat, comp: nat)
  datatype Result = Success | Failure | OverTheEnd

  /** The client's half of the session: its preferences, and what has been agreed on. */
  class Session {
    const tables: Tables
    const kexPrefs: Preference
    const hostkeyPrefs: Preference
    const local: Directed
    const remote: Directed

    var burn: bool
    var kex: nat
    var hostkey: nat
    var sent: Selected       // local.crypt, local.mac, local.comp
    var received: Selected   // remote.crypt, remote.mac, remote.comp

    constructor (tables: Tables, kexPrefs: Preference, hostkeyPrefs: Preference, local: Directed, remote: Directed)
      ensures this.tables == tables && this.kexPrefs == kexPrefs && this.hostkeyPrefs == hostkeyPrefs
      ensures this.local == local && this.remote == remote
    {
      this.tables, this.kexPrefs, this.hostkeyPrefs := tables, kexPrefs, hostkeyPrefs;
      this.local, this.remote := local, remote;
      burn, kex, hostkey, sent, received := false, 0, 0, Selected(0, 0, 0), Selected(0, 0, 0);
    }

    predicate Valid() {
      && tables.Valid()
      && Usable(kexPrefs, KexNames(tables.kexes)) && Usable(hostkeyPrefs, HostNames(tables.hostkeys))
      && Usable(local.crypt, tables.crypts) && Usable(remote.crypt, tables.crypts)
      && Usable(local.mac, tables.macs) && Usable(remote.mac, tables.macs)
      && Usable(local.comp, tables.comps) && Usable(remote.comp, tables.comps)
    }

    /** The pair for these two lists of the server's. */
    function ExpectedPair(kexes: Offer, hostkeys: Offer): Pairing
      requires hostkeys.Valid() && kexes.Valid()
    {
      KexChoice(Wanted(kexPrefs), tables.kexes, kexes.Names(), Hosts(hostkeyPrefs, tables.hostkeys, hostkeys))
    }

    /** One kind of method, in both directions. */
    method AgreeBoth(mine: Preference, theirs: Preference, names: seq<Text>, cs: Offer, sc: Offer)
      returns (ok: bool, out: nat, back: nat)
      requires cs.Valid() && sc.Valid() && Usable(mine, names) && Usable(theirs, names)
      ensures ok <==>
                Choice(Wanted(mine), names, cs.Names()).Agreed? && Choice(Wanted(theirs), names, sc.Names()).Agreed?
      ensures ok ==> Choice(Wanted(mine), names, cs.Names()) == Agreed(out)
      ensures ok ==> Choice(Wanted(theirs), names, sc.Names()) == Agreed(back)
    {
      ok, out, back := false, 0, 0;
      var a := Agree(mine, names, cs);
      if !a.Agreed? {
        return;
      }
      var b := Agree(theirs, names, sc);
      if !b.Agreed? {
        return;
      }
      return true, a.index, b.index;
    }

    /** The six methods. */
    method AgreeDirections(offers: seq<Offer>) returns (ok: bool)
      requires Valid() && |offers| == 10 && forall i | 2 <= i < 8 :: offers[i].Valid()
      modifies this`sent, this`received
      ensures ok <==>
                AllAgreed(local, offers[2], offers[4], offers[6]) && AllAgreed(remote, offers[3], offers[5], offers[7])
      ensures ok ==>
                && MatchesAll(local, offers[2], offers[4], offers[6], sent)
                && MatchesAll(remote, offers[3], offers[5], offers[7], received)
    {
      var a, b, c, d, e, f;
      ok, a, b := AgreeBoth(local.crypt, remote.crypt, tables.crypts, offers[2], offers[3]);
      if !ok {
        return;
      }
      ok, c, d := AgreeBoth(local.mac, remote.mac, tables.macs, offers[4], offers[5]);
      if !ok {
        return;
      }
      ok, e, f := AgreeBoth(local.comp, remote.comp, tables.comps, offers[6], offers[7]);
      sent, received := Selected(a, c, e), Selected(b, d, f);
    }

    /** A method can be agreed on for each of the three kinds. */
    predicate AllAgreed(prefs: Directed, crypt: Offer, mac: Offer, comp: Offer)
      requires crypt.Valid() && mac.Valid() && comp.Valid()
    {
      && Choice(Wanted(prefs.crypt), tables.crypts, crypt.Names()).Agreed?
      && Choice(Wanted(prefs.mac), tables.macs, mac.Names()).Agreed?
      && Choice(Wanted(prefs.comp), tables.comps, comp.Names()).Agreed?
    }

    /** The negotiation can be brought to an end: there is a pair, and six methods. The languages are not looked at. */
    predicate Agreeable(offers: seq<Offer>)
      requires |offers| == 10 && forall i | 0 <= i < 8 :: offers[i].Valid()
    {
      && ExpectedPair(offers[0], offers[1]).Pair?
      && AllAgreed(local, offers[2], offers[4], offers[6]) && AllAgreed(remote, offers[3], offers[5], offers[7])
    }

    /** The choices kex_agree_methods makes, from the ten lists of the server's and its first_kex_packet_follows. */
    method AgreeOffers(offers: seq<Offer>, follows: bool) returns (r: Result)
      requires Valid() && |offers| == 10 && forall i | 0 <= i < 8 :: offers[i].Valid()
      modifies this
      ensures r == Success <==> Agreeable(offers)
      ensures r == Success ==>
                && Matches(ExpectedPair(offers[0], offers[1]), kex, hostkey)
                && MatchesAll(local, offers[2], offers[4], offers[6], sent)
                && MatchesAll(remote, offers[3], offers[5], offers[7], received)
                && (burn <==> follows && !GuessedRight(ExpectedPair(offers[0], offers[1]), offers[0].Names()))
      ensures r == OverTheEnd <==> ExpectedPair(offers[0], offers[1]).BrokenPair?
    {
      var hosts := Hosts(hostkeyPrefs, tables.hostkeys, offers[1]);
      var pair: Pairing;
      pair, burn := AgreeKexHostkey(kexPrefs, tables.kexes, offers[0], hosts, follows);
      match pair
      case NoPair => return Failure;
      case BrokenPair => return OverTheEnd;
      case Pair(k, h, _) => kex, hostkey := k, h;
      var ok := AgreeDirections(offers);
      r := if ok then Success else Failure;
    }

    /**
     * kex_agree_methods, on a message whose lists of methods a zero byte follows. It succeeds exactly when all can be
     * agreed on, and runs over the host key table's end exactly when the search for a pair does. On success the pair
     * is the one the two preference lists call for, and each of the six methods the first preference the server offers
     * for its direction; the packet the server sent ahead is to be dropped exactly when it did and guessed a key
     * exchange other than the one agreed on.
     */
    method AgreeMethods(data: seq<byte>) returns (r: Result)
      requires Valid() && (OffersIn(data) != [] ==> forall i | 0 <= i < 8 :: OffersIn(data)[i].Valid())
      modifies this
      ensures r == Success <==> OffersIn(data) != [] && Agreeable(OffersIn(data))
      ensures r == OverTheEnd <==>
                OffersIn(data) != [] && ExpectedPair(OffersIn(data)[0], OffersIn(data)[1]).BrokenPair?
      ensures r == Success ==>
                && |OffersIn(data)| == 10
                && Matches(ExpectedPair(OffersIn(data)[0], OffersIn(data)[1]), kex, hostkey)
                && MatchesAll(local, OffersIn(data)[2], OffersIn(data)[4], OffersIn(data)[6], sent)
                && MatchesAll(remote, OffersIn(data)[3], OffersIn(data)[5], OffersIn(data)[7], received)
                && (burn <==> data[Locate(data, 17, 10).end] != 0
                              && !GuessedRight(ExpectedPair(OffersIn(data)[0], OffersIn(data)[1]),
                                  OffersIn(data)[0].Names()))
    {
      var offers := OffersIn(data);
      if offers == [] {
        return Failure;
      }
      r := AgreeOffers(offers, data[Locate(data, 17, 10).end] != 0);
    }

    predicate MatchesAll(prefs: Directed, crypt: Offer, mac: Offer, comp: Offer, s: Selected)
      requires crypt.Valid() && mac.Valid() && comp.Valid()
    {
      && Choice(Wanted(prefs.crypt), tables.crypts, crypt.Names()) == Agreed(s.crypt)
      && Choice(Wanted(prefs.mac), tables.macs, mac.Names()) == Agreed(s.mac)
      && Choice(Wanted(prefs.comp), tables.comps, comp.Names()) == Agreed(s.comp)
    }
  }

  predicate Matches(r: Pairing, kex: nat, hostkey: nat) { r.Pair? && r.kex == kex && r.hostkey == hostkey }

  /** The lists of the server's message, as the search functions get them: from where each starts on. */
  function OffersIn(data: seq<byte>): (os: seq<Offer>)
    ensures os != [] ==> |os| == 10 && Locate(data, 17, 10).Lists? && Locate(data, 17, 10).end < |data|
  {
    var l := Locate(data, 17, 10);
    if l.Short? || l.end >= |data| then [] else
      seq(10, i requires 0 <= i < 10 => Offer(data[l.spans[i].at..], l.spans[i].len))
  }

  /** Names that a list can hold. */
  predicate NameList(names: seq<Text>) {
    |names| > 0 && forall i | 0 <= i < |names| :: IsName(names[i])
  }

  lemma {:induction false} JoinHasNoZero(names: seq<Text>)
    requires forall i | 0 <= i < |names| :: ZeroFree(names[i])
    ensures ZeroFree(Join(names))
  {
    if |names| > 1 {
      JoinHasNoZero(names[1..]);
    }
  }

  lemma TextsAtIndex(data: seq<byte>, spans: seq<Span>, i: nat)
    requires i < |spans|
    ensures TextsAt(data, spans)[i] == TextAt(data, spans[i])
  {
    if i > 0 {
      TextsAtIndex(data, spans[1..], i - 1);
    }
  }

  /** One list of a message, as the search functions get it. */
  lemma OfferOfList(data: seq<byte>, s: Span, names: seq<Text>)
    requires s.at + s.len <= |data| && TextAt(data, s) == Join(names) && Terminated(data, s) && NameList(names)
    ensures Offer(data[s.at..], s.len).Valid() && Offer(data[s.at..], s.len).Names() == names
  {
    assert data[s.at..][..s.len] == data[s.at..s.at + s.len];
    JoinHasNoZero(names);
    SplitJoin(names);
  }

  /**
   * What kex_agree_methods sees of a message another kexinit has built: ten lists, each of them, unless it is empty,
   * one it can search, holding the names the other side joined. The others may be empty, as the languages are by
   * default.
   */
  lemma OffersOfMessage(cookie: seq<byte>, lists: seq<seq<Text>>, i: nat)
    requires |cookie| == 16 && |lists| == 10 && Shorter(Joined(lists), 0x100_0000)
    requires i < 10 && NameList(lists[i])
    ensures var os := OffersIn(Message(cookie, Joined(lists)));
            |os| == 10 && os[i].Valid() && os[i].Names() == lists[i]
  {
    var xs := Joined(lists);
    var m := Message(cookie, xs);
    RoundTrip(cookie, xs);
    var l := Locate(m, 17, 10);
    assert |m[l.end..]| == 5;
    TextsAtIndex(m, l.spans, i);
    OfferOfList(m, l.spans[i], lists[i]);
  }

  function Joined(lists: seq<seq<Text>>): (xs: seq<Text>)
    ensures |xs| == |lists| && forall k | 0 <= k < |xs| :: xs[k] == Join(lists[k])
  {
    seq(|lists|, k requires 0 <= k < |lists| => Join(lists[k]))
  }
}
