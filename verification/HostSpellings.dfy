/** What the address rules make of names as people and clusters write them. */
module HostSpellings {
  import opened Text
  import opened HostNames
  import opened DomainRule
  import opened Router
  import opened Urls
  import opened Utf8

  // ---------------------------------------------------------------- a host and a port, read back

  /** A name as it stands in an address: neither a delimiter nor a bracket in it. */
  predicate PlainHost(host: string) {
    host != "" && forall k :: 0 <= k < |host| ==> host[k] !in {'/', '?', '#', '@', ':', '[', ']'}
  }

  /** What stands between brackets. */
  predicate PlainLiteral(literal: string) {
    forall k :: 0 <= k < |literal| ==> literal[k] !in {'/', '?', '#', '@', ']'}
  }

  /** An address with or without a scheme, a user and a path. */
  function Address(scheme: Option<string>, userinfo: Option<string>, host: string, port: Option<string>, tail: string): string {
    (if scheme.Some? then scheme.value + "://" else "") + (AuthorityText(userinfo, host, port) + tail)
  }

  predicate ReadsAsAddress(scheme: Option<string>, userinfo: Option<string>, host: string, port: Option<string>, tail: string) {
    && (if scheme.Some? then ':' !in scheme.value else FindSub(AuthorityText(userinfo, host, port) + tail, "://").None?)
    && (userinfo.Some? ==> forall k :: 0 <= k < |userinfo.value| ==> userinfo.value[k] !in UrlEnd)
    && (port.Some? ==> IsPort(port.value)) && EndsAuthority(tail)
  }

  lemma AfterItsScheme(scheme: string, rest: string)
    requires ':' !in scheme
    ensures AfterScheme(scheme + "://" + rest) == rest
  {
    var url := scheme + "://" + rest;
    assert url[|scheme|..|scheme| + 3] == "://";
    forall k: nat | k < |scheme| ensures !OccursAt(url, "://", k) {
      assert url[k] == scheme[k] && scheme[k] in scheme;
      StartsWithColon(url, k);
    }
    FindSubUnique(url, "://", |scheme|);
    assert url[|scheme| + 3..] == rest;
  }

  lemma AddressAuthority(scheme: Option<string>, userinfo: Option<string>, host: string, port: Option<string>, tail: string)
    requires ReadsAsAddress(scheme, userinfo, host, port, tail) && IsHost(host)
    ensures AuthorityOf(Address(scheme, userinfo, host, port, tail)) == host + if port.Some? then ":" + port.value else ""
  {
    hide FindSub, DropUserinfo, Before, IndexOfAny;
    var authority := AuthorityText(userinfo, host, port);
    if scheme.Some? {
      AfterItsScheme(scheme.value, authority + tail);
    } else {
      assert "" + (authority + tail) == authority + tail;
    }
    AuthorityIsClean(userinfo, host, port);
    BeforeTail(authority, tail);
    AuthorityDropsUserinfo(userinfo, host, port);
  }

  lemma AuthorityIsClean(userinfo: Option<string>, host: string, port: Option<string>)
    requires IsHost(host) && (port.Some? ==> IsPort(port.value))
    requires userinfo.Some? ==> forall k :: 0 <= k < |userinfo.value| ==> userinfo.value[k] !in UrlEnd
    ensures var authority := AuthorityText(userinfo, host, port); forall k :: 0 <= k < |authority| ==> authority[k] !in UrlEnd
  {
  }

  /** A plain name in an address is its host, and the port behind it its port. */
  lemma NameReadsBack(scheme: Option<string>, userinfo: Option<string>, host: string, port: Option<string>, tail: string)
    requires ReadsAsAddress(scheme, userinfo, host, port, tail) && PlainHost(host)
    ensures HostOf(Address(scheme, userinfo, host, port, tail)) == host
    ensures PortOf(Address(scheme, userinfo, host, port, tail)) == port
  {
    hide AuthorityOf, Address;
    assert ':' !in host;
    AddressAuthority(scheme, userinfo, host, port, tail);
    NameAndPort(host, port);
  }

  lemma NameAndPort(host: string, port: Option<string>)
    requires PlainHost(host) && (port.Some? ==> IsPort(port.value))
    ensures var authority := host + if port.Some? then ":" + port.value else "";
      HostOfAuthority(authority) == host && PortOfAuthority(authority) == port
  {
    hide IndexOfAny;
    NoMarks(host);
    if port.Some? {
      var tail := ":" + port.value;
      NoMarks(port.value);
      IndexAppend(host, tail, {':'});
      IndexAppend(host, tail, {']'});
      ColonAtHead(port.value);
      assert (host + tail)[..|host|] == host && (host + tail)[|host| + 1..] == port.value;
    } else {
      assert host + "" == host;
      assert host[..|host|] == host;
    }
  }

  lemma NoMarks(s: string)
    requires PlainHost(s) || IsPort(s)
    ensures IndexOfAny(s, {':'}) == |s| && IndexOfAny(s, {']'}) == |s|
  {
  }

  lemma ColonAtHead(port: string)
    requires IsPort(port)
    ensures IndexOfAny(":" + port, {':'}) == 0 && IndexOfAny(":" + port, {']'}) == |port| + 1
  {
    var whole := ":" + port;
    assert forall k :: 0 <= k < |whole| ==> whole[k] != ']';
  }

  /** A bracketed literal in an address is its host without the brackets. */
  lemma LiteralReadsBack(scheme: Option<string>, userinfo: Option<string>, literal: string, port: Option<string>, tail: string)
    requires PlainLiteral(literal) && ReadsAsAddress(scheme, userinfo, "[" + literal + "]", port, tail)
    ensures HostOf(Address(scheme, userinfo, "[" + literal + "]", port, tail)) == literal
    ensures PortOf(Address(scheme, userinfo, "[" + literal + "]", port, tail)) == port
  {
    hide AuthorityOf, Address;
    AddressAuthority(scheme, userinfo, "[" + literal + "]", port, tail);
    LiteralAndPort(literal, port);
  }

  lemma LiteralAndPort(literal: string, port: Option<string>)
    requires PlainLiteral(literal) && (port.Some? ==> IsPort(port.value))
    ensures var authority := ("[" + literal + "]") + if port.Some? then ":" + port.value else "";
      HostOfAuthority(authority) == literal && PortOfAuthority(authority) == port
  {
    var behind := if port.Some? then ":" + port.value else "";
    BracketSplits(literal, behind);
    if port.Some? { assert behind[1..] == port.value; }
  }

  /** A bracketed literal, cut at its closing bracket. */
  lemma BracketSplits(literal: string, behind: string)
    requires PlainLiteral(literal)
    ensures var authority := ("[" + literal + "]") + behind;
      && authority[0] == '[' && Before(authority[1..], {']'}) == literal
      && SplitOnce(authority, ']') == Some(("[" + literal, behind))
  {
    hide IndexOfAny;
    var authority := ("[" + literal + "]") + behind;
    NoBracket(literal);
    assert authority[1..] == literal + ("]" + behind);
    assert ("]" + behind)[0] == ']';
    IndexAppend(literal, "]" + behind, {']'});
    IndexAtHead("]" + behind);
    assert (literal + ("]" + behind))[..|literal|] == literal;
    assert authority == ("[" + literal) + ("]" + behind);
    IndexAppend("[" + literal, "]" + behind, {']'});
    assert authority[..|literal| + 1] == "[" + literal && authority[|literal| + 2..] == behind;
  }

  lemma IndexAtHead(s: string)
    requires s != "" && s[0] == ']'
    ensures IndexOfAny(s, {']'}) == 0
  {
  }

  lemma NoBracket(literal: string)
    requires PlainLiteral(literal)
    ensures IndexOfAny(literal, {']'}) == |literal| && IndexOfAny("[" + literal, {']'}) == |literal| + 1
  {
    var whole := "[" + literal;
    assert forall k :: 0 <= k < |whole| ==> whole[k] != ']';
  }

  // ---------------------------------------------------------------- which names are authorities

  /** A name without a bracket in front: anything without a colon, or a name, one colon and digits. */
  lemma NameIsAuthority(name: string, port: string)
    requires ':' !in name && (name != "" ==> name[0] != '[')
    ensures IsAuthority(name)
    ensures IsAuthority(name + ":" + port) <==> name != "" && port != "" && AllDigits(port)
  {
    hide IsIpv6;
    var whole := name + ":" + port;
    assert whole == name + (":" + port);
    IndexAppend(name, ":" + port, {':'});
    assert whole[..|name|] == name && whole[|name| + 1..] == port;
    assert whole[0] == if name == "" then ':' else name[0];
  }

  /** A bracketed one: an IPv6 literal and nothing behind it, or a colon and digits. */
  lemma LiteralIsAuthority(literal: string, behind: string)
    requires ']' !in literal
    ensures !IsAuthority("[" + literal)
    ensures IsAuthority("[" + literal + "]" + behind) <==>
      IsIpv6(literal) && (behind == "" || (behind[0] == ':' && behind[1..] != "" && AllDigits(behind[1..])))
  {
    hide IsIpv6;
    assert ("[" + literal)[1..] == literal;
    var whole := "[" + literal + "]" + behind;
    assert whole[1..] == literal + ("]" + behind);
    IndexAppend(literal, "]" + behind, {']'});
    assert whole[1..][..|literal|] == literal && whole[1..][|literal| + 1..] == behind;
  }

  /** A dotted address in decimal: exactly four numbers below 256, without leading zeros. */
  lemma Ipv4Exactly(s: string)
    ensures IsIpv4(s) <==> exists a: nat, b: nat, c: nat, d: nat ::
      a < 256 && b < 256 && c < 256 && d < 256 && s == Dotted(a, b, c, d)
  {
    hide Split, IsOctet, Decimal;
    if IsIpv4(s) {
      var parts := Split(s, '.');
      forall i | 0 <= i < 4 ensures exists n: nat :: n < 256 && parts[i] == Decimal(n) { OctetExactly(parts[i]); }
      var a: nat :| a < 256 && parts[0] == Decimal(a);
      var b: nat :| b < 256 && parts[1] == Decimal(b);
      var c: nat :| c < 256 && parts[2] == Decimal(c);
      var d: nat :| d < 256 && parts[3] == Decimal(d);
      JoinSplit(s, '.');
      JoinFour(parts);
      assert s == Dotted(a, b, c, d);
    }
    if a: nat, b: nat, c: nat, d: nat :| a < 256 && b < 256 && c < 256 && d < 256 && s == Dotted(a, b, c, d) {
      DottedParts(a, b, c, d);
      OctetExactly(Decimal(a));
      OctetExactly(Decimal(b));
      OctetExactly(Decimal(c));
      OctetExactly(Decimal(d));
    }
  }

  function Dotted(a: nat, b: nat, c: nat, d: nat): string {
    Decimal(a) + ['.'] + (Decimal(b) + ['.'] + (Decimal(c) + ['.'] + Decimal(d)))
  }

  lemma JoinFour(parts: seq<string>)
    requires |parts| == 4
    ensures Join(parts, '.') == parts[0] + ['.'] + (parts[1] + ['.'] + (parts[2] + ['.'] + parts[3]))
  {
    assert parts[1..][1..] == parts[2..] && parts[1..][1..][1..] == parts[3..];
    assert Join(parts[3..], '.') == parts[3];
    assert Join(parts[2..], '.') == parts[2] + ['.'] + parts[3];
  }

  lemma DottedParts(a: nat, b: nat, c: nat, d: nat)
    ensures Split(Dotted(a, b, c, d), '.') == [Decimal(a), Decimal(b), Decimal(c), Decimal(d)]
  {
    hide Split, Decimal;
    DecimalDigits(a);
    DecimalDigits(b);
    DecimalDigits(c);
    DecimalDigits(d);
    TwoDots(Decimal(b), Decimal(c), Decimal(d));
    SplitConcat(Decimal(a), Decimal(b) + ['.'] + (Decimal(c) + ['.'] + Decimal(d)), '.');
    SplitNone(Decimal(a), '.');
  }

  /** A number in decimal is digits that spell it, without a leading zero. */
  lemma {:induction false} DecimalDigits(n: nat)
    ensures Decimal(n) != "" && AllDigits(Decimal(n)) && DecimalValue(Decimal(n)) == n
    ensures n >= 10 ==> Decimal(n)[0] != '0' && |Decimal(n)| > 1
    ensures n < 10 ==> |Decimal(n)| == 1
    ensures n > 0 ==> Decimal(n)[0] != '0'
    ensures '.' !in Decimal(n)
  {
    if n >= 10 {
      DecimalDigits(n / 10);
      var front, last := Decimal(n / 10), '0' + (n % 10) as char;
      assert Decimal(n)[..|Decimal(n)| - 1] == front && Decimal(n)[|Decimal(n)| - 1] == last;
    } else {
      assert Decimal(n)[..0] == "";
    }
  }

  /** And such digits are the decimal of what they spell. */
  lemma {:induction false} DigitsAreDecimal(s: string)
    requires s != "" && AllDigits(s) && (|s| > 1 ==> s[0] != '0')
    ensures Decimal(DecimalValue(s)) == s
    ensures |s| > 1 ==> DecimalValue(s) >= 10
    ensures s[0] != '0' ==> DecimalValue(s) > 0
  {
    hide Decimal, DecimalValue;
    var front, last := s[..|s| - 1], s[|s| - 1];
    assert s == front + [last];
    if front != "" {
      assert front[0] == s[0];
      DigitsAreDecimal(front);
      ValueSnoc(front, last);
      DecimalSnoc(DecimalValue(front), last);
    } else {
      ValueOfOne(last);
    }
  }

  lemma ValueSnoc(front: string, last: char)
    requires AllDigits(front) && IsDigit(last)
    ensures AllDigits(front + [last]) && DecimalValue(front + [last]) == 10 * DecimalValue(front) + DigitValue(last)
  {
    assert (front + [last])[..|front|] == front;
  }

  lemma ValueOfOne(digit: char)
    requires IsDigit(digit)
    ensures DecimalValue([digit]) == DigitValue(digit) && Decimal(DigitValue(digit)) == [digit]
  {
    assert [digit][..0] == "";
  }

  lemma DecimalSnoc(n: nat, last: char)
    requires n > 0 && IsDigit(last)
    ensures Decimal(10 * n + DigitValue(last)) == Decimal(n) + [last]
  {
    var whole := 10 * n + DigitValue(last);
    assert whole / 10 == n && whole % 10 == DigitValue(last);
  }

  lemma OctetExactly(s: string)
    ensures IsOctet(s) <==> exists n: nat :: n < 256 && s == Decimal(n)
  {
    if IsOctet(s) {
      DigitsAreDecimal(s);
    }
    if n: nat :| n < 256 && s == Decimal(n) {
      DecimalDigits(n);
      if n >= 10 {
        DecimalDigits(n / 10);
        if n >= 100 { DecimalDigits(n / 10 / 10); }
      }
    }
  }

  // ---------------------------------------------------------------- IPv6 literals

  predicate HexGroups(groups: seq<string>) {
    forall i :: 0 <= i < |groups| ==> IsHexGroup(groups[i])
  }

  /** Groups with colons between them, or nothing. */
  function Colons(groups: seq<string>): string {
    if groups == [] then "" else Join(groups, ':')
  }

  lemma HexGroupsExactly(s: string)
    ensures IsHexGroup(s) <==> 1 <= |s| <= 4 && forall i :: 0 <= i < |s| ==>
      '0' <= s[i] <= '9' || 'a' <= s[i] <= 'f' || 'A' <= s[i] <= 'F'
  {
  }

  lemma {:induction false} SplitJoin(parts: seq<string>, c: char)
    requires |parts| >= 1 && forall i :: 0 <= i < |parts| ==> c !in parts[i]
    ensures Split(Join(parts, c), c) == parts
  {
    hide Split;
    SplitNone(parts[0], c);
    if |parts| > 1 {
      SplitJoin(parts[1..], c);
      SplitConcat(parts[0], Join(parts[1..], c), c);
      assert parts == [parts[0]] + parts[1..];
    } else {
      assert parts == [parts[0]];
    }
  }

  lemma GroupsSplit(groups: seq<string>)
    requires HexGroups(groups) && groups != []
    ensures Split(Join(groups, ':'), ':') == groups
  {
    hide Split, Join;
    forall i | 0 <= i < |groups| ensures ':' !in groups[i] { }
    SplitJoin(groups, ':');
  }

  /** Hex groups never run two colons together, nor start or end with one. */
  lemma GroupsHoldNoElision(groups: seq<string>)
    requires HexGroups(groups) && groups != []
    ensures var s := Join(groups, ':'); s != "" && s[0] != ':' && s[|s| - 1] != ':' && forall k: nat :: !OccursAt(s, "::", k)
  {
    hide Split, IsHexGroup;
    var s := Join(groups, ':');
    GroupsSplit(groups);
    NoEmptyGroup(groups);
    EmptySplits();
    ColonAtAnEnd(s);
    forall k: nat ensures !OccursAt(s, "::", k) {
      ElisionGivesEmpty(s, k);
    }
  }

  lemma EmptySplits()
    ensures Split("", ':') == [""]
  {
  }

  lemma ColonAtAnEnd(s: string)
    ensures s != "" && (s[0] == ':' || s[|s| - 1] == ':') ==> "" in Split(s, ':')
  {
    hide Split;
    EmptySplits();
    if s != "" && s[0] == ':' {
      SplitConcat("", s[1..], ':');
      assert s == "" + [':'] + s[1..];
      assert Split(s, ':')[0] == "";
    } else if s != "" && s[|s| - 1] == ':' {
      SplitConcat(s[..|s| - 1], "", ':');
      assert s == s[..|s| - 1] + [':'] + "";
      assert Split(s, ':')[|Split(s, ':')| - 1] == "";
    }
  }

  lemma NoEmptyGroup(groups: seq<string>)
    requires HexGroups(groups)
    ensures "" !in groups
  {
  }

  lemma ElisionGivesEmpty(s: string, k: nat)
    ensures OccursAt(s, "::", k) ==> "" in Split(s, ':')
  {
    hide Split;
    if OccursAt(s, "::", k) {
      var back := s[k + 2..];
      assert s[k..k + 2] == "::";
      assert s == s[..k] + [':'] + ("" + [':'] + back);
      SplitConcat(s[..k], "" + [':'] + back, ':');
      SplitConcat("", back, ':');
      EmptySplits();
      var front := Split(s[..k], ':');
      assert Split(s, ':')[|front|] == "";
    }
  }

  lemma WidthOfGroups(groups: seq<string>)
    requires HexGroups(groups)
    ensures GroupWidth(Colons(groups)) == Some(|groups|)
  {
    hide Split, Join, IsHexGroup;
    if groups != [] {
      GroupsSplit(groups);
      GroupsHoldNoElision(groups);
    }
  }

  /** Written out in full, an IPv6 literal has exactly eight groups. */
  lemma FullIpv6(groups: seq<string>)
    requires HexGroups(groups) && groups != []
    ensures IsIpv6(Colons(groups)) <==> |groups| == 8
  {
    hide Join, GroupWidth, IsHexGroup, FindSub;
    GroupsHoldNoElision(groups);
    FindSubNone(Colons(groups), "::");
    WidthOfGroups(groups);
  }

  /** With a double colon it has at most seven, on both sides together. */
  lemma ElidedIpv6(left: seq<string>, right: seq<string>)
    requires HexGroups(left) && HexGroups(right)
    ensures IsIpv6(Colons(left) + "::" + Colons(right)) <==> |left| + |right| <= 7
  {
    hide Join, GroupWidth, IsHexGroup, FindSub, Split;
    var front, back := Colons(left), Colons(right);
    var s := front + "::" + back;
    FirstElision(left, back);
    WidthOfGroups(left);
    WidthOfGroups(right);
    assert s[..|front|] == front && s[|front| + 2..] == back;
    if left != [] { GroupsSplit(left); }
  }

  lemma FirstElision(left: seq<string>, back: string)
    requires HexGroups(left)
    ensures FindSub(Colons(left) + "::" + back, "::") == Some(|Colons(left)|)
  {
    hide Join, IsHexGroup, FindSub;
    var front := Colons(left);
    var s := front + "::" + back;
    assert s[|front|..|front| + 2] == "::";
    if left != [] { GroupsHoldNoElision(left); }
    forall k: nat | k < |front| ensures !OccursAt(s, "::", k) {
      assert s[k] == front[k];
      assert k + 1 < |front| ==> s[k + 1] == front[k + 1] && !OccursAt(front, "::", k);
      TwoColons(s, k);
      TwoColonsIn(front, k);
    }
    FindSubUnique(s, "::", |front|);
  }

  lemma TwoColons(s: string, k: nat)
    ensures OccursAt(s, "::", k) ==> k + 1 < |s| && s[k] == ':' && s[k + 1] == ':'
  {
    if OccursAt(s, "::", k) { assert s[k..k + 2][0] == s[k] && s[k..k + 2][1] == s[k + 1]; }
  }

  lemma TwoColonsIn(s: string, k: nat)
    ensures k + 1 < |s| && s[k] == ':' && s[k + 1] == ':' ==> OccursAt(s, "::", k)
  {
    if k + 1 < |s| && s[k] == ':' && s[k + 1] == ':' { assert s[k..k + 2] == "::"; }
  }

  // ---------------------------------------------------------------- which names are used, and as what

  /** A name that can stand in an address at all. */
  predicate Writable(name: string) {
    && name != ""
    && (forall k :: 0 <= k < |name| ==> name[k] !in {'/', '@', '?', '#'} && !IsWhitespace(name[k]))
    && IsAuthority(name)
  }

  /** A discovered name is used exactly when, trimmed, it can be written and the rule admits it,
      and then as itself: behind the configured scheme, with its own port or the configured one.
      One that cannot be written is malformed whatever the rule, and one that can is elsewhere. */
  lemma UsedExactlyWhen(configured: string, host: string, rule: HeavyHosts)
    ensures var name := Trim(host);
      HeavyBase(configured, host, rule) ==
        if !Writable(name) then Err(Malformed)
        else if !Admits(rule, configured, name) then Err(Elsewhere)
        else Ok((if "https://" <= configured then "https://" else "http://") + name
          + if PortOf(name).None? && PortOf(configured).Some? then ":" + PortOf(configured).value else "")
  {
    hide Admits, IsAuthority, Trim, AuthorityOf, PortText, IsWhitespace, FindSub;
    var name := Trim(host);
    if Writable(name) {
      assert IsClean(name);
      CleanIsAuthority(name);
      if HasPort(name) { PortIsAPort(name); }
    }
  }

  /** What each rule admits, on the hosts' labels and ports. */
  lemma AdmitsExactlyWhen(rule: HeavyHosts, configured: string, discovered: string)
    ensures var own, name := HostOf(configured), HostOf(discovered);
      Admits(rule, configured, discovered) <==>
        match rule
        case Anywhere => true
        case SameDomain => SharesDomain(own, name)
        case Under(domains, _) => SharesDomain(own, name) || exists d :: d in domains && IsSuffix(Labels(d), Labels(Lower(name)))
        case Only(names) => exists listed :: listed in names && Lower(HostOf(Trim(listed))) == Lower(name) && !PortsDiffer(Trim(listed), discovered)
  {
    hide HostOf, PortOf, SharesDomain, Lower, Trim, IsSuffix, Labels, UnderSuffix;
    var name := HostOf(discovered);
    match rule
    case Under(domains, _) =>
      forall d | d in domains ensures UnderDomain(d, name) <==> IsSuffix(Labels(d), Labels(Lower(name))) {
        SuffixIsLabels(d, Lower(name));
      }
      if d :| d in domains && IsSuffix(Labels(d), Labels(Lower(name))) {
        var i :| 0 <= i < |domains| && domains[i] == d;
        assert UnderDomain(domains[i], name);
      }
    case Only(names) =>
      if listed :| listed in names && Lower(HostOf(Trim(listed))) == Lower(name) && !PortsDiffer(Trim(listed), discovered) {
        var i :| 0 <= i < |names| && names[i] == listed;
        assert SameName(names[i], discovered);
      }
    case _ =>
  }

  predicate PortsDiffer(one: string, other: string) {
    PortOf(one).Some? && PortOf(other).Some? && PortOf(one) != PortOf(other)
  }

  // ---------------------------------------------------------------- domains written by hand

  predicate AllOf(s: string, c: char) {
    forall k :: 0 <= k < |s| ==> s[k] == c
  }

  lemma {:induction false} TrimLeftAll(run: string, c: char, rest: string)
    requires AllOf(run, c) && (rest != "" ==> rest[0] != c)
    ensures TrimLeft(run + rest, c) == rest
  {
    if run == "" {
      assert run + rest == rest;
    } else {
      assert (run + rest)[1..] == run[1..] + rest;
      TrimLeftAll(run[1..], c, rest);
    }
  }

  lemma {:induction false} TrimRightAll(rest: string, run: string, c: char)
    requires AllOf(run, c) && (rest != "" ==> rest[|rest| - 1] != c)
    ensures TrimRight(rest + run, c) == rest
  {
    if run == "" {
      assert rest + run == rest;
    } else {
      var whole := rest + run;
      assert whole[..|whole| - 1] == rest + run[..|run| - 1];
      TrimRightAll(rest, run[..|run| - 1], c);
    }
  }

  /** A domain as it is kept: stars, then dots, are taken off its front and dots off its end. */
  lemma DomainIsBared(written: string, stars: string, dots: string, domain: string, more: string)
    requires HostOf(Trim(written)) == stars + (dots + (domain + more))
    requires AllOf(stars, '*') && AllOf(dots, '.') && AllOf(more, '.')
    requires domain != "" && domain[0] !in {'.', '*'} && domain[|domain| - 1] != '.'
    ensures Normalised(written) == Lower(domain)
  {
    hide HostOf, Trim, TrimLeft, TrimRight, Lower;
    var behind := domain + more;
    assert behind[0] == domain[0];
    assert (dots + behind)[0] == if dots == "" then domain[0] else dots[0];
    TrimLeftAll(stars, '*', dots + behind);
    TrimLeftAll(dots, '.', behind);
    TrimRightAll(domain, more, '.');
  }

  /** A domain somebody would write: no delimiter, bracket or space in it, and a letter or a digit
      at either end. */
  predicate OrdinaryDomain(domain: string) {
    && PlainHost(domain) && (forall k :: 0 <= k < |domain| ==> !IsWhitespace(domain[k]))
    && domain[0] !in {'.', '*'} && domain[|domain| - 1] != '.'
  }

  /** `*.foo.net`, `.foo.net`, `foo.net.`, `https://foo.net./` and `foo.net:443` are all kept as
      `foo.net`, in lower case. */
  lemma SpellingsOfADomain(domain: string)
    requires OrdinaryDomain(domain)
    ensures Normalised(domain) == Lower(domain)
    ensures Normalised("*." + domain) == Lower(domain)
    ensures Normalised("." + domain) == Lower(domain)
    ensures Normalised(domain + ".") == Lower(domain)
    ensures Normalised("https://" + domain + "./") == Lower(domain)
    ensures Normalised(domain + ":443") == Lower(domain)
  {
    hide Normalised, Lower;
    SpellingIs(domain, None, "", "", "", None, "");
    SpellingIs(domain, None, "*", ".", "", None, "");
    SpellingIs(domain, None, "", ".", "", None, "");
    SpellingIs(domain, None, "", "", ".", None, "");
    SpellingIs(domain, Some("https"), "", "", ".", None, "/");
    SpellingIs(domain, None, "", "", "", Some("443"), "");
    assert domain == Spelling(domain, None, "", "", "", None, "");
    assert "*." + domain == Spelling(domain, None, "*", ".", "", None, "");
    assert "." + domain == Spelling(domain, None, "", ".", "", None, "");
    assert domain + "." == Spelling(domain, None, "", "", ".", None, "");
    assert "https://" + domain + "./" == Spelling(domain, Some("https"), "", "", ".", None, "/");
    assert domain + ":443" == Spelling(domain, None, "", "", "", Some("443"), "");
  }

  function Spelling(domain: string, scheme: Option<string>, stars: string, dots: string, more: string, port: Option<string>, tail: string): string {
    Address(scheme, None, stars + (dots + (domain + more)), port, tail)
  }

  lemma SpellingIs(domain: string, scheme: Option<string>, stars: string, dots: string, more: string, port: Option<string>, tail: string)
    requires OrdinaryDomain(domain) && stars in {"", "*"} && dots in {"", "."} && more in {"", "."}
    requires scheme in {None, Some("https")} && port in {None, Some("443")} && tail in {"", "/"}
    ensures Normalised(Spelling(domain, scheme, stars, dots, more, port, tail)) == Lower(domain)
  {
    hide Normalised, Lower, Trim, FindSub, HostOf, PortOf;
    var host := stars + (dots + (domain + more));
    var written := Spelling(domain, scheme, stars, dots, more, port, tail);
    SpellingIsPlain(domain, stars, dots, more);
    SpellingIsTrimmed(domain, scheme, stars, dots, more, port, tail);
    SpellingHasNoMark(host, port, tail);
    NameReadsBack(scheme, None, host, port, tail);
    DomainIsBared(written, stars, dots, domain, more);
  }

  lemma SpellingIsPlain(domain: string, stars: string, dots: string, more: string)
    requires OrdinaryDomain(domain) && stars in {"", "*"} && dots in {"", "."} && more in {"", "."}
    ensures PlainHost(stars + (dots + (domain + more)))
    ensures var host := stars + (dots + (domain + more)); forall k :: 0 <= k < |host| ==> !IsWhitespace(host[k])
    ensures AllOf(stars, '*') && AllOf(dots, '.') && AllOf(more, '.')
  {
  }

  lemma SpellingIsTrimmed(domain: string, scheme: Option<string>, stars: string, dots: string, more: string, port: Option<string>, tail: string)
    requires OrdinaryDomain(domain) && stars in {"", "*"} && dots in {"", "."} && more in {"", "."}
    requires scheme in {None, Some("https")} && port in {None, Some("443")} && tail in {"", "/"}
    ensures var written := Spelling(domain, scheme, stars, dots, more, port, tail); Trim(written) == written
  {
    hide Trim, OrdinaryDomain, PlainHost;
    var host := stars + (dots + (domain + more));
    SpellingIsPlain(domain, stars, dots, more);
    NotEmpty(host);
    var front := if scheme.Some? then "https://" else "";
    var back := (if port.Some? then ":443" else "") + tail;
    OrdinaryEnds();
    assert back != "" ==> back[|back| - 1] == if tail == "/" then '/' else '3';
    FlushIsTrimmed(front, host, back);
    assert Spelling(domain, scheme, stars, dots, more, port, tail) == front + (host + back) by {
      SpellingText(host, scheme, port, tail);
    }
  }

  lemma NotEmpty(host: string)
    requires PlainHost(host)
    ensures host != ""
  {
  }

  lemma SpellingText(host: string, scheme: Option<string>, port: Option<string>, tail: string)
    requires scheme in {None, Some("https")} && port in {None, Some("443")}
    ensures Address(scheme, None, host, port, tail) ==
      (if scheme.Some? then "https://" else "") + (host + ((if port.Some? then ":443" else "") + tail))
  {
    var after := if port.Some? then ":443" else "";
    assert "" + (host + after) == host + after;
    assert (host + after) + tail == host + (after + tail);
  }

  lemma FlushIsTrimmed(front: string, host: string, back: string)
    requires host != "" && !IsWhitespace(host[0]) && !IsWhitespace(host[|host| - 1])
    requires (front != "" ==> !IsWhitespace(front[0])) && (back != "" ==> !IsWhitespace(back[|back| - 1]))
    ensures Trim(front + (host + back)) == front + (host + back)
  {
    hide Trim, IsWhitespace;
    var whole := front + (host + back);
    assert whole[0] == if front == "" then host[0] else front[0];
    assert whole[|whole| - 1] == if back == "" then host[|host| - 1] else back[|back| - 1];
    TrimFixes(whole);
  }

  lemma OrdinaryEnds()
    ensures !IsWhitespace('h') && !IsWhitespace('3') && !IsWhitespace('/')
  {
  }

  lemma SpellingHasNoMark(host: string, port: Option<string>, tail: string)
    requires PlainHost(host) && port in {None, Some("443")} && tail in {"", "/"}
    ensures FindSub(AuthorityText(None, host, port) + tail, "://").None?
    ensures port.Some? ==> IsPort(port.value)
  {
    hide FindSub;
    var text := AuthorityText(None, host, port) + tail;
    forall k: nat ensures !OccursAt(text, "://", k) {
      assert !(k + 2 < |text| && text[k] == ':' && text[k + 1] == '/');
      MarkShape(text, k);
    }
    FindSubNone(text, "://");
  }

  lemma MarkShape(s: string, k: nat)
    ensures OccursAt(s, "://", k) ==> k + 2 < |s| && s[k] == ':' && s[k + 1] == '/'
  {
    if OccursAt(s, "://", k) {
      var mark := s[k..k + 3];
      assert mark[0] == s[k] && mark[1] == s[k + 1];
    }
  }

  lemma FindSubNone(s: string, sub: string)
    requires forall k: nat :: !OccursAt(s, sub, k)
    ensures FindSub(s, sub).None?
  {
  }
}
