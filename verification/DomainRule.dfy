/** The domain rule on discovered names, restated on label lists. */
module DomainRule {
  import opened Text
  import opened HostNames

  function Labels(name: string): seq<string> {
    Split(name, '.')
  }

  predicate IsSuffix(tail: seq<string>, labels: seq<string>) {
    |tail| <= |labels| && labels[|labels| - |tail|..] == tail
  }

  /** The labels a dotted configured name shares with what it admits: all but the leftmost,
      and all of them when only two are left. */
  function SharedLabels(labels: seq<string>): seq<string> {
    if |labels| >= 3 then labels[1..] else labels
  }

  lemma SuffixGivesLabels(domain: string, name: string)
    requires UnderSuffix(domain, name)
    ensures IsSuffix(Labels(domain), Labels(name))
  {
    hide Split;
    if name != domain {
      var head := name[..|name| - |domain| - 1];
      assert name[|head|..] == "." + domain;
      assert name == head + ['.'] + domain;
      SplitConcat(head, domain, '.');
      assert Labels(name)[|Split(head, '.')|..] == Labels(domain);
    }
  }

  lemma LabelsGiveSuffix(domain: string, name: string)
    requires IsSuffix(Labels(domain), Labels(name))
    ensures UnderSuffix(domain, name)
  {
    hide Split, Join;
    JoinSplit(name, '.');
    JoinSplit(domain, '.');
    var head := Labels(name)[..|Labels(name)| - |Labels(domain)|];
    assert Labels(name) == head + Labels(domain);
    if head != [] {
      JoinConcat(head, Labels(domain), '.');
      assert name[|Join(head, '.')|..] == ['.'] + domain;
    }
  }

  /** Ending with a dot and a domain is having the domain's labels as the last labels. */
  lemma SuffixIsLabels(domain: string, name: string)
    ensures UnderSuffix(domain, name) <==> IsSuffix(Labels(domain), Labels(name))
  {
    hide UnderSuffix, IsSuffix;
    if UnderSuffix(domain, name) { SuffixGivesLabels(domain, name); }
    if IsSuffix(Labels(domain), Labels(name)) { LabelsGiveSuffix(domain, name); }
  }

  lemma {:induction false} SplitHead(name: string, c: char)
    ensures var i := IndexOfAny(name, {c});
      if i == |name| then Split(name, c) == [name]
      else Split(name, c) == [name[..i]] + Split(name[i + 1..], c)
  {
    var i := IndexOfAny(name, {c});
    if i == |name| {
      SplitNone(name, c);
    } else {
      SplitConcat(name[..i], name[i + 1..], c);
      SplitNone(name[..i], c);
      assert name == name[..i] + [c] + name[i + 1..];
    }
  }

  /** The shared domain of a dotted name, label by label; a dotless one has none. */
  lemma SharedDomainLabels(configured: string)
    ensures SharedDomain(configured).None? <==> '.' !in configured
    ensures SharedDomain(configured).Some? ==>
      Labels(SharedDomain(configured).value) == SharedLabels(Labels(configured))
  {
    SplitHead(configured, '.');
    var i := IndexOfAny(configured, {'.'});
    if i < |configured| {
      SplitNone(configured[i + 1..], '.');
      assert Labels(configured)[1..] == Labels(configured[i + 1..]);
    }
  }

  lemma InTail(labels: seq<string>, x: string)
    requires |labels| >= 1
    ensures x in labels[1..] <==> exists i :: 1 <= i < |labels| && labels[i] == x
  {
    if i :| 1 <= i < |labels| && labels[i] == x { assert labels[1..][i - 1] == x; }
  }

  /** The rule on two host names: equal but for case; or neither is an IP literal and the
      discovered name's last labels are the configured one's shared labels, where a dotless
      configured name instead stands among the labels other than the leftmost. */
  lemma DomainRuleIsOnLabels(configured: string, discovered: string)
    ensures var own, name := Lower(configured), Lower(discovered);
      SharesDomain(configured, discovered) <==>
        || own == name
        || (&& !IsIp(own) && !IsIp(name)
            && if '.' in own then IsSuffix(SharedLabels(Labels(own)), Labels(name))
               else exists i :: 1 <= i < |Labels(name)| && Labels(name)[i] == own)
  {
    hide IsIp, Split, SharedDomain, UnderSuffix;
    var own, name := Lower(configured), Lower(discovered);
    SharedDomainLabels(own);
    if SharedDomain(own).Some? {
      SuffixIsLabels(SharedDomain(own).value, name);
    } else {
      InTail(Labels(name), own);
    }
  }

  /** The last two labels of a name that has a dot. */
  function LastTwo(name: string): (r: seq<string>)
    requires '.' in name
    ensures |r| == 2
  {
    SplitNone(name, '.');
    Labels(name)[|Labels(name)| - 2..]
  }

  /** A discovered name that ends in the configured name's last two labels, both real ones. */
  predicate EndsInRealDomain(configured: string, discovered: string)
    requires '.' in configured
  {
    IsSuffix(LastTwo(configured), Labels(discovered)) && "" !in LastTwo(configured)
  }

  /** Every other name the rule admits is in the configured name's own two-label domain. */
  ghost predicate StaysInDomain(configured: string)
    requires '.' in Lower(configured)
  {
    forall discovered: string :: SharesDomain(configured, discovered) && Lower(discovered) != Lower(configured)
      ==> EndsInRealDomain(Lower(configured), Lower(discovered))
  }

  /** What is shared ends in the configured name's last two labels. */
  lemma SharedEndsInLastTwo(own: string)
    requires '.' in own
    ensures IsSuffix(LastTwo(own), SharedLabels(Labels(own)))
  {
    hide Split;
    SplitNone(own, '.');
    assert LastTwo(own) == Labels(own)[|Labels(own)| - 2..];
  }

  lemma SuffixOfSuffix(a: seq<string>, b: seq<string>, c: seq<string>)
    requires IsSuffix(a, b) && IsSuffix(b, c)
    ensures IsSuffix(a, c)
  {
    assert a == b[|b| - |a|..] && b == c[|c| - |b|..];
    assert c[|c| - |a|..] == a;
  }

  /** A name one label under what a dotted name shares is admitted. */
  lemma NeighbourIsAdmitted(own: string, first: string)
    requires Lower(own) == own && '.' in own && !IsIp(own)
    requires first in {"x", "y"}
    ensures var name := first + "." + SharedDomain(own).value;
      Lower(name) == name && SharesDomain(own, name) && name[0] == first[0]
  {
    hide IsIp, Lower;
    SharedIsLower(own);
    var domain := SharedDomain(own).value;
    hide SharedDomain;
    var name := first + "." + domain;
    LowerUnder(first, domain);
    WordIsNoIp(name);
    assert EndsWith(name, "." + domain) by { assert name[1..] == "." + domain; }
  }

  lemma LowerUnder(first: string, domain: string)
    requires first in {"x", "y"} && forall i :: 0 <= i < |domain| ==> LowerChar(domain[i]) == domain[i]
    ensures Lower(first + "." + domain) == first + "." + domain
  {
    var name := first + "." + domain;
    assert name[0] == first[0] && name[1] == '.';
    assert forall i :: 2 <= i < |name| ==> name[i] == domain[i - 2];
  }

  lemma SharedIsLower(own: string)
    requires Lower(own) == own && '.' in own
    ensures SharedDomain(own).Some?
    ensures var domain := SharedDomain(own).value; forall i :: 0 <= i < |domain| ==> LowerChar(domain[i]) == domain[i]
  {
    var n := IndexOfAny(own, {'.'});
    assert forall i :: 0 <= i < |own| ==> LowerChar(own[i]) == Lower(own)[i] == own[i];
  }

  /** For every dotted configured name that is no IP literal: the rule keeps to the name's own
      domain of two real labels exactly when its last two labels are not empty. */
  lemma StaysInDomainExactlyWhen(configured: string)
    requires var own := Lower(configured); '.' in own && !IsIp(own)
    ensures StaysInDomain(configured) <==> "" !in LastTwo(Lower(configured))
  {
    hide Split, IsIp, SharesDomain, SharedLabels, LastTwo;
    var own := Lower(configured);
    LowerTwice(configured);
    SharedDomainLabels(own);
    SharedEndsInLastTwo(own);
    forall discovered: string | SharesDomain(configured, discovered) && Lower(discovered) != own
      ensures IsSuffix(LastTwo(own), Labels(Lower(discovered)))
    {
      DomainRuleIsOnLabels(configured, discovered);
      SuffixOfSuffix(LastTwo(own), SharedLabels(Labels(own)), Labels(Lower(discovered)));
    }
    NeighbourIsAdmitted(own, "x");
    NeighbourIsAdmitted(own, "y");
    var x, y := "x" + "." + SharedDomain(own).value, "y" + "." + SharedDomain(own).value;
    assert x[0] != y[0];
    SameRuleWhenLower(configured, x);
    SameRuleWhenLower(configured, y);
    assert x != own || y != own;
  }

  lemma SameRuleWhenLower(configured: string, discovered: string)
    ensures SharesDomain(Lower(configured), discovered) <==> SharesDomain(configured, discovered)
  {
    hide Lower;
    LowerTwice(configured);
  }

  /** With a trailing dot only one real label is shared: `example.net.` admits the host of another
      domain in `net.`. */
  lemma TrailingDotWidensTheRule()
    ensures SharedLabels(Labels("example.net.")) == ["net", ""]
    ensures SharesDomain("example.net.", "evil.net.")
  {
    hide IndexOfAny, Split, SharesDomain, IsIp, Lower;
    TwoDots("example", "net", "");
    TwoDots("evil", "net", "");
    assert "example.net." == "example" + ['.'] + ("net" + ['.'] + "");
    assert "evil.net." == "evil" + ['.'] + ("net" + ['.'] + "");
    OrdinaryName("example.net.");
    OrdinaryName("evil.net.");
    DomainRuleIsOnLabels("example.net.", "evil.net.");
  }

  /** Without it, that name is refused. */
  lemma NoTrailingDotKeepsTheRule()
    ensures !SharesDomain("example.net", "evil.net")
  {
    hide IndexOfAny, Split, SharesDomain, IsIp, Lower;
    OneDot("example", "net");
    OneDot("evil", "net");
    assert "example.net" == "example" + ['.'] + "net" && "evil.net" == "evil" + ['.'] + "net";
    OrdinaryName("example.net");
    OrdinaryName("evil.net");
    DomainRuleIsOnLabels("example.net", "evil.net");
  }

  lemma OrdinaryName(name: string)
    requires name != "" && name[0] == 'e' && ':' !in name
    requires forall i :: 0 <= i < |name| ==> !('A' <= name[i] <= 'Z')
    ensures Lower(name) == name && !IsIp(name)
  {
    hide IsIp;
    LowerAlready(name);
    WordIsNoIp(name);
  }

  lemma LowerAlready(name: string)
    requires forall i :: 0 <= i < |name| ==> !('A' <= name[i] <= 'Z')
    ensures Lower(name) == name
  {
  }

  lemma FirstPiece(s: string, c: char)
    requires s != "" && s[0] != c
    ensures Split(s, c)[0] != "" && Split(s, c)[0][0] == s[0]
  {
  }

  /** A name that starts with a letter no address starts with is no address. */
  lemma WordIsNoIp(s: string)
    requires s != "" && !IsDigit(s[0]) && s[0] != '.' && s[0] != ':'
    requires ':' !in s || !IsHexDigit(s[0])
    ensures !IsIp(s)
  {
    hide Split, FindSub, IsOctet;
    FirstPiece(s, '.');
    assert !IsOctet(Split(s, '.')[0]) by { NoOctet(Split(s, '.')[0]); }
    SplitNone(s, ':');
    if ':' !in s {
      LacksSub(s, "::", 0);
    } else {
      FirstPiece(s, ':');
      assert !IsHexGroup(Split(s, ':')[0]);
      if FindSub(s, "::").Some? {
        var i := FindSub(s, "::").value;
        assert s[i] == ':' by { assert s[i..i + 2][0] == s[i]; }
        FirstPiece(s[..i], ':');
      }
    }
  }

  lemma NoOctet(s: string)
    requires s != "" && !IsDigit(s[0])
    ensures !IsOctet(s)
  {
  }

  lemma OneDot(a: string, b: string)
    requires '.' !in a && '.' !in b
    ensures Labels(a + ['.'] + b) == [a, b]
  {
    SplitConcat(a, b, '.');
    SplitNone(a, '.');
    SplitNone(b, '.');
  }

  lemma TwoDots(a: string, b: string, c: string)
    requires '.' !in a && '.' !in b && '.' !in c
    ensures Labels(a + ['.'] + (b + ['.'] + c)) == [a, b, c]
  {
    SplitConcat(a, b + ['.'] + c, '.');
    SplitConcat(b, c, '.');
    SplitNone(a, '.');
    SplitNone(b, '.');
    SplitNone(c, '.');
  }

  /** The rules nest: the default admits no more than any list of domains added to it, more
      domains admit no less, and nothing admits more than `Anywhere`. Adding no domain is the
      default rule. */
  lemma RulesNest(configured: string, discovered: string, fewer: seq<string>, more: seq<string>, ignored: seq<string>)
    requires forall d :: d in fewer ==> d in more
    ensures Admits(SameDomain, configured, discovered) ==> Admits(Under(fewer, ignored), configured, discovered)
    ensures Admits(Under(fewer, ignored), configured, discovered) ==> Admits(Under(more, ignored), configured, discovered)
    ensures Admits(Under(more, ignored), configured, discovered) ==> Admits(Anywhere, configured, discovered)
    ensures Admits(Under([], ignored), configured, discovered) <==> Admits(SameDomain, configured, discovered)
  {
    hide SharesDomain, UnderDomain, HostOf;
    var name := HostOf(discovered);
    if i :| 0 <= i < |fewer| && UnderDomain(fewer[i], name) {
      assert fewer[i] in more;
      var j :| 0 <= j < |more| && more[j] == fewer[i];
      assert UnderDomain(more[j], name);
    }
  }

  /** The nesting holds of the base URLs too: a wider rule never changes how a name is spelled,
      and a name that is malformed under one rule is malformed under every rule. */
  lemma WiderRuleSameSpelling(configured: string, host: string, narrow: HeavyHosts, wide: HeavyHosts)
    requires Admits(narrow, configured, Trim(host)) ==> Admits(wide, configured, Trim(host))
    ensures HeavyBase(configured, host, narrow).Ok? ==>
      HeavyBase(configured, host, wide) == HeavyBase(configured, host, narrow)
    ensures HeavyBase(configured, host, narrow) == Err(Malformed) <==> HeavyBase(configured, host, wide) == Err(Malformed)
  {
    hide Admits, IsAuthority, IsClean, PortOf, Trim;
  }
}
