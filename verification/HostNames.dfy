/** Which addresses out of a `/hosts` answer the client is willing to dial, and
    how it spells them. */
module HostNames {
  import opened Text

  // ---------------------------------------------------------------- IP literals

  predicate IsHexDigit(c: char) {
    IsDigit(c) || 'a' <= c <= 'f' || 'A' <= c <= 'F'
  }

  function DigitValue(c: char): nat
    requires IsDigit(c)
  {
    (c as int) - ('0' as int)
  }

  /** The number a run of decimal digits spells. */
  function DecimalValue(s: string): nat
    requires AllDigits(s)
  {
    if s == "" then 0 else 10 * DecimalValue(s[..|s| - 1]) + DigitValue(s[|s| - 1])
  }

  predicate IsOctet(s: string) {
    1 <= |s| <= 3 && AllDigits(s) && (|s| > 1 ==> s[0] != '0') && DecimalValue(s) <= 255
  }

  predicate IsIpv4(s: string) {
    var parts := Split(s, '.');
    |parts| == 4 && forall i :: 0 <= i < 4 ==> IsOctet(parts[i])
  }

  predicate IsHexGroup(s: string) {
    1 <= |s| <= 4 && forall i :: 0 <= i < |s| ==> IsHexDigit(s[i])
  }

  /** How many 16-bit groups a colon-separated run stands for; an IPv4 tail counts as two. */
  function GroupWidth(s: string): Option<nat> {
    if s == "" then Some(0)
    else
      var parts := Split(s, ':');
      var last := |parts| - 1;
      if exists i :: 0 <= i < last && !IsHexGroup(parts[i]) then None
      else if IsHexGroup(parts[last]) then Some(|parts|)
      else if IsIpv4(parts[last]) then Some(|parts| + 1)
      else None
  }

  /** The text forms of section 2.2 of RFC 4291, as the standard library parses them:
      an IPv4 tail never stands to the left of `::`, and `::` stands for at least one group. */
  predicate IsIpv6(s: string) {
    match FindSub(s, "::")
    case None => GroupWidth(s) == Some(8)
    case Some(i) =>
      var left, right := GroupWidth(s[..i]), GroupWidth(s[i + 2..]);
      left.Some? && right.Some? && left.value + right.value <= 7
      && (i > 0 ==> var parts := Split(s[..i], ':'); IsHexGroup(parts[|parts| - 1]))
  }

  predicate IsIp(s: string) {
    IsIpv4(s) || IsIpv6(s)
  }

  // ---------------------------------------------------------------- reading a base URL

  const UrlEnd: set<char> := {'/', '?', '#'}

  function AfterScheme(base: string): string {
    match FindSub(base, "://")
    case None => base
    case Some(i) => base[i + 3..]
  }

  function DropUserinfo(authority: string): string {
    match RSplitOnce(authority, '@')
    case None => authority
    case Some((_, host)) => host
  }

  function AuthorityOf(base: string): string {
    DropUserinfo(Before(AfterScheme(base), UrlEnd))
  }

  function HostOfAuthority(authority: string): string {
    if authority != "" && authority[0] == '[' then Before(authority[1..], {']'})
    else Before(authority, {':'})
  }

  function HostOf(base: string): string {
    HostOfAuthority(AuthorityOf(base))
  }

  predicate IsPort(port: string) {
    port != "" && AllDigits(port)
  }

  /** What follows the colon that would introduce a port, if there is such a colon. */
  function PortText(authority: string): Option<string> {
    match SplitOnce(authority, ']')
    case Some((_, rest)) => if rest != "" && rest[0] == ':' then Some(rest[1..]) else None
    case None =>
      match SplitOnce(authority, ':')
      case Some((_, port)) => Some(port)
      case None => None
  }

  function PortOfAuthority(authority: string): Option<string> {
    match PortText(authority)
    case Some(port) => if IsPort(port) then Some(port) else None
    case None => None
  }

  function PortOf(base: string): Option<string> {
    PortOfAuthority(AuthorityOf(base))
  }

  predicate HasPort(authority: string) {
    PortText(authority).Some?
  }

  // ---------------------------------------------------------------- which names are admitted

  /** The names `/hosts` gives back that one client will use. */
  datatype HeavyHosts =
    | SameDomain
    | Under(domains: seq<string>, ignored: seq<string>)
    | Anywhere
    | Only(names: seq<string>)

  /** The discovered name is the domain, or ends with a dot and the domain. */
  predicate UnderSuffix(domain: string, discovered: string) {
    discovered == domain || EndsWith(discovered, "." + domain)
  }

  /** The configured host less its leftmost label, never below two labels. */
  function SharedDomain(configured: string): Option<string> {
    match SplitOnce(configured, '.')
    case Some((_, parent)) => Some(if '.' in parent then parent else configured)
    case None => None
  }

  predicate SharesDomain(configured: string, discovered: string) {
    var own, name := Lower(configured), Lower(discovered);
    if own == name then true
    else if IsIp(own) || IsIp(name) then false
    else
      match SharedDomain(own)
      case Some(domain) => UnderSuffix(domain, name)
      case None => own in Split(name, '.')[1..]
  }

  predicate UnderDomain(domain: string, discovered: string) {
    UnderSuffix(domain, Lower(discovered))
  }

  predicate SameName(listed: string, discovered: string) {
    var listed := Trim(listed);
    && Lower(HostOf(listed)) == Lower(HostOf(discovered))
    && (PortOf(listed).Some? && PortOf(discovered).Some? ==> PortOf(listed) == PortOf(discovered))
  }

  predicate Admits(rule: HeavyHosts, configured: string, discovered: string) {
    match rule
    case SameDomain => SharesDomain(HostOf(configured), HostOf(discovered))
    case Under(domains, _) =>
      || SharesDomain(HostOf(configured), HostOf(discovered))
      || exists i :: 0 <= i < |domains| && UnderDomain(domains[i], HostOf(discovered))
    case Anywhere => true
    case Only(names) => exists i :: 0 <= i < |names| && SameName(names[i], discovered)
  }

  // ---------------------------------------------------------------- building the base URL

  datatype Declined = Malformed | Elsewhere

  predicate IsAuthority(host: string) {
    if host != "" && host[0] == '[' then
      match SplitOnce(host[1..], ']')
      case Some((literal, tail)) =>
        IsIpv6(literal) && (tail == "" || (tail[0] == ':' && IsPort(tail[1..])))
      case None => false
    else
      match SplitOnce(host, ':')
      case Some((name, port)) => name != "" && IsPort(port)
      case None => true
  }

  predicate IsClean(host: string) {
    && host != ""
    && '/' !in host && '@' !in host && '?' !in host && '#' !in host
    && (forall i :: 0 <= i < |host| ==> !IsWhitespace(host[i]))
  }

  function SchemeOf(configured: string): string {
    if "https://" <= configured then "https://" else "http://"
  }

  function HeavyBase(configured: string, host: string, rule: HeavyHosts): Result<string, Declined> {
    var host := Trim(host);
    if !IsClean(host) || FindSub(host, "://").Some? || !IsAuthority(host) then Err(Malformed)
    else if !Admits(rule, configured, host) then Err(Elsewhere)
    else
      Ok(SchemeOf(configured) + host +
         match (HasPort(host), PortOf(configured))
         case (false, Some(port)) => ":" + port
         case _ => "")
  }

  // ---------------------------------------------------------------- reading the answer back

  /** An unbracketed name with a `]` that something other than a port follows. */
  predicate HasStrayBracket(host: string) {
    && host != "" && host[0] != '['
    && match SplitOnce(host, ']')
       case None => false
       case Some((_, rest)) => rest != "" && rest[0] != ':'
  }

  lemma StartsWithColon(s: string, k: nat)
    ensures OccursAt(s, "://", k) ==> k < |s| && s[k] == ':'
  {
    if OccursAt(s, "://", k) { assert s[k..k + 3][0] == s[k]; }
  }

  /** A scheme and anything free of delimiters read back as what was written. */
  lemma ReadBack(configured: string, rest: string)
    requires forall i :: 0 <= i < |rest| ==> rest[i] !in {'/', '?', '#', '@'}
    ensures AuthorityOf(SchemeOf(configured) + rest) == rest
  {
    var scheme := SchemeOf(configured);
    var whole := scheme + rest;
    var i := |scheme| - 3;
    assert whole[i..i + 3] == "://";
    forall k: nat | k < i ensures !OccursAt(whole, "://", k) {
      assert whole[k] == scheme[k] && scheme[k] != ':';
      StartsWithColon(whole, k);
    }
    FindSubUnique(whole, "://", i);
    assert AfterScheme(whole) == rest;
  }

  /** A clean name is its own authority. */
  lemma CleanIsAuthority(name: string)
    requires IsClean(name)
    ensures AuthorityOf(name) == name && FindSub(name, "://").None?
  {
    LacksSub(name, "://", 1);
    assert Before(name, UrlEnd) == name;
  }

  lemma IndexAppend(s: string, t: string, stops: set<char>)
    ensures IndexOfAny(s, stops) < |s| ==> IndexOfAny(s + t, stops) == IndexOfAny(s, stops)
    ensures IndexOfAny(s, stops) == |s| ==> IndexOfAny(s + t, stops) == |s| + IndexOfAny(t, stops)
  {
    var i, j, k := IndexOfAny(s, stops), IndexOfAny(s + t, stops), IndexOfAny(t, stops);
    if i < |s| {
      assert (s + t)[i] in stops;
      assert forall n :: 0 <= n < i ==> (s + t)[n] !in stops;
    } else {
      assert forall n :: 0 <= n < |s| ==> (s + t)[n] !in stops;
      assert forall n :: |s| <= n < |s| + k ==> (s + t)[n] == t[n - |s|];
      assert k < |t| ==> (s + t)[|s| + k] in stops;
    }
  }

  /** Appending a port keeps the host that stands before it. */
  lemma AppendKeepsHost(host: string, tail: string)
    requires IsAuthority(host) && host != "" && tail != "" && tail[0] == ':'
    ensures HostOfAuthority(host + tail) == HostOfAuthority(host)
  {
    hide IsIpv6;
    if host[0] == '[' {
      assert (host + tail)[1..] == host[1..] + tail;
      IndexAppend(host[1..], tail, {']'});
    } else {
      IndexAppend(host, tail, {':'});
    }
  }

  /** Appending a port to an authority without port text gives it that port, unless a stray
      bracket stands before the colon. */
  lemma AppendGivesPort(host: string, port: string)
    requires IsAuthority(host) && host != "" && !HasPort(host) && IsPort(port)
    ensures PortOfAuthority(host + (":" + port)) == if HasStrayBracket(host) then None else Some(port)
  {
    hide IsIpv6, IsIpv4;
    if ']' in host {
      AppendPastBracket(host, ":" + port);
      if host[0] == '[' { BracketIndex(host); }
      assert (":" + port)[1..] == port;
    } else {
      AppendFirstColon(host, port);
    }
  }

  /** Past a `]`, appending reads as what stood after it and then the addition. */
  lemma AppendPastBracket(host: string, tail: string)
    requires ']' in host
    ensures SplitOnce(host, ']').Some?
    ensures SplitOnce(host + tail, ']') == Some((SplitOnce(host, ']').value.0, SplitOnce(host, ']').value.1 + tail))
  {
    IndexAppend(host, tail, {']'});
    var i := IndexOfAny(host, {']'});
    assert (host + tail)[i + 1..] == host[i + 1..] + tail;
    assert (host + tail)[..i] == host[..i];
  }

  lemma AppendFirstColon(host: string, port: string)
    requires ']' !in host && ':' !in host && AllDigits(port)
    ensures PortText(host + (":" + port)) == Some(port)
  {
    var whole := host + (":" + port);
    IndexAppend(host, ":" + port, {']'});
    IndexAppend(host, ":" + port, {':'});
    assert whole[|host| + 1..] == port;
  }

  /** The first `]` of a bracketed name, counted from either end of its opening bracket. */
  lemma BracketIndex(host: string)
    requires host != "" && host[0] == '['
    ensures IndexOfAny(host, {']'}) == 1 + IndexOfAny(host[1..], {']'})
    ensures IndexOfAny(host, {']'}) < |host| ==>
      host[IndexOfAny(host, {']'}) + 1..] == host[1..][IndexOfAny(host[1..], {']'}) + 1..]
  {}

  /** In an accepted name, whatever stands where a port would is a port, and then no stray
      bracket stands before it. */
  lemma PortIsAPort(host: string)
    requires IsAuthority(host) && host != "" && HasPort(host)
    ensures PortOfAuthority(host).Some? && !HasStrayBracket(host)
  {
    var i := IndexOfAny(host, {']'});
    if host[0] == '[' {
      BracketIndex(host);
    } else if i < |host| {
      var j := IndexOfAny(host, {':'});
      assert host[i + 1..][0] == host[i + 1];
      assert j > i;
      assert host[j + 1..] == host[i + 1..][1..];
    }
  }

  /** The scheme a built URL carries is the configured one. */
  lemma SchemeReadsBack(configured: string, rest: string)
    ensures SchemeOf(SchemeOf(configured) + rest) == SchemeOf(configured)
  {
    if SchemeOf(configured) == "http://" {
      assert ("http://" + rest)[4] == ':';
    }
  }

  predicate Accepted(configured: string, host: string, rule: HeavyHosts) {
    HeavyBase(configured, host, rule).Ok?
  }

  lemma AcceptedShape(configured: string, host: string, rule: HeavyHosts)
    requires Accepted(configured, host, rule)
    ensures IsClean(Trim(host)) && IsAuthority(Trim(host)) && Admits(rule, configured, Trim(host))
    ensures HeavyBase(configured, host, rule).value ==
      if !HasPort(Trim(host)) && PortOf(configured).Some?
      then SchemeOf(configured) + (Trim(host) + (":" + PortOf(configured).value))
      else SchemeOf(configured) + Trim(host)
  {
    hide Admits, IsAuthority, Trim, PortOf, HasPort;
    var name := Trim(host);
    if !HasPort(name) && PortOf(configured).Some? {
      var tail := ":" + PortOf(configured).value;
      assert (SchemeOf(configured) + name) + tail == SchemeOf(configured) + (name + tail);
    } else {
      assert (SchemeOf(configured) + name) + "" == SchemeOf(configured) + name;
    }
  }

  /** An address built for a configured one speaks TLS exactly when that does, and plain HTTP
      otherwise: no answer can downgrade a client. */
  lemma KeepsTheScheme(configured: string, host: string, rule: HeavyHosts)
    requires Accepted(configured, host, rule)
    ensures var base := HeavyBase(configured, host, rule).value;
      && ("https://" <= base <==> "https://" <= configured)
      && (!("https://" <= configured) ==> "http://" <= base)
  {
    hide HeavyBase, Admits, IsAuthority, Trim, PortOf, HasPort;
    AcceptedShape(configured, host, rule);
    var base := HeavyBase(configured, host, rule).value;
    if !("https://" <= configured) { assert base[4] == ':'; }
  }

  /** What the client accepted it spelled so that reading the URL gives back the configured
      scheme and the name's own host. The port reads back as the name's, or else the configured
      one, exactly when no stray bracket hides a configured port. */
  lemma HeavyBaseReadsBack(configured: string, host: string, rule: HeavyHosts)
    requires Accepted(configured, host, rule)
    ensures var base := HeavyBase(configured, host, rule).value; var name := Trim(host);
      && SchemeOf(base) == SchemeOf(configured)
      && ("https://" <= base <==> "https://" <= configured) && (!("https://" <= base) ==> "http://" <= base)
      && HostOf(base) == HostOf(name)
      && (PortOf(base) == (if PortOf(name).Some? then PortOf(name) else PortOf(configured))
          <==> !(HasStrayBracket(name) && PortOf(configured).Some?))
  {
    hide HeavyBase, Admits, IsAuthority, Trim, HostOfAuthority, PortText, HasStrayBracket, AuthorityOf;
    var base, name := HeavyBase(configured, host, rule).value, Trim(host);
    AcceptedShape(configured, host, rule);
    KeepsTheScheme(configured, host, rule);
    CleanIsAuthority(name);
    if !HasPort(name) && PortOf(configured).Some? {
      var tail := ":" + PortOf(configured).value;
      ReadBack(configured, name + tail);
      SchemeReadsBack(configured, name + tail);
      AppendKeepsHost(name, tail);
      AppendGivesPort(name, PortOf(configured).value);
    } else {
      ReadBack(configured, name);
      SchemeReadsBack(configured, name);
      if HasPort(name) { PortIsAPort(name); }
    }
  }

  /** A bare name, with no colon, slash or other delimiter in it. */
  predicate IsBareName(name: string) {
    && IsClean(name) && name[0] != '[' && ':' !in name
  }

  lemma BareNameHasNoPort(name: string)
    requires IsBareName(name)
    ensures PortText(name).None? && IsAuthority(name)
  {
    hide IsIpv6;
    var i := IndexOfAny(name, {']'});
    if i < |name| && name[i + 1..] != "" { assert name[i + 1..][0] in name; }
  }

  lemma BareNameIsAccepted(configured: string, name: string)
    requires IsBareName(name) && ']' in name
    ensures Accepted(configured, name, Anywhere) && Trim(name) == name
    ensures PortOf(name).None? && !HasPort(name)
  {
    hide IsIpv6, Trim, FindSub, AuthorityOf, SchemeOf, IndexOfAny;
    BareNameHasNoPort(name);
    TrimFixes(name);
    CleanIsAuthority(name);
  }

  lemma ConfiguredPort(host: string, port: string)
    requires host != "" && host[0] != '[' && ':' !in host && ']' !in host && IsPort(port)
    requires forall i :: 0 <= i < |host| ==> host[i] !in {'/', '?', '#', '@'}
    ensures PortOf("http://" + (host + (":" + port))) == Some(port)
  {
    hide HostOfAuthority, IsAuthority, PortText;
    ReadBack("http://", host + (":" + port));
    AppendFirstColon(host, port);
  }

  /** `foo]bar` is accepted, and the configured port cannot be read back out of the result. */
  lemma StrayBracketLosesThePort()
    ensures var configured := "http://c:80";
      && Accepted(configured, "foo]bar", Anywhere)
      && PortOf("foo]bar").None? && PortOf(configured) == Some("80")
      && PortOf(HeavyBase(configured, "foo]bar", Anywhere).value) != Some("80")
  {
    hide HeavyBase, Accepted, PortOf, IsIpv6, SchemeOf, HostOf, FindSub, Trim, IsAuthority, IndexOfAny, Admits;
    var configured, name := "http://c:80", "foo]bar";
    assert IsBareName(name) && name[3] == ']';
    BareNameIsAccepted(configured, name);
    assert PortOf(configured) == Some("80") by {
      assert configured == "http://" + ("c" + (":" + "80"));
      ConfiguredPort("c", "80");
    }
    assert name[4..] == "bar";
    assert HasStrayBracket(name);
    HeavyBaseReadsBack("http://c:80", "foo]bar", Anywhere);
  }
}
