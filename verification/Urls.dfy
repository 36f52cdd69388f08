/** The URL algebra redirects are judged by, against RFC 3986. */
module Urls {
  import opened Text
  import opened HostNames

  const SchemeMark: string := "://"

  predicate IsSchemeChar(c: char) {
    IsAlpha(c) || IsDigit(c) || c == '+' || c == '-' || c == '.'
  }

  /** The scheme of section 3.1 of RFC 3986. */
  predicate IsSchemeName(s: string) {
    s != "" && IsAlpha(s[0]) && forall i :: 0 <= i < |s| ==> IsSchemeChar(s[i])
  }

  predicate HasScheme(url: string) {
    var colon := IndexOfAny(url, {':'});
    colon < |url| && IsSchemeName(url[..colon])
  }

  predicate StartsWith(s: string, c: char) {
    s != "" && s[0] == c
  }

  /** `rsplit_once('/')`'s head, or nothing. */
  function Directory(path: string): string {
    match LastIndexOf(path, '/') case Some(i) => path[..i] case None => ""
  }

  function Resolve(request: string, reference: string): Option<string> {
    var location := Trim(reference);
    if location == "" then None
    else if HasScheme(location) then Some(location)
    else
      match FindSub(request, SchemeMark)
      case None => None
      case Some(i) =>
        var scheme, rest := request[..i], request[i + 3..];
        var end := IndexOfAny(rest, UrlEnd);
        var authority, target := rest[..end], rest[end..];
        if authority == "" then None
        else if "//" <= location then Some(scheme + SchemeMark + location[2..])
        else Some(scheme + SchemeMark + (authority + Tail(target, location)))
  }

  /** What stands behind the authority when a reference has none of its own. */
  function Tail(target: string, location: string): string
    requires location != ""
  {
    var base := Before(target, {'#'});
    var path := Before(base, {'?'});
    if location[0] == '/' then location
    else if location[0] == '#' then base + location
    else if location[0] == '?' then path + location
    else Directory(path) + "/" + location
  }

  // ---------------------------------------------------------------- origins

  function PortValue(given: string): Option<nat>
    requires AllDigits(given)
  {
    if DecimalValue(given) <= 65535 then Some(DecimalValue(given)) else None
  }

  function DefaultPort(scheme: string): Option<nat> {
    if scheme == "http" then Some(80) else if scheme == "https" then Some(443) else None
  }

  datatype Origin = Origin(scheme: string, host: string, port: nat)

  /** The origin of `scheme://host_port/…`, from its parts. */
  function OriginOfParts(scheme: string, hostPort: string): Option<Origin> {
    match DefaultPort(Lower(scheme))
    case None => None
    case Some(default) =>
      var split := RSplitOnce(hostPort, ':');
      if split.Some? && IsPort(split.value.1) then
        match PortValue(split.value.1)
        case None => None
        case Some(port) => NamedOrigin(scheme, split.value.0, port)
      else NamedOrigin(scheme, hostPort, default)
  }

  function NamedOrigin(scheme: string, host: string, port: nat): Option<Origin> {
    if host == "" then None else Some(Origin(Lower(scheme), Lower(host), port))
  }

  function OriginOf(url: string): Option<Origin> {
    match FindSub(url, SchemeMark)
    case None => None
    case Some(i) => OriginOfParts(url[..i], DropUserinfo(Before(url[i + 3..], UrlEnd)))
  }

  predicate SameOrigin(one: string, other: string) {
    OriginOf(one).Some? && OriginOf(one) == OriginOf(other)
  }

  /** Sharing an origin is an equivalence on the URLs that have one, and nothing else shares. */
  lemma SameOriginIsEquivalence(a: string, b: string, c: string)
    ensures SameOrigin(a, a) <==> OriginOf(a).Some?
    ensures SameOrigin(a, b) ==> SameOrigin(b, a)
    ensures SameOrigin(a, b) && SameOrigin(b, c) ==> SameOrigin(a, c)
  {
    hide OriginOf;
  }

  // ---------------------------------------------------------------- a relative reference stays put

  lemma OccursInPrefix(s: string, t: string, sub: string, n: nat, k: nat)
    requires n <= |s| && n <= |t| && s[..n] == t[..n] && k + |sub| <= n
    ensures OccursAt(s, sub, k) <==> OccursAt(t, sub, k)
  {
    assert s[k..k + |sub|] == s[..n][k..k + |sub|];
    assert t[k..k + |sub|] == t[..n][k..k + |sub|];
  }

  lemma OccursFits(s: string, sub: string, i: nat)
    requires OccursAt(s, sub, i)
    ensures i + |sub| <= |s|
  {
  }

  /** The first occurrence depends only on the text up to its end. */
  lemma FindSubInPrefix(s: string, t: string, sub: string, i: nat)
    requires FindSub(s, sub) == Some(i) && i + |sub| <= |t| && s[..i + |sub|] == t[..i + |sub|]
    ensures FindSub(t, sub) == Some(i)
  {
    hide *;
    OccursFits(s, sub, i);
    forall k: nat | k <= i ensures OccursAt(s, sub, k) <==> OccursAt(t, sub, k) {
      OccursInPrefix(s, t, sub, i + |sub|, k);
    }
    FindSubUnique(t, sub, i);
  }

  /** A scheme, the mark and the rest, cut apart again. */
  lemma Uncut(scheme: string, rest: string)
    ensures var url := scheme + SchemeMark + rest;
      && url[..|scheme|] == scheme && url[|scheme| + 3..] == rest
      && url[..|scheme| + 3] == scheme + SchemeMark
  {
  }

  /** What can follow an authority: nothing, or something a path, query or fragment starts with. */
  predicate EndsAuthority(tail: string) {
    tail == "" || tail[0] in UrlEnd
  }

  lemma BeforeTail(authority: string, tail: string)
    requires (forall k :: 0 <= k < |authority| ==> authority[k] !in UrlEnd) && EndsAuthority(tail)
    ensures Before(authority + tail, UrlEnd) == authority
    ensures IndexOfAny(authority + tail, UrlEnd) == |authority|
  {
    IndexAppend(authority, tail, UrlEnd);
    assert (authority + tail)[..|authority|] == authority;
  }

  /** A URL cut at its scheme mark and its authority. */
  lemma Cut(request: string, i: nat)
    requires FindSub(request, SchemeMark) == Some(i)
    ensures var rest := request[i + 3..]; var end := IndexOfAny(rest, UrlEnd);
      && request == request[..i] + SchemeMark + (rest[..end] + rest[end..])
      && (forall k :: 0 <= k < end ==> rest[..end][k] !in UrlEnd)
      && EndsAuthority(rest[end..])
  {
    hide FindSub, IndexOfAny;
    var rest := request[i + 3..];
    assert request[i..i + 3] == SchemeMark;
    assert request == request[..i] + request[i..i + 3] + rest;
    assert rest == rest[..IndexOfAny(rest, UrlEnd)] + rest[IndexOfAny(rest, UrlEnd)..];
  }

  lemma SameAuthoritySameOrigin(scheme: string, authority: string, tail: string, other: string)
    requires FindSub(scheme + SchemeMark + (authority + tail), SchemeMark) == Some(|scheme|)
    requires forall k :: 0 <= k < |authority| ==> authority[k] !in UrlEnd
    requires EndsAuthority(tail) && EndsAuthority(other)
    ensures OriginOf(scheme + SchemeMark + (authority + tail)) == OriginOf(scheme + SchemeMark + (authority + other))
  {
    hide OriginOfParts, DropUserinfo, Before, FindSub;
    Uncut(scheme, authority + tail);
    Uncut(scheme, authority + other);
    FindSubInPrefix(scheme + SchemeMark + (authority + tail), scheme + SchemeMark + (authority + other), SchemeMark, |scheme|);
    BeforeTail(authority, tail);
    BeforeTail(authority, other);
  }

  /** The tail of a relative reference starts like a path, query or fragment. */
  lemma TailEndsAuthority(target: string, location: string)
    requires EndsAuthority(target) && location != ""
    ensures EndsAuthority(Tail(target, location))
  {
    var base := Before(target, {'#'});
    var path := Before(base, {'?'});
    assert base != "" ==> base[0] == target[0];
    assert path != "" ==> path[0] == '/';
    var directory := Directory(path);
    assert directory != "" ==> directory[0] == '/';
  }

  /** A redirect to a reference without a scheme or an authority keeps the request's origin,
      whatever the reference says. */
  lemma RelativeKeepsOrigin(request: string, reference: string)
    requires OriginOf(request).Some?
    requires var location := Trim(reference); location != "" && !HasScheme(location) && !("//" <= location)
    ensures Resolve(request, reference).Some? && SameOrigin(request, Resolve(request, reference).value)
  {
    hide HasScheme, Trim, OriginOf, Tail, FindSub, EndsAuthority;
    var location := Trim(reference);
    NoMarkNoOrigin(request);
    var i := FindSub(request, SchemeMark).value;
    var scheme, rest := request[..i], request[i + 3..];
    var end := IndexOfAny(rest, UrlEnd);
    Cut(request, i);
    EmptyAuthorityNoOrigin(request, i);
    TailEndsAuthority(rest[end..], location);
    SameAuthoritySameOrigin(scheme, rest[..end], rest[end..], Tail(rest[end..], location));
  }

  lemma NoMarkNoOrigin(url: string)
    requires OriginOf(url).Some?
    ensures FindSub(url, SchemeMark).Some?
  {
  }

  lemma EmptyAuthorityNoOrigin(url: string, i: nat)
    requires OriginOf(url).Some? && FindSub(url, SchemeMark) == Some(i)
    ensures Before(url[i + 3..], UrlEnd) != "" && DefaultPort(Lower(url[..i])).Some?
  {
    hide PortValue, FindSub;
  }

  // ---------------------------------------------------------------- what an origin is

  lemma SplitAtLast(front: string, c: char, back: string)
    requires c !in back
    ensures RSplitOnce(front + [c] + back, c) == Some((front, back))
  {
    var whole := front + [c] + back;
    assert whole[|front|] == c && whole[..|front|] == front && whole[|front| + 1..] == back;
    assert forall k :: |front| < k < |whole| ==> whole[k] == back[k - |front| - 1];
    var r := LastIndexOf(whole, c);
    assert r.Some? && r.value == |front|;
  }

  /** A host as it stands in an authority: a name without a colon, or a bracketed literal. */
  predicate IsHost(host: string) {
    && host != "" && (':' !in host || host[|host| - 1] == ']')
    && forall k :: 0 <= k < |host| ==> host[k] !in UrlEnd && host[k] != '@'
  }

  function AuthorityText(userinfo: Option<string>, host: string, port: Option<string>): string {
    (if userinfo.Some? then userinfo.value + "@" else "") + (host + if port.Some? then ":" + port.value else "")
  }

  lemma HostPortParts(scheme: string, host: string, port: Option<string>, default: nat)
    requires IsHost(host) && (port.Some? ==> IsPort(port.value)) && DefaultPort(Lower(scheme)) == Some(default)
    ensures OriginOfParts(scheme, host + if port.Some? then ":" + port.value else "") ==
      if port.Some? && DecimalValue(port.value) > 65535 then None
      else Some(Origin(Lower(scheme), Lower(host), if port.Some? then DecimalValue(port.value) else default))
  {
    hide Lower, DecimalValue, DefaultPort;
    if port.Some? {
      SplitAtLast(host, ':', port.value);
      assert host + (":" + port.value) == host + [':'] + port.value;
    } else {
      assert host + "" == host;
      var split := RSplitOnce(host, ':');
      if split.Some? && split.value.1 != "" {
        assert split.value.1[|split.value.1| - 1] == host[|host| - 1] == ']';
      }
    }
  }

  lemma AuthorityDropsUserinfo(userinfo: Option<string>, host: string, port: Option<string>)
    requires IsHost(host) && (port.Some? ==> IsPort(port.value))
    ensures DropUserinfo(AuthorityText(userinfo, host, port)) == host + if port.Some? then ":" + port.value else ""
  {
    var back := host + if port.Some? then ":" + port.value else "";
    assert forall k :: 0 <= k < |back| ==> back[k] != '@';
    if userinfo.Some? {
      SplitAtLast(userinfo.value, '@', back);
      assert AuthorityText(userinfo, host, port) == userinfo.value + ['@'] + back;
    } else {
      assert AuthorityText(userinfo, host, port) == back;
      assert RSplitOnce(back, '@').None?;
    }
  }

  /** A scheme that is spoken holds no colon, so the first mark is the one behind it. */
  lemma SchemeIsFirst(scheme: string, rest: string)
    requires DefaultPort(Lower(scheme)).Some?
    ensures FindSub(scheme + SchemeMark + rest, SchemeMark) == Some(|scheme|)
  {
    var url := scheme + SchemeMark + rest;
    Uncut(scheme, rest);
    assert OccursAt(url, SchemeMark, |scheme|);
    forall k: nat | k < |scheme| ensures !OccursAt(url, SchemeMark, k) {
      assert LowerChar(scheme[k]) == Lower(scheme)[k] != ':';
      if k + 3 <= |url| { assert url[k..k + 3][0] == url[k] == scheme[k]; }
    }
    FindSubUnique(url, SchemeMark, |scheme|);
  }

  lemma SpokenSchemes(scheme: string)
    ensures DefaultPort(scheme) == if scheme == "http" then Some(80) else if scheme == "https" then Some(443) else None
  {
  }

  /** A URL of a scheme this client does not speak has no origin, so nothing shares one with it. */
  lemma OtherSchemesHaveNone(scheme: string, rest: string)
    requires ':' !in scheme && Lower(scheme) !in {"http", "https"}
    ensures OriginOf(scheme + SchemeMark + rest).None?
  {
    hide Lower, OriginOfParts, FindSub;
    var url := scheme + SchemeMark + rest;
    Uncut(scheme, rest);
    assert OccursAt(url, SchemeMark, |scheme|);
    forall k: nat | k < |scheme| ensures !OccursAt(url, SchemeMark, k) {
      assert url[k] == scheme[k] && scheme[k] in scheme;
      StartsWithColon(url, k);
    }
    FindSubUnique(url, SchemeMark, |scheme|);
    UnspokenHasNone(scheme, DropUserinfo(Before(rest, UrlEnd)));
  }

  lemma UnspokenHasNone(scheme: string, hostPort: string)
    requires Lower(scheme) !in {"http", "https"}
    ensures OriginOfParts(scheme, hostPort).None?
  {
  }

  /** What has a scheme: a letter, then letters, digits, plus, minus and dots, up to the first
      colon (section 3.1 of RFC 3986). */
  lemma SchemeExactly(name: string, rest: string)
    requires ':' !in name
    ensures !HasScheme(name)
    ensures HasScheme(name + ":" + rest) <==>
      && name != "" && ('a' <= name[0] <= 'z' || 'A' <= name[0] <= 'Z')
      && forall k :: 0 <= k < |name| ==>
           'a' <= name[k] <= 'z' || 'A' <= name[k] <= 'Z' || '0' <= name[k] <= '9' || name[k] in {'+', '-', '.'}
  {
    var url := name + ":" + rest;
    assert url == name + (":" + rest);
    IndexAppend(name, ":" + rest, {':'});
    assert url[..|name|] == name;
  }

  /** A blank reference leads nowhere, and an absolute one to itself, whatever was requested. */
  lemma BlankOrAbsolute(request: string, reference: string)
    ensures Trim(reference) == "" ==> Resolve(request, reference).None?
    ensures Trim(reference) != "" && HasScheme(Trim(reference)) ==> Resolve(request, reference) == Some(Trim(reference))
  {
    hide HasScheme, Trim, FindSub;
  }

  /** The origin of a URL is its scheme and host in lower case and its port, or the scheme's own;
      whoever is named before an at sign and whatever follows the authority have no part in it.
      A port that does not fit 16 bits leaves no origin. */
  lemma OriginIsSchemeHostPort(scheme: string, userinfo: Option<string>, host: string, port: Option<string>, tail: string)
    requires Lower(scheme) in {"http", "https"} && IsHost(host) && EndsAuthority(tail)
    requires userinfo.Some? ==> forall k :: 0 <= k < |userinfo.value| ==> userinfo.value[k] !in UrlEnd
    requires port.Some? ==> IsPort(port.value)
    ensures OriginOf(scheme + SchemeMark + (AuthorityText(userinfo, host, port) + tail)) ==
      if port.Some? && DecimalValue(port.value) > 65535 then None
      else Some(Origin(Lower(scheme), Lower(host),
                       if port.Some? then DecimalValue(port.value) else if Lower(scheme) == "http" then 80 else 443))
  {
    SpokenSchemes(Lower(scheme));
    hide Lower, DecimalValue, DefaultPort, FindSub, OriginOfParts, DropUserinfo, Before, IndexOfAny;
    var authority := AuthorityText(userinfo, host, port);
    SchemeIsFirst(scheme, authority + tail);
    Uncut(scheme, authority + tail);
    BeforeTail(authority, tail);
    AuthorityDropsUserinfo(userinfo, host, port);
    HostPortParts(scheme, host, port, DefaultPort(Lower(scheme)).value);
  }

  // ---------------------------------------------------------------- RFC 3986, section 5

  datatype Reference = Reference(
    scheme: Option<string>, authority: Option<string>, path: string, query: Option<string>, fragment: Option<string>)

  /** The query that `s` opens with, and what stands behind it. */
  function TakeQuery(s: string): (Option<string>, string) {
    if StartsWith(s, '?') then (Some(Before(s[1..], {'#'})), s[1 + |Before(s[1..], {'#'})|..]) else (None, s)
  }

  /** The path, query and fragment of what stands behind an authority. */
  function ParseTail(scheme: Option<string>, authority: Option<string>, s: string): Reference {
    var path := Before(s, {'?', '#'});
    var (query, rest) := TakeQuery(s[|path|..]);
    Reference(scheme, authority, path, query, if StartsWith(rest, '#') then Some(rest[1..]) else None)
  }

  /** The five components of a reference, as the expression of appendix B takes them apart, with
      a scheme as section 3.1 spells it. */
  function Parse(s: string): Reference {
    var colon := IndexOfAny(s, {':'});
    var scheme := if HasScheme(s) then Some(s[..colon]) else None;
    var behind := if HasScheme(s) then s[colon + 1..] else s;
    if "//" <= behind then
      var authority := Before(behind[2..], UrlEnd);
      ParseTail(scheme, Some(authority), behind[2 + |authority|..])
    else ParseTail(scheme, None, behind)
  }

  function WithMark(part: Option<string>, before: string, after: string): string {
    match part case Some(text) => before + text + after case None => ""
  }

  function RecomposeTail(r: Reference): string {
    r.path + WithMark(r.query, "?", "") + WithMark(r.fragment, "#", "")
  }

  /** Section 5.3. */
  function Recompose(r: Reference): string {
    WithMark(r.scheme, "", ":") + WithMark(r.authority, "//", "") + RecomposeTail(r)
  }

  /** Section 5.2.3. */
  function Merge(base: Reference, path: string): string {
    if base.authority.Some? && base.path == "" then "/" + path
    else match LastIndexOf(base.path, '/') case Some(i) => base.path[..i + 1] + path case None => path
  }

  /** Section 5.2.2, without the removal of dot segments. */
  function Transform(base: Reference, r: Reference): Reference {
    if r.scheme.Some? then r
    else if r.authority.Some? then r.(scheme := base.scheme)
    else if r.path == "" then
      Reference(base.scheme, base.authority, base.path, if r.query.Some? then r.query else base.query, r.fragment)
    else
      Reference(base.scheme, base.authority, if StartsWith(r.path, '/') then r.path else Merge(base, r.path), r.query, r.fragment)
  }

  lemma {:induction false} Marked(s: string, mark: char, stops: set<char>)
    requires StartsWith(s, mark)
    ensures var inner := Before(s[1..], stops);
      && s == [mark] + inner + s[1 + |inner|..]
      && (s[1 + |inner|..] != "" ==> s[1 + |inner|..][0] in stops)
  {
    hide IndexOfAny;
    var n := IndexOfAny(s[1..], stops);
    assert s == [s[0]] + s[1..] && s[1..] == s[1..][..n] + s[1..][n..];
    assert s[1 + n..] == s[1..][n..];
  }

  lemma TakeQueryParts(s: string)
    requires s == "" || s[0] in {'?', '#'}
    ensures var (query, rest) := TakeQuery(s);
      s == WithMark(query, "?", "") + rest && (rest == "" || rest[0] == '#')
  {
    hide Before, IndexOfAny;
    if StartsWith(s, '?') { Marked(s, '?', {'#'}); }
  }

  lemma RecomposeParseTail(scheme: Option<string>, authority: Option<string>, s: string)
    ensures RecomposeTail(ParseTail(scheme, authority, s)) == s
  {
    hide Before, TakeQuery;
    var path := Before(s, {'?', '#'});
    BeforeIsPrefix(s, {'?', '#'});
    var (query, rest) := TakeQuery(s[|path|..]);
    TakeQueryParts(s[|path|..]);
    var fragment := if StartsWith(rest, '#') then Some(rest[1..]) else None;
    assert rest == WithMark(fragment, "#", "");
    hide WithMark;
    assert path + (WithMark(query, "?", "") + rest) == path + WithMark(query, "?", "") + rest;
  }

  lemma BeforeIsPrefix(s: string, stops: set<char>)
    ensures Before(s, stops) <= s && s == Before(s, stops) + s[|Before(s, stops)|..]
    ensures s[|Before(s, stops)|..] != "" ==> s[|Before(s, stops)|..][0] in stops
  {
    hide IndexOfAny;
  }

  /** Taking a reference apart and putting it together gives it back. */
  lemma RecomposeParse(s: string)
    ensures Recompose(Parse(s)) == s
  {
    hide ParseTail, Recompose, HasScheme, IndexOfAny, Before, WithMark;
    var colon := IndexOfAny(s, {':'});
    SchemeComesOff(s);
    if HasScheme(s) {
      ParseBehind(Some(s[..colon]), s[colon + 1..]);
    } else {
      ParseBehind(None, s);
    }
  }

  lemma SchemeComesOff(s: string)
    ensures var colon := IndexOfAny(s, {':'});
      if HasScheme(s) then colon < |s| && WithMark(Some(s[..colon]), "", ":") + s[colon + 1..] == s
      else WithMark(None, "", ":") + s == s
  {
    hide IsSchemeName, IndexOfAny;
    var colon := IndexOfAny(s, {':'});
    if colon < |s| { CutAtColon(s, colon); }
    assert "" + s == s;
  }

  lemma CutAtColon(s: string, i: nat)
    requires i < |s| && s[i] == ':'
    ensures "" + s[..i] + ":" + s[i + 1..] == s
  {
  }

  lemma ParseBehind(scheme: Option<string>, behind: string)
    ensures var r := if "//" <= behind
        then ParseTail(scheme, Some(Before(behind[2..], UrlEnd)), behind[2 + |Before(behind[2..], UrlEnd)|..])
        else ParseTail(scheme, None, behind);
      Recompose(r) == WithMark(scheme, "", ":") + behind
  {
    hide ParseTail, RecomposeTail, Before;
    if "//" <= behind {
      BeforeIsPrefix(behind[2..], UrlEnd);
      var authority := Before(behind[2..], UrlEnd);
      var tail := behind[2 + |authority|..];
      assert behind[2..][|authority|..] == tail;
      RecomposeParseTail(scheme, Some(authority), tail);
      TailParts(scheme, Some(authority), tail);
      assert behind == behind[..2] + behind[2..];
      assert behind == "//" + authority + tail;
    } else {
      RecomposeParseTail(scheme, None, behind);
      TailParts(scheme, None, behind);
    }
  }

  lemma TailParts(scheme: Option<string>, authority: Option<string>, s: string)
    ensures ParseTail(scheme, authority, s).scheme == scheme && ParseTail(scheme, authority, s).authority == authority
  {
  }

  // ---------------------------------------------------------------- resolving is section 5

  /** A request with an origin, parsed: an `http` scheme, an authority, and the rest. */
  lemma ParseRequest(request: string, i: nat)
    requires OriginOf(request).Some? && FindSub(request, SchemeMark) == Some(i)
    ensures var rest := request[i + 3..]; var end := IndexOfAny(rest, UrlEnd);
      Parse(request) == ParseTail(Some(request[..i]), Some(rest[..end]), rest[end..])
  {
    hide ParseTail, FindSub, OriginOf, IndexOfAny, DefaultPort;
    EmptyAuthorityNoOrigin(request, i);
    SchemeLetters(request[..i]);
    var rest := request[i + 3..];
    var end := IndexOfAny(rest, UrlEnd);
    assert request[i..i + 3] == SchemeMark && request[i] == request[i..i + 3][0];
    FirstColon(request, i);
    assert request[i + 1..][..2] == request[i..i + 3][1..];
    assert request[i + 1..][2..] == rest;
    assert request[i + 1..][2 + end..] == rest[end..];
  }

  lemma FirstColon(s: string, i: nat)
    requires i < |s| && s[i] == ':' && forall k :: 0 <= k < i ==> s[..i][k] != ':'
    ensures IndexOfAny(s, {':'}) == i
  {
    assert forall k :: 0 <= k < i ==> s[k] == s[..i][k];
  }

  /** A scheme the client knows is made of letters. */
  lemma SchemeLetters(scheme: string)
    requires DefaultPort(Lower(scheme)).Some?
    ensures IsSchemeName(scheme) && forall k :: 0 <= k < |scheme| ==> scheme[k] != ':'
  {
    forall k | 0 <= k < |scheme| ensures IsAlpha(scheme[k]) {
      assert 'a' <= Lower(scheme)[k] <= 'z';
      assert Lower(scheme)[k] == LowerChar(scheme[k]);
    }
  }

  /** What a tail without a scheme or an authority of its own resolves to. */
  lemma TailIsTransformed(scheme: string, authority: string, target: string, location: string)
    requires EndsAuthority(target) && location != "" && !HasScheme(location) && !("//" <= location)
    ensures var base := ParseTail(Some(scheme), Some(authority), target);
      Recompose(Transform(base, Parse(location))) == scheme + SchemeMark + (authority + Tail(target, location))
  {
    hide HasScheme, ParseTail, RecomposeTail, Tail, Transform, Parse, IndexOfAny, Before, WithMark;
    var base, r := ParseTail(Some(scheme), Some(authority), target), ParseTail(None, None, location);
    ParsesAsTail(location);
    TailParts(Some(scheme), Some(authority), target);
    TailParts(None, None, location);
    RecomposeParseTail(None, None, location);
    BaseIsRooted(Some(scheme), Some(authority), target);
    PathOfReference(location);
    TransformedTail(base, r, target, location);
    var t := Transform(base, r);
    KeepsAuthority(base, r);
    Grouping(scheme, authority, RecomposeTail(t));
  }

  lemma ParsesAsTail(location: string)
    requires !HasScheme(location) && !("//" <= location)
    ensures Parse(location) == ParseTail(None, None, location)
  {
    hide HasScheme, ParseTail;
  }

  lemma BaseIsRooted(scheme: Option<string>, authority: Option<string>, target: string)
    requires EndsAuthority(target)
    ensures var base := ParseTail(scheme, authority, target);
      && (base.path == "" || base.path[0] == '/')
      && Before(target, {'#'}) == base.path + WithMark(base.query, "?", "")
      && Before(Before(target, {'#'}), {'?'}) == base.path
  {
    BasePath(scheme, authority, target);
  }

  lemma KeepsAuthority(base: Reference, r: Reference)
    requires r.scheme.None? && r.authority.None?
    ensures Transform(base, r).scheme == base.scheme && Transform(base, r).authority == base.authority
  {
  }

  lemma Grouping(scheme: string, authority: string, tail: string)
    ensures WithMark(Some(scheme), "", ":") + WithMark(Some(authority), "//", "") + tail == scheme + SchemeMark + (authority + tail)
  {
  }

  /** The base's path and query are what `resolve` keeps of the request's target. */
  lemma BasePath(scheme: Option<string>, authority: Option<string>, target: string)
    ensures var base := ParseTail(scheme, authority, target); var kept := Before(target, {'#'});
      && kept == base.path + WithMark(base.query, "?", "")
      && Before(kept, {'?'}) == base.path
  {
    var path := Before(target, {'?', '#'});
    BeforeIsPrefix(target, {'?', '#'});
    var behind := target[|path|..];
    IndexAppend(path, behind, {'#'});
    assert IndexOfAny(path, {'#'}) == |path|;
    var (query, rest) := TakeQuery(behind);
    TakeQueryParts(behind);
    var n := IndexOfAny(behind, {'#'});
    QueryEnds(behind);
    assert Before(target, {'#'}) == path + behind[..n];
    IndexAppend(path, behind[..n], {'?'});
    assert IndexOfAny(path, {'?'}) == |path|;
    assert n > 0 ==> behind[..n][0] == '?';
    assert (path + behind[..n])[..|path|] == path;
  }

  lemma QueryEnds(s: string)
    requires s == "" || s[0] in {'?', '#'}
    ensures s[..IndexOfAny(s, {'#'})] == WithMark(TakeQuery(s).0, "?", "")
  {
    if StartsWith(s, '?') {
      assert IndexOfAny(s, {'#'}) == 1 + IndexOfAny(s[1..], {'#'});
      assert s[..1 + IndexOfAny(s[1..], {'#'})] == "?" + Before(s[1..], {'#'}) + "";
    }
  }

  /** A reference's path is empty exactly when it opens with its query or fragment. */
  lemma PathOfReference(location: string)
    requires location != ""
    ensures var r := ParseTail(None, None, location);
      && (r.path == "" <==> location[0] in {'?', '#'})
      && (r.path != "" ==> r.path[0] == location[0])
      && (location[0] == '#' ==> r.query.None?)
      && (location[0] == '?' ==> r.query.Some?)
  {
    var n := IndexOfAny(location, {'?', '#'});
    assert location[0..] == location;
  }

  lemma TransformedTail(base: Reference, r: Reference, target: string, location: string)
    requires location != "" && r.scheme.None? && r.authority.None? && base.authority.Some?
    requires RecomposeTail(r) == location
    requires Before(target, {'#'}) == base.path + WithMark(base.query, "?", "")
    requires Before(Before(target, {'#'}), {'?'}) == base.path
    requires (r.path == "" <==> location[0] in {'?', '#'}) && (r.path != "" ==> r.path[0] == location[0])
    requires (location[0] == '#' ==> r.query.None?) && (location[0] == '?' ==> r.query.Some?)
    requires base.path == "" || base.path[0] == '/'
    ensures RecomposeTail(Transform(base, r)) == Tail(target, location)
  {
    hide Before, Directory, Merge, WithMark;
    var query, fragment := WithMark(r.query, "?", ""), WithMark(r.fragment, "#", "");
    assert RecomposeTail(r) == r.path + query + fragment;
    if r.path == "" {
      PathlessTail(base, r, location);
    } else if location[0] != '/' {
      MergeIsDirectory(base, r.path);
      Glue4(Directory(base.path) + "/", r.path, query, fragment);
    }
  }

  lemma Glue4(a: string, b: string, c: string, d: string)
    ensures a + b + c + d == a + (b + c + d)
  {
  }

  lemma PathlessTail(base: Reference, r: Reference, location: string)
    requires r.path == "" && RecomposeTail(r) == location && location != ""
    requires (location[0] == '#' ==> r.query.None?) && (location[0] == '?' ==> r.query.Some?)
    requires location[0] in {'?', '#'}
    ensures base.path + WithMark(if r.query.Some? then r.query else base.query, "?", "") + WithMark(r.fragment, "#", "") ==
      if location[0] == '#' then base.path + WithMark(base.query, "?", "") + location else base.path + location
  {
    hide WithMark;
    var query, fragment := WithMark(r.query, "?", ""), WithMark(r.fragment, "#", "");
    assert location == query + fragment;
    if location[0] == '#' {
      assert query == "" by { NoMark("?", ""); }
      assert location == fragment;
    } else {
      assert base.path + query + fragment == base.path + (query + fragment);
    }
  }

  lemma NoMark(before: string, after: string)
    ensures WithMark(None, before, after) == ""
  {
  }

  lemma MergeIsDirectory(base: Reference, path: string)
    requires base.authority.Some? && (base.path == "" || base.path[0] == '/')
    ensures Merge(base, path) == Directory(base.path) + "/" + path
  {
    if base.path != "" {
      var i := LastIndexOf(base.path, '/').value;
      assert base.path[..i + 1] == base.path[..i] + "/";
    }
  }

  /** For every request with an origin and every reference that is not blank, the client resolves
      as section 5 of RFC 3986 does, save that dot segments stay. */
  lemma ResolveIsRfc3986(request: string, reference: string)
    requires OriginOf(request).Some? && Trim(reference) != ""
    ensures Resolve(request, reference) == Some(Recompose(Transform(Parse(request), Parse(Trim(reference)))))
  {
    hide Trim, OriginOf, Recompose, Transform, Parse, Tail, FindSub, HasScheme, IndexOfAny, ParseTail;
    var location := Trim(reference);
    RecomposeParse(location);
    SchemeOfParse(location);
    if HasScheme(location) {
      TransformAbsolute(Parse(request), Parse(location));
    } else {
      NoMarkNoOrigin(request);
      var i := FindSub(request, SchemeMark).value;
      var rest := request[i + 3..];
      var end := IndexOfAny(rest, UrlEnd);
      ParseRequest(request, i);
      EmptyAuthorityNoOrigin(request, i);
      Cut(request, i);
      if "//" <= location {
        TailParts(Some(request[..i]), Some(rest[..end]), rest[end..]);
        TransformNetwork(Parse(request), location, request[..i]);
      } else {
        TailIsTransformed(request[..i], rest[..end], rest[end..], location);
      }
    }
  }

  lemma SchemeOfParse(s: string)
    ensures Parse(s).scheme.Some? <==> HasScheme(s)
    ensures Parse(s).authority.Some? && !HasScheme(s) <==> "//" <= s && !HasScheme(s)
  {
    hide HasScheme, TakeQuery, Before;
  }

  lemma TransformAbsolute(base: Reference, r: Reference)
    requires r.scheme.Some?
    ensures Transform(base, r) == r
  {
  }

  lemma TransformNetwork(base: Reference, location: string, scheme: string)
    requires "//" <= location && !HasScheme(location) && base.scheme == Some(scheme)
    ensures Recompose(Transform(base, Parse(location))) == scheme + SchemeMark + location[2..]
  {
    hide HasScheme, Parse;
    RecomposeParse(location);
    SchemeOfParse(location);
    var r := Parse(location);
    var shown := WithMark(r.authority, "//", "") + RecomposeTail(r);
    assert location == shown by { assert "" + WithMark(r.authority, "//", "") + RecomposeTail(r) == shown; }
    assert shown == "//" + location[2..];
    assert WithMark(Some(scheme), "", ":") + WithMark(r.authority, "//", "") + RecomposeTail(r) == scheme + ":" + shown;
  }
}
