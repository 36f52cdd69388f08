/** Where a heavy command goes: one lookup cell, shared by every clone of a client, and the
    transports that read and write it. Times are nanoseconds on one monotone clock; the
    `/hosts` answer and the random word are what the network and the hasher gave. */
module Router {
  import opened Text
  import opened HostNames
  import opened Retrying
  import Failures

  type Instant = nat

  /** The last instant a 64-bit Unix clock can express. */
  const INSTANT_MAX: Instant := 0x7fff_ffff_ffff_ffff * 1_000_000_000 + 999_999_999

  const HOSTS_RETRY_AFTER: Duration := 10 * SECOND

  const HOST_LIST_REFRESH_INTERVAL: Duration := 60 * SECOND

  /** `checked_add`: none when no instant can express the end. */
  function CheckedAdd(at: Instant, wait: Duration): Option<Instant> {
    if at + wait <= INSTANT_MAX then Some(at + wait) else None
  }

  /** `elapsed`, which saturates at zero. */
  function Elapsed(since: Instant, now: Instant): Duration {
    if since <= now then now - since else 0
  }

  datatype HeavyProxy =
    | Unasked
    | Pool(hosts: seq<string>, fetched: Instant)
    | Configured(asked: Instant)
    | FellBack(until: Option<Instant>)
  {
    /** A pool is never kept empty, or picking from it would divide by zero. */
    predicate Valid() {
      Pool? ==> hosts != []
    }
  }

  datatype Destination = Discovered(address: string) | AtConfigured(address: string)

  datatype Lookup = Answered(names: seq<string>) | Failed(error: Failures.ClientError)

  /** What a transport brings to a decision. */
  datatype Settings = Settings(
    base: string, discovery: bool, rule: HeavyHosts, retryAfter: Duration, refresh: Duration)

  // ---------------------------------------------------------------- the decisions, on values

  /** The names this client will use out of one answer, as base URLs, in order. */
  function Usable(s: Settings, names: seq<string>): (r: seq<string>)
    ensures forall h :: h in r <==> exists n :: n in names && HeavyBase(s.base, n, s.rule) == Ok(h)
    ensures |r| <= |names|
  {
    hide HeavyBase;
    if names == [] then []
    else
      var rest := Usable(s, names[..|names| - 1]);
      var last := names[|names| - 1];
      assert names == names[..|names| - 1] + [last];
      match HeavyBase(s.base, last, s.rule)
      case Ok(base) => rest + [base]
      case Err(_) => rest
  }

  /** Whether a heavy command has to ask `/hosts` before it can be placed. */
  predicate Due(state: HeavyProxy, s: Settings, now: Instant) {
    match state
    case Unasked => true
    case Pool(_, fetched) => Elapsed(fetched, now) >= s.refresh
    case Configured(asked) => Elapsed(asked, now) >= s.refresh
    case FellBack(until) => until.Some? && now >= until.value
  }

  /** What an answer leaves behind. A pool survives an answer that names nobody usable. */
  function Settle(state: HeavyProxy, s: Settings, lookup: Lookup, at: Instant): HeavyProxy {
    match lookup
    case Answered(names) =>
      if Usable(s, names) != [] then Pool(Usable(s, names), at)
      else if state.Pool? then Pool(state.hosts, at)
      else Configured(at)
    case Failed(error) =>
      if state.Pool? then Pool(state.hosts, at)
      else if Failures.WorthAskingAgain(error) then FellBack(CheckedAdd(at, s.retryAfter))
      else Configured(at)
  }

  function Routed(state: HeavyProxy, s: Settings, asked: Instant, lookup: Lookup, settled: Instant): (r: HeavyProxy)
    ensures state.Valid() ==> r.Valid()
  {
    if Due(state, s, asked) then Settle(state, s, lookup, settled) else state
  }

  function Placed(state: HeavyProxy, s: Settings, word: nat): Destination
    requires state.Valid()
  {
    if state.Pool? then Discovered(state.hosts[word % |state.hosts|]) else AtConfigured(s.base)
  }

  /** The hosts other than `base`, in order: `retain`. */
  function Without(hosts: seq<string>, base: string): (r: seq<string>)
    ensures forall h :: h in r <==> h in hosts && h != base
    ensures base !in hosts ==> r == hosts
  {
    if hosts == [] then []
    else
      var rest := Without(hosts[..|hosts| - 1], base);
      assert hosts == hosts[..|hosts| - 1] + [hosts[|hosts| - 1]];
      if hosts[|hosts| - 1] == base then rest else rest + [hosts[|hosts| - 1]]
  }

  lemma WithoutOne(host: string, base: string)
    ensures Without([host], base) == if host == base then [] else [host]
  {
    WithoutSnoc([], host, base);
    assert [] + [host] == [host];
  }

  /** What is kept is kept in its place and as often: dropping goes piece by piece. */
  lemma {:induction false} WithoutIsRetain(front: seq<string>, back: seq<string>, base: string)
    ensures Without(front + back, base) == Without(front, base) + Without(back, base)
  {
    if back == [] {
      assert front + back == front;
    } else {
      var rest, last := back[..|back| - 1], back[|back| - 1];
      WithoutIsRetain(front, rest, base);
      Regroup(front, rest, last);
      RetainSnoc(front + rest, Without(front, base), Without(rest, base), rest, last, base);
      assert rest + [last] == back;
    }
  }

  lemma Regroup(a: seq<string>, b: seq<string>, last: string)
    ensures a + (b + [last]) == (a + b) + [last]
  {
  }

  lemma RetainSnoc(whole: seq<string>, kept: seq<string>, more: seq<string>, rest: seq<string>, last: string, base: string)
    requires Without(whole, base) == kept + more && more == Without(rest, base)
    ensures Without(whole + [last], base) == kept + Without(rest + [last], base)
  {
    hide Without;
    WithoutSnoc(whole, last, base);
    WithoutSnoc(rest, last, base);
    Regroup(kept, more, last);
  }

  /** What blaming a host leaves behind. */
  function Blamed(state: HeavyProxy, s: Settings, base: string, at: Instant): HeavyProxy {
    if !state.Pool? then state
    else if Without(state.hosts, base) != [] then Pool(Without(state.hosts, base), state.fetched)
    else FellBack(CheckedAdd(at, s.retryAfter))
  }

  /** Whether a finished command blames the host it went to. */
  predicate Blames(repeatable: Repeatable, s: Settings, destination: Destination, failure: Option<Failures.ClientError>) {
    && repeatable == Heavy && s.discovery && destination.Discovered?
    && failure.Some? && Failures.AttributableToTheHost(failure.value)
  }

  /** Dropping a host twice, or two hosts in either order, leaves the same pool: the second
      drop never evicts a neighbour. */
  lemma {:induction false} DropsCommute(hosts: seq<string>, a: string, b: string)
    ensures Without(Without(hosts, a), b) == Without(Without(hosts, b), a)
    ensures Without(Without(hosts, a), a) == Without(hosts, a)
  {
    if hosts != [] {
      var front, last := hosts[..|hosts| - 1], hosts[|hosts| - 1];
      DropsCommute(front, a, b);
      WithoutSnoc(Without(front, a), last, b);
      WithoutSnoc(Without(front, b), last, a);
    }
  }

  lemma WithoutSnoc(hosts: seq<string>, last: string, base: string)
    ensures Without(hosts + [last], base) == if last == base then Without(hosts, base) else Without(hosts, base) + [last]
  {
    assert (hosts + [last])[..|hosts|] == hosts;
  }

  // ---------------------------------------------------------------- the decisions, spelled out

  function Deadline(at: Instant, wait: Duration): Option<Instant> {
    if at + wait <= INSTANT_MAX then Some(at + wait) else None
  }

  ghost predicate SomeUsable(conf: Settings, lookup: Lookup) {
    lookup.Answered? && exists n :: n in lookup.names && HeavyBase(conf.base, n, conf.rule).Ok?
  }

  /** When a cell is asked for again: the first time; when what it holds is as old as the asker
      lets it grow; when a rest is over. */
  predicate AsksAgain(state: HeavyProxy, refresh: Duration, asked: Instant) {
    match state
    case Unasked => true
    case Pool(_, since) => since + refresh <= asked || refresh == 0
    case Configured(since) => since + refresh <= asked || refresh == 0
    case FellBack(until) => until.Some? && until.value <= asked
  }

  lemma DueSpelledOut(state: HeavyProxy, s: Settings, asked: Instant)
    ensures Due(state, s, asked) <==> AsksAgain(state, s.refresh, asked)
  {
  }

  /** What a lookup leaves. A usable name: a new pool. None, over a pool: that pool, as of now. No
      pool: a rest, after a failure that is about the address, and otherwise the configured one. */
  ghost function LeftBy(state: HeavyProxy, s: Settings, lookup: Lookup, at: Instant): HeavyProxy {
    if SomeUsable(s, lookup) then Pool(Usable(s, lookup.names), at)
    else if state.Pool? then Pool(state.hosts, at)
    else if lookup.Failed? && Failures.WrongAddress(lookup.error) then FellBack(Deadline(at, s.retryAfter))
    else Configured(at)
  }

  lemma UsableIsSome(conf: Settings, lookup: Lookup)
    requires lookup.Answered?
    ensures Usable(conf, lookup.names) != [] <==> SomeUsable(conf, lookup)
  {
    hide HeavyBase;
    var usable := Usable(conf, lookup.names);
    if usable != [] { assert usable[0] in usable; }
    if n :| n in lookup.names && HeavyBase(conf.base, n, conf.rule).Ok? {
      assert HeavyBase(conf.base, n, conf.rule).value in usable;
    }
  }

  lemma FailedIsUnusable(conf: Settings, lookup: Lookup)
    requires lookup.Failed?
    ensures !SomeUsable(conf, lookup)
  {
  }

  lemma SettleSpelledOut(state: HeavyProxy, s: Settings, lookup: Lookup, at: Instant)
    ensures Settle(state, s, lookup, at) == LeftBy(state, s, lookup, at)
  {
    hide Usable, SomeUsable, Failures.WrongAddress, Failures.WorthAskingAgain;
    match lookup
    case Answered(names) => UsableIsSome(s, lookup);
    case Failed(error) =>
      FailedIsUnusable(s, lookup);
      Failures.QuestionsExactly(error);
  }

  /** The whole placing of a command, in these words. */
  lemma RoutedSpelledOut(state: HeavyProxy, s: Settings, asked: Instant, lookup: Lookup, settled: Instant)
    ensures Due(state, s, asked) <==> AsksAgain(state, s.refresh, asked)
    ensures Routed(state, s, asked, lookup, settled) == if AsksAgain(state, s.refresh, asked) then LeftBy(state, s, lookup, settled) else state
    ensures Declines(state, s, lookup) <==> state.Unasked? && lookup.Answered? && lookup.names != [] && !SomeUsable(s, lookup)
  {
    hide Usable, SomeUsable, Due, Settle, LeftBy, AsksAgain;
    DueSpelledOut(state, s, asked);
    SettleSpelledOut(state, s, lookup, settled);
    if lookup.Answered? { UsableIsSome(s, lookup); }
  }

  /** The failures that cost a host its place: every one of the transport's, and every one another
      proxy might not give. */
  ghost predicate IsTheHosts(failure: Option<Failures.ClientError>) {
    failure.Some? && (failure.value.Transport? || Failures.WrongAddress(failure.value))
  }

  /** And what a finished command leaves of a cell. */
  ghost function LeftAfter(state: HeavyProxy, s: Settings, repeatable: Repeatable, destination: Destination,
                           failure: Option<Failures.ClientError>, at: Instant): HeavyProxy
  {
    if repeatable != Heavy || !s.discovery || !destination.Discovered? || !IsTheHosts(failure) || !state.Pool? then state
    else
      var left := Without(state.hosts, destination.address);
      if left == [] then FellBack(Deadline(at, s.retryAfter)) else Pool(left, state.fetched)
  }

  lemma BlamedSpelledOut(state: HeavyProxy, s: Settings, repeatable: Repeatable, destination: Destination,
                         failure: Option<Failures.ClientError>, at: Instant)
    ensures LeftAfter(state, s, repeatable, destination, failure, at) ==
      if Blames(repeatable, s, destination, failure) then Blamed(state, s, destination.address, at) else state
  {
    hide Without, Failures.WrongAddress, Failures.AttributableToTheHost;
    if failure.Some? { Failures.QuestionsExactly(failure.value); }
  }

  // ---------------------------------------------------------------- the shared cell

  class HeavyCell {
    var state: HeavyProxy

    constructor ()
      ensures state == Unasked
    {
      state := Unasked;
    }
  }

  // ---------------------------------------------------------------- one transport

  class Transport {
    const base: string
    var heavy: HeavyCell
    var discovery: bool
    var hosts: HeavyHosts
    var hostsRetryAfter: Duration
    var hostListRefresh: Duration

    function Conf(): Settings
      reads this
    {
      Settings(base, discovery, hosts, hostsRetryAfter, hostListRefresh)
    }

    constructor (base: string, local: bool)
      ensures fresh(heavy) && heavy.state == Unasked
      ensures Conf() == Settings(base, !local, SameDomain, HOSTS_RETRY_AFTER, HOST_LIST_REFRESH_INTERVAL)
    {
      this.base := base;
      heavy := new HeavyCell();
      discovery := !local;
      hosts := SameDomain;
      hostsRetryAfter := HOSTS_RETRY_AFTER;
      hostListRefresh := HOST_LIST_REFRESH_INTERVAL;
    }

    /** A clone shares the cell it was cloned with. */
    constructor Clone(from: Transport)
      ensures heavy == from.heavy && Conf() == from.Conf()
    {
      base := from.base;
      heavy := from.heavy;
      discovery := from.discovery;
      hosts := from.hosts;
      hostsRetryAfter := from.hostsRetryAfter;
      hostListRefresh := from.hostListRefresh;
    }

    /** A fresh cell, not a write through the shared one. */
    method ForgetHeavy()
      modifies this`heavy
      ensures fresh(heavy) && heavy.state == Unasked
    {
      heavy := new HeavyCell();
    }

    method SetProxyDiscovery(enabled: bool)
      modifies this`discovery, this`heavy
      ensures Conf() == old(Conf()).(discovery := enabled)
      ensures fresh(heavy) && heavy.state == Unasked
    {
      discovery := enabled;
      ForgetHeavy();
    }

    method SetHeavyProxiesAnywhere(enabled: bool)
      modifies this`hosts, this`heavy
      ensures Conf() == old(Conf()).(rule := if enabled then Anywhere else SameDomain)
      ensures fresh(heavy) && heavy.state == Unasked
    {
      hosts := if enabled then Anywhere else SameDomain;
      ForgetHeavy();
    }

    method SetHeavyProxiesIn(names: seq<string>)
      modifies this`hosts, this`heavy
      ensures Conf() == old(Conf()).(rule := Only(names))
      ensures fresh(heavy) && heavy.state == Unasked
    {
      hosts := Only(names);
      ForgetHeavy();
    }

    method SetHeavyProxiesUnder(domains: seq<string>)
      modifies this`hosts, this`heavy
      ensures Conf() == old(Conf()).(rule := UnderRule(domains))
      ensures fresh(heavy) && heavy.state == Unasked
    {
      hide Normalised, Trim;
      var kept, ignored := [], [];
      for i := 0 to |domains|
        invariant UnderRule(domains[..i]) == Under(kept, ignored)
      {
        assert domains[..i + 1][..i] == domains[..i];
        var normalised := Normalised(domains[i]);
        if normalised == "" {
          continue;
        }
        if '.' in normalised {
          if normalised !in kept { kept := kept + [normalised]; }
        } else {
          var written := Trim(domains[i]);
          if written !in ignored { ignored := ignored + [written]; }
        }
      }
      assert domains[..|domains|] == domains;
      hosts := Under(kept, ignored);
      ForgetHeavy();
    }

    method SetHostsRetryAfter(after: Duration)
      modifies this`hostsRetryAfter
      ensures Conf() == old(Conf()).(retryAfter := after)
    {
      hostsRetryAfter := after;
    }

    method SetHostListRefreshInterval(interval: Duration)
      modifies this`hostListRefresh
      ensures Conf() == old(Conf()).(refresh := interval)
    {
      hostListRefresh := interval;
    }

    /** One answer, split into the base URLs to use and how many names were refused. */
    method Admitted(names: seq<string>) returns (usable: seq<string>, refused: nat)
      ensures usable == Usable(Conf(), names) && |usable| + refused == |names|
    {
      hide HeavyBase;
      usable, refused := [], 0;
      for i := 0 to |names|
        invariant usable == Usable(Conf(), names[..i]) && |usable| + refused == i
      {
        assert names[..i + 1][..i] == names[..i];
        match HeavyBase(base, names[i], hosts) {
          case Ok(url) => usable := usable + [url];
          case Err(_) => refused := refused + 1;
        }
      }
      assert names[..|names|] == names;
    }

    /** Which address one command is sent to. The lock is held across the lookup, so `asked`,
        `lookup` and `settled` belong to this call alone. `declined` is the one sentence an
        operator gets when every name of the first answer was refused. */
    method BaseFor(repeatable: Repeatable, asked: Instant, lookup: Lookup, settled: Instant, word: nat)
      returns (destination: Destination, looked: bool, declined: bool)
      requires asked <= settled && heavy.state.Valid()
      modifies heavy
      ensures heavy.state.Valid()
      ensures repeatable != Heavy || !discovery ==>
        heavy.state == old(heavy.state) && destination == AtConfigured(base) && !looked && !declined
      ensures repeatable == Heavy && discovery ==>
        && heavy.state == Routed(old(heavy.state), Conf(), asked, lookup, settled)
        && destination == Placed(heavy.state, Conf(), word)
        && (looked <==> Due(old(heavy.state), Conf(), asked))
        && (declined <==> Declines(old(heavy.state), Conf(), lookup))
      ensures repeatable == Heavy && discovery ==>
        && (looked <==> AsksAgain(old(heavy.state), hostListRefresh, asked))
        && heavy.state == (if looked then LeftBy(old(heavy.state), Conf(), lookup, settled) else old(heavy.state))
        && destination == (if heavy.state.Pool? then Discovered(heavy.state.hosts[word % |heavy.state.hosts|]) else AtConfigured(base))
        && (declined <==> old(heavy.state).Unasked? && lookup.Answered? && lookup.names != [] && !SomeUsable(Conf(), lookup))
    {
      RoutedSpelledOut(heavy.state, Conf(), asked, lookup, settled);
      hide SomeUsable, LeftBy, AsksAgain, Failures.WrongAddress;
      looked, declined := false, false;
      if repeatable != Heavy || !discovery {
        return AtConfigured(base), false, false;
      }
      match heavy.state {
        case Pool(pool, fetched) =>
          if Elapsed(fetched, asked) >= hostListRefresh {
            looked := true;
            match lookup {
              case Answered(names) =>
                var usable, _ := Admitted(names);
                heavy.state := if usable != [] then Pool(usable, settled) else Pool(pool, settled);
              case Failed(_) =>
                heavy.state := Pool(pool, settled);
            }
          }
          return Discovered(heavy.state.hosts[word % |heavy.state.hosts|]), looked, false;
        case Configured(at) =>
          if Elapsed(at, asked) < hostListRefresh {
            return AtConfigured(base), false, false;
          }
        case FellBack(until) =>
          if until.None? || asked < until.value {
            return AtConfigured(base), false, false;
          }
        case Unasked =>
      }
      var firstAsking := heavy.state.Unasked?;
      looked := true;
      match lookup {
        case Answered(names) =>
          var usable, refused := Admitted(names);
          if usable == [] {
            heavy.state := Configured(settled);
            declined := firstAsking && refused > 0;
            return AtConfigured(base), looked, declined;
          }
          heavy.state := Pool(usable, settled);
          return Discovered(usable[word % |usable|]), looked, false;
        case Failed(error) =>
          heavy.state := if Failures.WorthAskingAgain(error)
            then FellBack(CheckedAdd(settled, hostsRetryAfter)) else Configured(settled);
          return AtConfigured(base), looked, false;
      }
    }

    /** What a finished command's failure says about the proxy it was routed to. */
    method AfterHeavy(repeatable: Repeatable, destination: Destination, failure: Option<Failures.ClientError>, at: Instant)
      requires heavy.state.Valid()
      modifies heavy
      ensures heavy.state.Valid()
      ensures heavy.state ==
        if Blames(repeatable, Conf(), destination, failure)
        then Blamed(old(heavy.state), Conf(), destination.address, at)
        else old(heavy.state)
      ensures heavy.state == LeftAfter(old(heavy.state), Conf(), repeatable, destination, failure, at)
    {
      BlamedSpelledOut(heavy.state, Conf(), repeatable, destination, failure, at);
      hide LeftAfter;
      if repeatable != Heavy || failure.None? || !discovery || destination.AtConfigured? {
        return;
      }
      if Failures.AttributableToTheHost(failure.value) && heavy.state.Pool? {
        var left := Without(heavy.state.hosts, destination.address);
        heavy.state := heavy.state.(hosts := left);
        if left == [] {
          heavy.state := FellBack(CheckedAdd(at, hostsRetryAfter));
        }
      }
    }
  }

  /** The sentence is for a first answer that named somebody and nobody usable. */
  predicate Declines(state: HeavyProxy, s: Settings, lookup: Lookup) {
    state.Unasked? && lookup.Answered? && lookup.names != [] && Usable(s, lookup.names) == []
  }

  // ---------------------------------------------------------------- domains added by hand

  function TrimLeft(s: string, c: char): (r: string)
    ensures r != "" ==> r[0] != c
    ensures |r| <= |s| && r == s[|s| - |r|..]
  {
    if s != "" && s[0] == c then TrimLeft(s[1..], c) else s
  }

  function TrimRight(s: string, c: char): (r: string)
    ensures r != "" ==> r[|r| - 1] != c
    ensures r <= s
  {
    if s != "" && s[|s| - 1] == c then TrimRight(s[..|s| - 1], c) else s
  }

  function Normalised(domain: string): string {
    Lower(TrimRight(TrimLeft(TrimLeft(HostOf(Trim(domain)), '*'), '.'), '.'))
  }

  function AddOnce(list: seq<string>, value: string): (r: seq<string>)
    ensures forall x :: x in r <==> x in list || x == value
  {
    if value in list then list else list + [value]
  }

  function UnderStep(rule: HeavyHosts, written: string): (r: HeavyHosts)
    requires rule.Under?
    ensures r.Under?
  {
    var normalised := Normalised(written);
    if normalised == "" then rule
    else if '.' in normalised then rule.(domains := AddOnce(rule.domains, normalised))
    else rule.(ignored := AddOnce(rule.ignored, Trim(written)))
  }

  function UnderRule(domains: seq<string>): (r: HeavyHosts)
    ensures r.Under?
  {
    if domains == [] then Under([], [])
    else UnderStep(UnderRule(domains[..|domains| - 1]), domains[|domains| - 1])
  }

  predicate Distinct(list: seq<string>) {
    forall i, j :: 0 <= i < j < |list| ==> list[i] != list[j]
  }

  /** What the setter keeps: exactly the normalised entries that still hold a dot, each once. */
  lemma {:induction false} UnderRuleKeeps(domains: seq<string>)
    ensures var kept := UnderRule(domains).domains;
      && Distinct(kept)
      && forall d :: d in kept <==> exists w :: w in domains && Normalised(w) == d && '.' in d
  {
    hide Normalised, Trim;
    if domains != [] {
      var front, written := domains[..|domains| - 1], domains[|domains| - 1];
      UnderRuleKeeps(front);
      var before, kept := UnderRule(front).domains, UnderRule(domains).domains;
      assert kept == if '.' in Normalised(written) then AddOnce(before, Normalised(written)) else before;
      hide UnderRule, UnderStep;
      assert domains == front + [written];
      forall d ensures d in kept <==> exists w :: w in domains && Normalised(w) == d && '.' in d {
        if d in kept && d !in before { assert written in domains; }
      }
    }
  }

  /** A kept domain is lower case with a character other than a dot at either end, so none is a
      bare top-level one. */
  lemma KeptDomainsAreDotted(domains: seq<string>, d: string)
    requires d in UnderRule(domains).domains
    ensures Lower(d) == d && '.' in d && d[0] != '.' && d[|d| - 1] != '.'
  {
    hide Normalised, Trim, Lower, UnderRule;
    UnderRuleKeeps(domains);
    var w :| w in domains && Normalised(w) == d && '.' in d;
    NormalisedShape(w);
  }

  /** What the setter remembers as unusable: exactly the entries with a name but no dot, each
      once and as written. */
  lemma {:induction false} UnderRuleIgnores(domains: seq<string>)
    ensures var ignored := UnderRule(domains).ignored;
      && Distinct(ignored)
      && forall t :: t in ignored <==>
           exists w :: w in domains && Trim(w) == t && Normalised(w) != "" && '.' !in Normalised(w)
  {
    hide Normalised, Trim, Lower;
    if domains != [] {
      var front, written := domains[..|domains| - 1], domains[|domains| - 1];
      UnderRuleIgnores(front);
      var before, ignored := UnderRule(front).ignored, UnderRule(domains).ignored;
      assert domains == front + [written];
      if Normalised(written) != "" && '.' !in Normalised(written) {
        assert ignored == AddOnce(before, Trim(written));
      }
      forall t ensures t in ignored <==>
        exists w :: w in domains && Trim(w) == t && Normalised(w) != "" && '.' !in Normalised(w)
      {
        if t in ignored && t !in before { assert written in domains; }
      }
    }
  }

  lemma NormalisedShape(written: string)
    ensures var d := Normalised(written);
      Lower(d) == d && (d != "" ==> d[0] != '.' && d[|d| - 1] != '.')
  {
    hide HostOf, Trim, Lower, TrimLeft, TrimRight;
    var left := TrimLeft(TrimLeft(HostOf(Trim(written)), '*'), '.');
    var both := TrimRight(left, '.');
    LowerKeepsDots(both);
    LowerTwice(both);
    if both != "" { assert both[0] == left[0]; }
  }

  lemma LowerKeepsDots(s: string)
    ensures forall i :: 0 <= i < |s| ==> (Lower(s)[i] == '.' <==> s[i] == '.')
  {
  }
}
