/** One request and the redirects it follows, against any server and any clock. */
module Dispatch {
  import opened Text
  import opened HostNames
  import opened Urls
  import opened Retrying
  import Failures
  import Router

  const MAX_REDIRECTS: nat := 10

  /** The body of a request, as far as a redirect asks about it. */
  datatype Outgoing = Empty | Bytes(length: nat) | Stream
  {
    predicate Replayable() { !Stream? }

    predicate CarriesData() { Stream? || (Bytes? && length > 0) }
  }

  datatype Response = Response(status: nat, location: Option<string>, clusterError: Option<Failures.ClientError>)

  /** Who is sending: with a token or not, with TLS built in or not, with a usable root bundle
      or not. */
  datatype Sender = Sender(token: bool, tls: bool, bundleRefused: bool, timeout: Duration)

  /** One request that went out, and the time it was given. */
  datatype Hop = Hop(url: string, left: Option<Duration>)

  datatype Verdict = Stay | Follow(target: string) | Refuse(refusal: Failures.Refusal)

  /** What becomes of an answer: gone to, taken as it is, or refused. */
  function Redirect(sender: Sender, response: Response, url: string, body: Outgoing, hops: nat): Verdict {
    if !(300 <= response.status < 400) || response.location.None? then Stay
    else
      match Resolve(url, response.location.value)
      case None => Stay
      case Some(target) =>
        var elsewhere := !SameOrigin(url, target);
        if sender.token && elsewhere then Refuse(Failures.Credentials)
        else if !body.Replayable() then Refuse(Failures.Body)
        else if elsewhere && body.CarriesData() then Refuse(Failures.Payload)
        else if hops >= MAX_REDIRECTS then Refuse(Failures.TooMany)
        else Follow(target)
  }

  predicate TlsUnavailable(sender: Sender, url: string) {
    !sender.tls && "https://" <= url
  }

  predicate Unusable(sender: Sender, url: string) {
    TlsUnavailable(sender, url) || (sender.bundleRefused && "https://" <= url)
  }

  /** What is left of a deadline at `now`: nothing to bound by, a span, or no time at all. */
  function Remaining(deadline: Option<Router.Instant>, now: Router.Instant): Result<Option<Duration>, Failures.ClientError> {
    match deadline
    case None => Ok(None)
    case Some(end) => if now < end then Ok(Some(end - now)) else Err(Failures.Transport(false))
  }

  /** Each request went where the answer before it pointed. */
  predicate Chained(log: seq<Hop>, server: nat -> Option<Response>) {
    forall k :: 0 <= k < |log| - 1 ==>
      && server(k).Some? && server(k).value.location.Some?
      && Resolve(log[k].url, server(k).value.location.value) == Some(log[k + 1].url)
  }

  /** Each request but the first shares the first one's origin. */
  predicate StaysHome(log: seq<Hop>) {
    forall k :: 0 < k < |log| ==> SameOrigin(log[0].url, log[k].url)
  }

  /** Each request's time ends at the one deadline, and there is some. */
  predicate WithinDeadline(log: seq<Hop>, deadline: Option<Router.Instant>, clock: nat -> Router.Instant) {
    forall k :: 0 <= k < |log| ==>
      match deadline
      case None => log[k].left.None?
      case Some(end) => log[k].left.Some? && log[k].left.value > 0 && clock(k + 1) + log[k].left.value == end
  }

  /** Where the answer to the last request leads. */
  function Next(sender: Sender, body: Outgoing, log: seq<Hop>, server: nat -> Option<Response>): (next: Verdict)
    requires |log| > 0 && server(|log| - 1).Some?
  {
    Redirect(sender, server(|log| - 1).value, log[|log| - 1].url, body, |log| - 1)
  }

  /** What the exchange comes to, read off the last answer alone. */
  predicate Ends(sender: Sender, body: Outgoing, log: seq<Hop>, server: nat -> Option<Response>,
                 result: Result<Response, Failures.ClientError>)
  {
    if |log| == 0 then result.Err? && (result.error.Config? || result.error.Transport?)
    else if server(|log| - 1).None? then result == Err(Failures.Transport(false))
    else
      var last := server(|log| - 1).value;
      match Next(sender, body, log, server)
      case Stay => result == if last.clusterError.Some? then Err(last.clusterError.value) else Ok(last)
      case Refuse(refusal) => result == Err(Failures.Redirected(refusal))
      case Follow(target) => result == Err(if TlsUnavailable(sender, target) then Failures.Config else Failures.Transport(false))
  }

  /** What the loop keeps: the exchange so far, with `url` asked next. */
  ghost predicate Underway(sender: Sender, first: string, body: Outgoing, deadline: Option<Router.Instant>,
                           server: nat -> Option<Response>, clock: nat -> Router.Instant, log: seq<Hop>, url: string)
  {
    && |log| <= MAX_REDIRECTS
    && (if |log| == 0 then url == first else log[0].url == first)
    && Chained(log, server) && WithinDeadline(log, deadline, clock)
    && (|log| > 0 ==> server(|log| - 1).Some? && Next(sender, body, log, server) == Follow(url))
    && (|log| > 0 ==> !TlsUnavailable(sender, url))
    && (forall k :: 0 < k < |log| ==> !TlsUnavailable(sender, log[k].url))
    && (sender.token || body.CarriesData() ==> StaysHome(log) && (|log| > 0 ==> SameOrigin(first, url)))
    && (body.Stream? ==> |log| == 0)
  }

  /** What an exchange that ended kept. */
  ghost predicate Kept(sender: Sender, first: string, body: Outgoing, deadline: Option<Router.Instant>,
                       server: nat -> Option<Response>, clock: nat -> Router.Instant, log: seq<Hop>)
  {
    && |log| <= MAX_REDIRECTS + 1
    && (|log| > 0 ==> log[0].url == first)
    && Chained(log, server) && WithinDeadline(log, deadline, clock)
    && (forall k :: 0 < k < |log| ==> !TlsUnavailable(sender, log[k].url))
    && (sender.token || body.CarriesData() ==> StaysHome(log))
    && (body.Stream? ==> |log| <= 1)
  }

  lemma FollowedIsAllowed(sender: Sender, response: Response, url: string, body: Outgoing, hops: nat)
    requires Redirect(sender, response, url, body, hops).Follow?
    ensures var target := Redirect(sender, response, url, body, hops).target;
      && response.location.Some? && Resolve(url, response.location.value) == Some(target)
      && hops < MAX_REDIRECTS && !body.Stream?
      && (sender.token || body.CarriesData() ==> SameOrigin(url, target))
  {
    hide Resolve, SameOrigin;
  }

  lemma Asked(sender: Sender, first: string, body: Outgoing, deadline: Option<Router.Instant>,
              server: nat -> Option<Response>, clock: nat -> Router.Instant, log: seq<Hop>, url: string)
    requires Underway(sender, first, body, deadline, server, clock, log, url)
    requires Remaining(deadline, clock(|log| + 1)).Ok?
    ensures Kept(sender, first, body, deadline, server, clock, log + [Hop(url, Remaining(deadline, clock(|log| + 1)).value)])
  {
    hide Resolve, SameOrigin, TlsUnavailable, Redirect;
    if |log| > 0 {
      FollowedIsAllowed(sender, server(|log| - 1).value, log[|log| - 1].url, body, |log| - 1);
    }
    var longer := log + [Hop(url, Remaining(deadline, clock(|log| + 1)).value)];
    assert forall k :: 0 <= k < |log| ==> longer[k] == log[k];
  }

  lemma Followed(sender: Sender, first: string, body: Outgoing, deadline: Option<Router.Instant>,
                 server: nat -> Option<Response>, clock: nat -> Router.Instant, log: seq<Hop>)
    requires Kept(sender, first, body, deadline, server, clock, log) && |log| > 0 && server(|log| - 1).Some?
    requires Next(sender, body, log, server).Follow?
    requires !TlsUnavailable(sender, Next(sender, body, log, server).target)
    ensures Underway(sender, first, body, deadline, server, clock, log, Next(sender, body, log, server).target)
  {
    hide Resolve, SameOrigin, TlsUnavailable, Redirect;
    var target := Next(sender, body, log, server).target;
    FollowedIsAllowed(sender, server(|log| - 1).value, log[|log| - 1].url, body, |log| - 1);
    SameOriginIsEquivalence(first, log[|log| - 1].url, target);
  }

  // ---------------------------------------------------------------- the promise, spelled out

  /** Where an answer points, when it is a redirect that points anywhere. */
  function Pointed(answer: Response, url: string): Option<string> {
    if 300 <= answer.status <= 399 && answer.location.Some? then Resolve(url, answer.location.value) else None
  }

  predicate HasData(body: Outgoing) {
    body.Stream? || (body.Bytes? && body.length > 0)
  }

  /** The end-to-end deadline of a buffered command, if a clock can reach it. */
  predicate Bounded(sender: Sender, streaming: bool, clock: nat -> Router.Instant) {
    !streaming && clock(0) + sender.timeout <= Router.INSTANT_MAX
  }

  /** By the k-th reading of the clock the time is up. */
  predicate Spent(sender: Sender, streaming: bool, clock: nat -> Router.Instant, k: nat) {
    Bounded(sender, streaming, clock) && clock(0) + sender.timeout <= clock(k)
  }

  /** What an exchange may look like: every answer but the last was a redirect and was followed to
      where it pointed; with a token or data all of it stayed where it began; a stream went out
      once; and every hop had what was left of the one deadline. */
  ghost predicate Exchanged(sender: Sender, first: string, body: Outgoing, streaming: bool,
                            server: nat -> Option<Response>, clock: nat -> Router.Instant, log: seq<Hop>)
  {
    && |log| <= 11
    && (|log| > 0 ==> log[0].url == first)
    && (forall k :: 0 <= k < |log| - 1 ==> server(k).Some? && Pointed(server(k).value, log[k].url) == Some(log[k + 1].url))
    && (sender.token || HasData(body) ==> forall k :: 0 < k < |log| ==> SameOrigin(first, log[k].url))
    && (body.Stream? ==> |log| <= 1)
    && (forall k :: 0 < k < |log| ==> sender.tls || !("https://" <= log[k].url))
    && (forall k :: 0 <= k < |log| ==> HopTime(sender, streaming, clock, k, log[k].left))
  }

  predicate HopTime(sender: Sender, streaming: bool, clock: nat -> Router.Instant, k: nat, left: Option<Duration>) {
    if Bounded(sender, streaming, clock)
    then clock(k + 1) < clock(0) + sender.timeout && left == Some(clock(0) + sender.timeout - clock(k + 1))
    else left.None?
  }

  /** Which refusal a redirect to `target` meets, the first of four that applies. */
  function RefusalOf(sender: Sender, body: Outgoing, url: string, target: string, requests: nat): Option<Failures.Refusal> {
    if sender.token && !SameOrigin(url, target) then Some(Failures.Credentials)
    else if body.Stream? then Some(Failures.Body)
    else if HasData(body) && !SameOrigin(url, target) then Some(Failures.Payload)
    else if requests == 11 then Some(Failures.TooMany)
    else None
  }

  /** What an exchange comes to. Nothing sent: TLS that is needed and cannot be had, or no time to
      begin with. No answer: a transport failure. An answer that points nowhere is the answer, or
      the cluster's error in it. One that points somewhere is refused, or not gone to for want of
      TLS or of time. */
  ghost predicate ComesTo(sender: Sender, base: string, body: Outgoing, streaming: bool, server: nat -> Option<Response>,
                          clock: nat -> Router.Instant, log: seq<Hop>, result: Result<Response, Failures.ClientError>)
  {
    var n := |log|;
    if "https://" <= base && (!sender.tls || sender.bundleRefused) then n == 0 && result == Err(Failures.Config)
    else if n == 0 then Spent(sender, streaming, clock, 1) && result == Err(Failures.Transport(false))
    else if server(n - 1).None? then result == Err(Failures.Transport(false))
    else
      var answer, url := server(n - 1).value, log[n - 1].url;
      match Pointed(answer, url)
      case None => result == if answer.clusterError.Some? then Err(answer.clusterError.value) else Ok(answer)
      case Some(target) =>
        match RefusalOf(sender, body, url, target, n)
        case Some(refusal) => result == Err(Failures.Redirected(refusal))
        case None =>
          if "https://" <= target && !sender.tls then result == Err(Failures.Config)
          else Spent(sender, streaming, clock, n + 1) && result == Err(Failures.Transport(false))
  }

  /** The verdict on one answer, in those words. */
  lemma RedirectSpelledOut(sender: Sender, answer: Response, url: string, body: Outgoing, hops: nat)
    requires hops <= 10
    ensures Redirect(sender, answer, url, body, hops) ==
      match Pointed(answer, url)
      case None => Stay
      case Some(target) =>
        (match RefusalOf(sender, body, url, target, hops + 1)
         case Some(refusal) => Refuse(refusal)
         case None => Follow(target))
  {
    hide Resolve, SameOrigin;
  }

  lemma DeadlineSpelledOut(sender: Sender, streaming: bool, clock: nat -> Router.Instant, k: nat)
    ensures var left := Remaining(if streaming then None else Router.CheckedAdd(clock(0), sender.timeout), clock(k + 1));
      && (left.Err? <==> Spent(sender, streaming, clock, k + 1))
      && (left.Err? ==> left == Err(Failures.Transport(false)))
      && (left.Ok? ==> HopTime(sender, streaming, clock, k, left.value))
  {
  }

  /** What the loop kept is an exchange in those words. */
  lemma KeptIsExchanged(sender: Sender, first: string, body: Outgoing, streaming: bool,
                        server: nat -> Option<Response>, clock: nat -> Router.Instant, log: seq<Hop>)
    requires Kept(sender, first, body, if streaming then None else Router.CheckedAdd(clock(0), sender.timeout), server, clock, log)
    requires Redirected(sender, body, server, log)
    ensures Exchanged(sender, first, body, streaming, server, clock, log)
  {
    hide Resolve, SameOrigin, Redirect;
    forall k | 0 <= k < |log| - 1 ensures FollowedAt(sender, body, server, log, k) && server(k).Some? && Pointed(server(k).value, log[k].url) == Some(log[k + 1].url) {
      RedirectSpelledOut(sender, server(k).value, log[k].url, body, k);
    }
  }

  /** Each answer before the last was judged one to follow, to the next address. */
  ghost predicate Redirected(sender: Sender, body: Outgoing, server: nat -> Option<Response>, log: seq<Hop>) {
    forall k :: 0 <= k < |log| - 1 ==> FollowedAt(sender, body, server, log, k)
  }

  predicate FollowedAt(sender: Sender, body: Outgoing, server: nat -> Option<Response>, log: seq<Hop>, k: nat)
    requires k < |log| - 1
  {
    k < 10 && server(k).Some? && Redirect(sender, server(k).value, log[k].url, body, k) == Follow(log[k + 1].url)
  }

  lemma OneMoreRedirected(sender: Sender, body: Outgoing, server: nat -> Option<Response>, log: seq<Hop>, hop: Hop)
    requires Redirected(sender, body, server, log) && |log| <= 10
    requires |log| > 0 ==> server(|log| - 1).Some? && Next(sender, body, log, server) == Follow(hop.url)
    ensures Redirected(sender, body, server, log + [hop])
  {
    hide Redirect;
    var longer := log + [hop];
    assert forall k :: 0 <= k < |log| ==> longer[k] == log[k];
    forall k | 0 <= k < |log| ensures FollowedAt(sender, body, server, longer, k) {
      assert k < |log| - 1 ==> FollowedAt(sender, body, server, log, k);
    }
  }

  /** Reading the result off the last answer, in those words. */
  lemma EndsAsItComesTo(sender: Sender, base: string, body: Outgoing, streaming: bool, server: nat -> Option<Response>,
                        clock: nat -> Router.Instant, log: seq<Hop>, result: Result<Response, Failures.ClientError>)
    requires Ends(sender, body, log, server, result) && |log| <= 11
    requires Unusable(sender, base) ==> |log| == 0 && result == Err(Failures.Config)
    requires !Unusable(sender, base) && |log| == 0 ==> Spent(sender, streaming, clock, 1) && result == Err(Failures.Transport(false))
    requires |log| > 0 && server(|log| - 1).Some? && Next(sender, body, log, server).Follow? ==>
      TlsUnavailable(sender, Next(sender, body, log, server).target) || Spent(sender, streaming, clock, |log| + 1)
    ensures ComesTo(sender, base, body, streaming, server, clock, log, result)
  {
    hide Resolve, SameOrigin, Redirect, Pointed, RefusalOf, Spent;
    if |log| > 0 && server(|log| - 1).Some? {
      RedirectSpelledOut(sender, server(|log| - 1).value, log[|log| - 1].url, body, |log| - 1);
    }
  }

  /** A 307 within the origin is followed, and one that takes a token elsewhere is refused. */
  lemma TemporaryRedirects(sender: Sender, url: string, location: string, clusterError: Option<Failures.ClientError>, body: Outgoing)
    requires Resolve(url, location).Some?
    ensures var verdict, target := Redirect(sender, Response(307, Some(location), clusterError), url, body, 0), Resolve(url, location).value;
      && (SameOrigin(url, target) && !body.Stream? ==> verdict == Follow(target))
      && (sender.token && !SameOrigin(url, target) ==> verdict == Refuse(Failures.Credentials))
  {
    hide Resolve, SameOrigin;
  }

  /** `dispatch`. The server answers the k-th request with `server(k)`, or not at all; the clock
      reads `clock(0)` when the deadline is taken and `clock(k + 1)` before the k-th request. */
  method Dispatch(sender: Sender, base: string, command: string, body: Outgoing, streaming: bool,
                  server: nat -> Option<Response>, clock: nat -> Router.Instant)
    returns (result: Result<Response, Failures.ClientError>, log: seq<Hop>)
    ensures Kept(sender, base + "/api/v4/" + command, body,
                 if streaming then None else Router.CheckedAdd(clock(0), sender.timeout), server, clock, log)
    ensures Ends(sender, body, log, server, result)
    ensures |log| > 0 ==> !Unusable(sender, base)
    ensures Exchanged(sender, base + "/api/v4/" + command, body, streaming, server, clock, log)
    ensures ComesTo(sender, base, body, streaming, server, clock, log, result)
  {
    hide Resolve, SameOrigin, Redirect, TlsUnavailable, Underway, Chained, StaysHome, WithinDeadline, Kept, Ends, Exchanged, ComesTo,
         Redirected, Spent, Remaining, Unusable, Next;
    log := [];
    var url := base + "/api/v4/" + command;
    var deadline := if streaming then None else Router.CheckedAdd(clock(0), sender.timeout);
    ghost var first := url;
    Start(sender, first, body, deadline, server, clock);
    NothingSent(sender, body, server, Failures.Config);
    if Unusable(sender, base) {
      result := Err(Failures.Config);
      Closes(sender, base, first, body, streaming, server, clock, log, result);
      return;
    }
    var hops := 0;
    while true
      invariant hops == |log| <= MAX_REDIRECTS
      invariant Underway(sender, first, body, deadline, server, clock, log, url) && Redirected(sender, body, server, log)
      decreases MAX_REDIRECTS - hops
    {
      var left := Remaining(deadline, clock(hops + 1));
      DeadlineSpelledOut(sender, streaming, clock, hops);
      if left.Err? {
        OutOfTime(sender, first, body, deadline, server, clock, log, url);
        result := Err(left.error);
        Closes(sender, base, first, body, streaming, server, clock, log, result);
        return;
      }
      Asked(sender, first, body, deadline, server, clock, log, url);
      UnderwayFollowed(sender, first, body, deadline, server, clock, log, url);
      OneMoreRedirected(sender, body, server, log, Hop(url, left.value));
      log := log + [Hop(url, left.value)];
      if server(hops).None? {
        result := Err(Failures.Transport(false));
        Unanswered(sender, body, server, log);
        Closes(sender, base, first, body, streaming, server, clock, log, result);
        return;
      }
      var response := server(hops).value;
      NextIs(sender, body, log, server);
      match Redirect(sender, response, url, body, hops) {
        case Refuse(refusal) =>
          result := Err(Failures.Redirected(refusal));
          Answered(sender, body, server, log, result);
          Closes(sender, base, first, body, streaming, server, clock, log, result);
          return;
        case Follow(target) =>
          if TlsUnavailable(sender, target) {
            result := Err(Failures.Config);
            Answered(sender, body, server, log, result);
            Closes(sender, base, first, body, streaming, server, clock, log, result);
            return;
          }
          FollowedIsAllowed(sender, response, url, body, hops);
          Followed(sender, first, body, deadline, server, clock, log);
          url := target;
          hops := hops + 1;
        case Stay =>
          result := if response.clusterError.Some? then Err(response.clusterError.value) else Ok(response);
          Answered(sender, body, server, log, result);
          Closes(sender, base, first, body, streaming, server, clock, log, result);
          return;
      }
    }
  }

  /** An exchange that ended is what was promised, in both wordings. */
  lemma Closes(sender: Sender, base: string, first: string, body: Outgoing, streaming: bool, server: nat -> Option<Response>,
               clock: nat -> Router.Instant, log: seq<Hop>, result: Result<Response, Failures.ClientError>)
    requires Kept(sender, first, body, if streaming then None else Router.CheckedAdd(clock(0), sender.timeout), server, clock, log)
    requires Redirected(sender, body, server, log) && Ends(sender, body, log, server, result)
    requires Unusable(sender, base) ==> |log| == 0 && result == Err(Failures.Config)
    requires !Unusable(sender, base) && |log| == 0 ==> Spent(sender, streaming, clock, 1) && result == Err(Failures.Transport(false))
    requires |log| > 0 && server(|log| - 1).Some? && Next(sender, body, log, server).Follow? ==>
      TlsUnavailable(sender, Next(sender, body, log, server).target) || Spent(sender, streaming, clock, |log| + 1)
    ensures Exchanged(sender, first, body, streaming, server, clock, log)
    ensures ComesTo(sender, base, body, streaming, server, clock, log, result)
  {
    hide Resolve, SameOrigin, Redirect, TlsUnavailable, Chained, StaysHome, WithinDeadline, Ends, Exchanged, ComesTo, Redirected, Spent,
         Unusable, Next;
    KeptIsExchanged(sender, first, body, streaming, server, clock, log);
    EndsAsItComesTo(sender, base, body, streaming, server, clock, log, result);
  }

  lemma NothingSent(sender: Sender, body: Outgoing, server: nat -> Option<Response>, error: Failures.ClientError)
    requires error.Config? || error.Transport?
    ensures Ends(sender, body, [], server, Err(error)) && Redirected(sender, body, server, [])
  {
  }

  lemma UnderwayFollowed(sender: Sender, first: string, body: Outgoing, deadline: Option<Router.Instant>,
                         server: nat -> Option<Response>, clock: nat -> Router.Instant, log: seq<Hop>, url: string)
    requires Underway(sender, first, body, deadline, server, clock, log, url)
    ensures |log| > 0 ==> server(|log| - 1).Some? && Next(sender, body, log, server) == Follow(url)
  {
    hide Redirect, Resolve, SameOrigin;
  }

  lemma Unanswered(sender: Sender, body: Outgoing, server: nat -> Option<Response>, log: seq<Hop>)
    requires |log| > 0 && server(|log| - 1).None?
    ensures Ends(sender, body, log, server, Err(Failures.Transport(false)))
  {
  }

  lemma NextIs(sender: Sender, body: Outgoing, log: seq<Hop>, server: nat -> Option<Response>)
    requires |log| > 0 && server(|log| - 1).Some?
    ensures Next(sender, body, log, server) ==
      Redirect(sender, server(|log| - 1).value, log[|log| - 1].url, body, |log| - 1)
  {
  }

  lemma Answered(sender: Sender, body: Outgoing, server: nat -> Option<Response>, log: seq<Hop>, result: Result<Response, Failures.ClientError>)
    requires |log| > 0 && server(|log| - 1).Some?
    requires var answer := server(|log| - 1).value;
      match Next(sender, body, log, server)
      case Stay => result == if answer.clusterError.Some? then Err(answer.clusterError.value) else Ok(answer)
      case Refuse(refusal) => result == Err(Failures.Redirected(refusal))
      case Follow(target) => TlsUnavailable(sender, target) && result == Err(Failures.Config)
    ensures Ends(sender, body, log, server, result)
  {
    hide Redirect, Next;
  }

  lemma Start(sender: Sender, first: string, body: Outgoing, deadline: Option<Router.Instant>,
              server: nat -> Option<Response>, clock: nat -> Router.Instant)
    ensures Underway(sender, first, body, deadline, server, clock, [], first)
    ensures Kept(sender, first, body, deadline, server, clock, [])
  {
  }

  lemma OutOfTime(sender: Sender, first: string, body: Outgoing, deadline: Option<Router.Instant>,
              server: nat -> Option<Response>, clock: nat -> Router.Instant, log: seq<Hop>, url: string)
    requires Underway(sender, first, body, deadline, server, clock, log, url)
    requires Remaining(deadline, clock(|log| + 1)).Err?
    ensures Kept(sender, first, body, deadline, server, clock, log)
    ensures Ends(sender, body, log, server, Err(Failures.Transport(false)))
  {
    hide Resolve, SameOrigin, TlsUnavailable, Redirect, Chained, StaysHome, WithinDeadline;
    if |log| > 0 {
      FollowedIsAllowed(sender, server(|log| - 1).value, log[|log| - 1].url, body, |log| - 1);
    }
  }

  /** On a clock that never goes back, no hop is given more time than the one before it, and none
      more than the timeout. */
  lemma HopsShareOneTimeout(log: seq<Hop>, timeout: Duration, clock: nat -> Router.Instant, i: nat, j: nat)
    requires Router.CheckedAdd(clock(0), timeout).Some?
    requires WithinDeadline(log, Router.CheckedAdd(clock(0), timeout), clock)
    requires forall m: nat, n: nat :: m <= n ==> clock(m) <= clock(n)
    requires i <= j < |log|
    ensures log[i].left.Some? && log[j].left.Some? && 0 < log[j].left.value <= log[i].left.value <= timeout
  {
    assert clock(0) <= clock(i + 1) <= clock(j + 1);
  }
}
