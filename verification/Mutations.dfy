/** One call of a command against a cluster that remembers mutations, over a network that may
    lose, delay, repeat and reorder what is sent.

    The cluster's side is the documented one: a known id marked as a retry is answered with the
    first response, a known id not so marked is refused, and an unknown id is applied. The cache
    is assumed to outlive the run. */
module Mutations {
  import opened Text
  import opened Failures
  import opened Retrying

  type Reply = Result<string, ClientError>

  /** A 128-bit number, spelled in hexadecimal on the wire. */
  type Guid = nat

  datatype MutationId = MutationId(id: Guid, retry: bool)

  function NewId(word: Guid): MutationId {
    MutationId(word, false)
  }

  function AsRetry(id: MutationId): MutationId {
    id.(retry := true)
  }

  datatype Request = Request(id: Option<Guid>, retry: bool)

  /** A request as it reaches the master, with the response that applying it would have. */
  datatype Delivery = Delivery(request: Request, reply: Reply)

  /** What the master keeps: the first response of every tagged mutation, and the log of
      everything it applied. */
  datatype Master = Master(known: map<Guid, Reply>, applied: seq<Option<Guid>>)

  datatype Outcome = Reached(reply: Reply) | Duplicate | Cut(error: ClientError)

  function Applies(m: Master, request: Request): bool {
    request.id.None? || request.id.value !in m.known
  }

  function Handle(m: Master, d: Delivery): Master {
    if !Applies(m, d.request) then m
    else
      Master(if d.request.id.Some? then m.known[d.request.id.value := d.reply] else m.known,
             m.applied + [d.request.id])
  }

  function Answer(m: Master, d: Delivery): Outcome {
    if Applies(m, d.request) then Reached(d.reply)
    else if d.request.retry then Reached(m.known[d.request.id.value])
    else Duplicate
  }

  function HandleAll(m: Master, ds: seq<Delivery>): Master {
    if ds == [] then m else Handle(HandleAll(m, ds[..|ds| - 1]), ds[|ds| - 1])
  }

  lemma HandleSnoc(m: Master, ds: seq<Delivery>, d: Delivery)
    ensures HandleAll(m, ds + [d]) == Handle(HandleAll(m, ds), d)
  {
    assert (ds + [d])[..|ds|] == ds;
  }

  // ---------------------------------------------------------------- the cluster applies once

  function Count(log: seq<Option<Guid>>, id: Guid): nat {
    if log == [] then 0 else Count(log[..|log| - 1], id) + if log[|log| - 1] == Some(id) then 1 else 0
  }

  /** A master that has applied each id it knows once and no other id at all. */
  ghost predicate Sane(m: Master) {
    forall id :: Count(m.applied, id) == if id in m.known then 1 else 0
  }

  lemma HandleStaysSane(m: Master, d: Delivery)
    requires Sane(m)
    ensures Sane(Handle(m, d))
  {
    forall id ensures Count(Handle(m, d).applied, id) == if id in Handle(m, d).known then 1 else 0 {
      assert (m.applied + [d.request.id])[..|m.applied|] == m.applied;
    }
  }

  /** Whatever reaches the master, in whatever order and however often, each id is applied at
      most once; and the response first kept under an id is kept for good. */
  lemma {:induction false} AtMostOnce(m: Master, ds: seq<Delivery>, id: Guid)
    requires Sane(m)
    ensures Sane(HandleAll(m, ds)) && Count(HandleAll(m, ds).applied, id) <= 1
    ensures id in m.known ==> id in HandleAll(m, ds).known && HandleAll(m, ds).known[id] == m.known[id]
    ensures id in HandleAll(m, ds).known <==> id in m.known || exists k :: 0 <= k < |ds| && ds[k].request.id == Some(id)
  {
    hide Sane, Count;
    if ds != [] {
      var front, last := ds[..|ds| - 1], ds[|ds| - 1];
      AtMostOnce(m, front, id);
      HandleStaysSane(HandleAll(m, front), last);
      HandleKnows(HandleAll(m, front), last, id);
      NamedIn(front, last, id);
      assert ds == front + [last];
    }
    CountedOnce(HandleAll(m, ds), id);
  }

  lemma CountedOnce(m: Master, id: Guid)
    requires Sane(m)
    ensures Count(m.applied, id) <= 1
  {
  }

  lemma HandleKnows(m: Master, d: Delivery, id: Guid)
    ensures id in Handle(m, d).known <==> id in m.known || d.request.id == Some(id)
    ensures id in m.known ==> Handle(m, d).known[id] == m.known[id]
  {
  }

  lemma NamedIn(front: seq<Delivery>, last: Delivery, id: Guid)
    ensures (exists k :: 0 <= k < |front + [last]| && (front + [last])[k].request.id == Some(id)) <==>
      (exists k :: 0 <= k < |front| && front[k].request.id == Some(id)) || last.request.id == Some(id)
  {
    var ds := front + [last];
    if k :| 0 <= k < |front| && front[k].request.id == Some(id) { assert ds[k] == front[k]; }
    if last.request.id == Some(id) { assert ds[|front|] == last; }
  }

  /** The response kept under an id that was new is that of the first request to arrive under it. */
  lemma {:induction false} KeptIsTheFirst(m: Master, ds: seq<Delivery>, k: nat)
    requires k < |ds| && ds[k].request.id.Some? && ds[k].request.id.value !in m.known
    requires forall j :: 0 <= j < k ==> ds[j].request.id != ds[k].request.id
    ensures var id := ds[k].request.id.value;
      id in HandleAll(m, ds).known && HandleAll(m, ds).known[id] == ds[k].reply
  {
    var front, last := ds[..|ds| - 1], |ds| - 1;
    var id := ds[k].request.id.value;
    if k < last {
      KeptIsTheFirst(m, front, k);
    } else {
      UntouchedStaysUnknown(m, front, id);
    }
  }

  lemma {:induction false} UntouchedStaysUnknown(m: Master, ds: seq<Delivery>, id: Guid)
    requires id !in m.known && forall j :: 0 <= j < |ds| ==> ds[j].request.id != Some(id)
    ensures id !in HandleAll(m, ds).known
  {
    if ds != [] { UntouchedStaysUnknown(m, ds[..|ds| - 1], id); }
  }

  /** Nothing answered to a marked request, or to the first request under a fresh id, is a
      refusal for not being marked. */
  lemma NeverRefusedWhenMarkedOrFresh(m: Master, d: Delivery)
    ensures d.request.retry || Applies(m, d.request) ==> Answer(m, d).Reached?
    ensures d.request.id.Some? && Answer(m, d).Reached? ==>
      var id := d.request.id.value;
      id in Handle(m, d).known && Answer(m, d).reply == Handle(m, d).known[id]
  {
  }

  // ---------------------------------------------------------------- the network

  /** A late arrival: a copy of an earlier attempt, or somebody else's request. */
  datatype Stray = Again(attempt: nat, reply: Reply) | Foreign(delivery: Delivery)

  datatype Fate =
    | Lost(error: ClientError)
    | AnswerLost(reply: Reply, error: ClientError)
    | Delivered(reply: Reply)

  /** What happens at each attempt: what arrives before it, and what becomes of it. */
  datatype Network = Network(strays: nat -> seq<Stray>, fate: nat -> Fate)

  /** Nobody else uses this id. */
  ghost predicate Exclusive(network: Network, id: Guid) {
    forall k: nat, s :: s in network.strays(k) && s.Foreign? ==> s.delivery.request.id != Some(id)
  }

  function Arrivals(strays: seq<Stray>, sent: seq<Request>): (r: seq<Delivery>) {
    if strays == [] then []
    else
      var rest, last := Arrivals(strays[..|strays| - 1], sent), strays[|strays| - 1];
      match last
      case Foreign(d) => rest + [d]
      case Again(k, reply) => if k < |sent| then rest + [Delivery(sent[k], reply)] else rest
  }

  lemma {:induction false} ArrivalsAreKnown(strays: seq<Stray>, sent: seq<Request>, id: Guid)
    requires forall s :: s in strays && s.Foreign? ==> s.delivery.request.id != Some(id)
    ensures forall d :: d in Arrivals(strays, sent) && d.request.id == Some(id) ==> d.request in sent
  {
    if strays != [] {
      assert strays == strays[..|strays| - 1] + [strays[|strays| - 1]];
      ArrivalsAreKnown(strays[..|strays| - 1], sent, id);
    }
  }

  /** What one attempt does to the master, and what the client sees of it. */
  predicate Sends(network: Network, was: Master, sent: seq<Request>, request: Request, now: Master, outcome: Outcome) {
    var before := HandleAll(was, Arrivals(network.strays(|sent|), sent));
    match network.fate(|sent|)
    case Lost(error) => now == before && outcome == Cut(error)
    case AnswerLost(reply, error) => now == Handle(before, Delivery(request, reply)) && outcome == Cut(error)
    case Delivered(reply) =>
      && now == Handle(before, Delivery(request, reply))
      && outcome == Answer(before, Delivery(request, reply))
  }

  /** Both ends of one call: the master, and what the client has sent and seen so far. */
  class Wire {
    const network: Network
    var master: Master
    var sent: seq<Request>
    var seen: seq<Outcome>

    constructor (network: Network, master: Master)
      ensures this.network == network && this.master == master && sent == [] && seen == []
    {
      this.network, this.master, sent, seen := network, master, [], [];
    }

    /** One attempt: late arrivals first, then this request as far as it gets. */
    method Send(request: Request) returns (outcome: Outcome)
      modifies this
      ensures sent == old(sent) + [request] && seen == old(seen) + [outcome]
      ensures Sends(network, old(master), old(sent), request, master, outcome)
    {
      var n := |sent|;
      var strays := network.strays(n);
      for i := 0 to |strays|
        invariant master == HandleAll(old(master), Arrivals(strays[..i], sent))
        invariant sent == old(sent) && seen == old(seen)
      {
        assert strays[..i + 1][..i] == strays[..i];
        var late := strays[i];
        match late {
          case Foreign(d) =>
            HandleSnoc(old(master), Arrivals(strays[..i], sent), d);
            master := Handle(master, d);
          case Again(k, reply) =>
            if k < |sent| {
              HandleSnoc(old(master), Arrivals(strays[..i], sent), Delivery(sent[k], reply));
              master := Handle(master, Delivery(sent[k], reply));
            }
        }
      }
      assert strays[..|strays|] == strays;
      match network.fate(n) {
        case Lost(error) =>
          outcome := Cut(error);
        case AnswerLost(reply, error) =>
          master := Handle(master, Delivery(request, reply));
          outcome := Cut(error);
        case Delivered(reply) =>
          outcome := Answer(master, Delivery(request, reply));
          master := Handle(master, Delivery(request, reply));
      }
      sent, seen := sent + [request], seen + [outcome];
    }
  }

  // ---------------------------------------------------------------- the retry loop

  /** A refusal for not being marked reaches the client as a cluster error nothing retries. */
  function AsReply(outcome: Outcome): Reply {
    match outcome
    case Reached(reply) => reply
    case Duplicate => Err(Cluster(1, None, false))
    case Cut(error) => Err(error)
  }

  predicate WorthRepeating(outcome: Outcome) {
    AsReply(outcome).Err? && IsRetriable(AsReply(outcome).error)
  }

  function Tagged(id: Option<MutationId>, isRetry: bool): Request {
    match id
    case Some(tag) => Request(Some(tag.id), isRetry || tag.retry)
    case None => Request(None, false)
  }

  /** The requests of a run of `n` attempts: the flag is set on every one after the first. */
  function Requests(id: Option<MutationId>, n: nat): (r: seq<Request>)
    ensures |r| == n
  {
    seq(n, k requires 0 <= k < n => Tagged(id, k > 0))
  }

  lemma RequestsSnoc(id: Option<MutationId>, n: nat)
    ensures Requests(id, n + 1) == Requests(id, n) + [Tagged(id, n > 0)]
  {
  }

  /** Attempts so far that all failed in a way worth repeating. */
  predicate Going(id: Option<MutationId>, sent: seq<Request>, seen: seq<Outcome>) {
    && |seen| == |sent| && sent == Requests(id, |sent|)
    && forall k :: 0 <= k < |seen| ==> WorthRepeating(seen[k])
  }

  /** A finished run: it went on while it was worth it, at most as often as allowed, and
      answered with what it saw last. */
  predicate Ran(policy: RetryPolicy, repeatable: Repeatable, id: Option<MutationId>,
                sent: seq<Request>, seen: seq<Outcome>, reply: Reply)
  {
    && 1 <= |sent| == |seen| <= Allowed(policy, repeatable)
    && Going(id, sent[..|sent| - 1], seen[..|seen| - 1])
    && sent == Requests(id, |sent|)
    && reply == AsReply(seen[|seen| - 1])
    && (WorthRepeating(seen[|seen| - 1]) ==> |sent| == Allowed(policy, repeatable))
  }

  lemma OneMore(id: Option<MutationId>, sent: seq<Request>, seen: seq<Outcome>, request: Request, outcome: Outcome)
    requires Going(id, sent, seen) && request == Tagged(id, |sent| > 0)
    ensures sent + [request] == Requests(id, |sent| + 1)
    ensures WorthRepeating(outcome) ==> Going(id, sent + [request], seen + [outcome])
    ensures (sent + [request])[..|sent|] == sent && (seen + [outcome])[..|seen|] == seen
  {
    RequestsSnoc(id, |sent|);
  }

  /** A failure the client saw, and one it may not see again. */
  ghost predicate FailedForNow(outcome: Outcome) {
    match outcome
    case Reached(reply) => reply.Err? && Passing(reply.error)
    case Duplicate => false
    case Cut(error) => Passing(error)
  }

  /** The answer to what was seen: the reply itself, or the failure that kept it away, a refusal
      for not being marked being one of the cluster's that nothing repeats. */
  ghost predicate Answers(reply: Reply, outcome: Outcome) {
    match outcome
    case Reached(given) => reply == given
    case Duplicate => reply.Err? && reply.error.Cluster? && !Passing(reply.error)
    case Cut(error) => reply == Err(error)
  }

  /** The whole promise of a run, whatever it met. A class that may be repeated is, up to the
      policy's attempts and for as long as each failure will pass; any other is sent once. Every
      request carries the same id, marked from the second on or all along; and the answer is to
      what was seen last. */
  ghost predicate Promised(policy: RetryPolicy, repeatable: Repeatable, id: Option<MutationId>,
                           sent: seq<Request>, seen: seq<Outcome>, reply: Reply)
  {
    && 1 <= |sent| == |seen|
    && (repeatable.Never? || repeatable.Heavy? ==> |sent| == 1)
    && |sent| <= policy.attempts
    && (forall k :: 0 <= k < |sent| - 1 ==> FailedForNow(seen[k]))
    && (repeatable.Freely? || repeatable.WithMutationId? ==> |sent| < policy.attempts ==> !FailedForNow(seen[|seen| - 1]))
    && (forall k :: 0 <= k < |sent| ==>
          sent[k] == if id.Some? then Request(Some(id.value.id), k > 0 || id.value.retry) else Request(None, false))
    && Answers(reply, seen[|seen| - 1])
  }

  lemma WorthIsFailedForNow(outcome: Outcome)
    ensures WorthRepeating(outcome) <==> FailedForNow(outcome)
    ensures Answers(AsReply(outcome), outcome)
  {
    hide IsRetriable, Passing;
    if AsReply(outcome).Err? { QuestionsExactly(AsReply(outcome).error); }
    QuestionsExactly(Cluster(1, None, false));
    UnmarkedIsFinal();
  }

  lemma UnmarkedIsFinal()
    ensures !Passing(Cluster(1, None, false))
  {
  }

  /** The loop's own bookkeeping comes to that promise. */
  lemma RanAsPromised(policy: RetryPolicy, repeatable: Repeatable, id: Option<MutationId>,
                      sent: seq<Request>, seen: seq<Outcome>, reply: Reply)
    requires policy.Valid() && Ran(policy, repeatable, id, sent, seen, reply)
    ensures Promised(policy, repeatable, id, sent, seen, reply)
  {
    hide FailedForNow, WorthRepeating, Answers, AsReply;
    var last := |seen| - 1;
    forall k | 0 <= k < |seen| ensures WorthRepeating(seen[k]) <==> FailedForNow(seen[k]) { WorthIsFailedForNow(seen[k]); }
    forall k | 0 <= k < last ensures WorthRepeating(seen[k]) { assert seen[..last][k] == seen[k]; }
    forall k | 0 <= k < |sent| ensures sent[k] == Tagged(id, k > 0) { assert Requests(id, |sent|)[k] == Tagged(id, k > 0); }
    WorthIsFailedForNow(seen[last]);
  }

  /** While every attempt fails for now, a class that may be repeated is sent as often as the policy
      allows, and the first attempt that does not answers the call. */
  lemma GoesOnUntilItIsOver(policy: RetryPolicy, repeatable: Repeatable, id: Option<MutationId>,
                            sent: seq<Request>, seen: seq<Outcome>, reply: Reply, k: nat)
    requires Promised(policy, repeatable, id, sent, seen, reply) && repeatable in {Freely, WithMutationId}
    ensures (forall j :: 0 <= j < |seen| ==> FailedForNow(seen[j])) ==> |sent| == policy.attempts
    ensures k < |seen| && !FailedForNow(seen[k]) ==> k == |sent| - 1 && Answers(reply, seen[k])
  {
  }

  /** What the network did to each attempt is what the client saw of it. */
  ghost predicate AsFated(network: Network, seen: seq<Outcome>) {
    forall k :: 0 <= k < |seen| ==>
      match network.fate(k)
      case Lost(error) => seen[k] == Cut(error)
      case AnswerLost(_, error) => seen[k] == Cut(error)
      case Delivered(_) => !seen[k].Cut?
  }

  lemma OneMoreFate(network: Network, was: Master, sent: seq<Request>, seen: seq<Outcome>, request: Request, now: Master, outcome: Outcome)
    requires AsFated(network, seen) && |seen| == |sent| && Sends(network, was, sent, request, now, outcome)
    ensures AsFated(network, seen + [outcome])
  {
    hide HandleAll, Arrivals, Handle;
  }

  /** A network that cuts the first attempts off, each for now, and lets the next one through is
      waited out: a call that may be repeated gets to that attempt. */
  lemma LossIsWaitedOut(policy: RetryPolicy, repeatable: Repeatable, id: Option<MutationId>, network: Network,
                        sent: seq<Request>, seen: seq<Outcome>, reply: Reply, k: nat)
    requires Promised(policy, repeatable, id, sent, seen, reply) && AsFated(network, seen)
    requires repeatable in {Freely, WithMutationId} && k < policy.attempts
    requires forall j :: 0 <= j < k ==> !network.fate(j).Delivered? && Passing(network.fate(j).error)
    ensures |sent| > k
  {
    hide Passing;
    forall j | 0 <= j < k && j < |seen| ensures FailedForNow(seen[j]) {
      assert seen[j] == Cut(network.fate(j).error);
    }
  }

  lemma Finished(policy: RetryPolicy, repeatable: Repeatable, id: Option<MutationId>, sent: seq<Request>, seen: seq<Outcome>,
                 request: Request, outcome: Outcome)
    requires Going(id, sent, seen) && request == Tagged(id, |sent| > 0) && |sent| + 1 <= Allowed(policy, repeatable)
    requires WorthRepeating(outcome) ==> |sent| + 1 == Allowed(policy, repeatable)
    ensures Ran(policy, repeatable, id, sent + [request], seen + [outcome], AsReply(outcome))
  {
    hide Tagged, WorthRepeating, AsReply, Requests;
    OneMore(id, sent, seen, request, outcome);
  }

  /** A run that has not ended: what it kept so far, and what it slept before the next attempt. */
  ghost predicate Underway(policy: RetryPolicy, id: Option<MutationId>, network: Network, start: Master, master: Master,
                           sent: seq<Request>, seen: seq<Outcome>, slept: Duration)
    requires policy.Valid()
  {
    && Going(id, sent, seen) && AsFated(network, seen)
    && slept == Sum(Waits(policy, |sent| + 1))
    && if sent == [] then master == start else Guarded(id, start, master, seen)
  }

  /** A run that has: it went as promised and as the network let it, slept what it should, and
      left the mutation applied at most once, with a success being the response kept for it. */
  ghost predicate Ended(policy: RetryPolicy, repeatable: Repeatable, id: Option<MutationId>, network: Network,
                        start: Master, master: Master, sent: seq<Request>, seen: seq<Outcome>, reply: Reply, slept: Duration)
    requires policy.Valid()
  {
    && Ran(policy, repeatable, id, sent, seen, reply)
    && Promised(policy, repeatable, id, sent, seen, reply)
    && AsFated(network, seen)
    && 1 <= |sent| && slept == Sum(Waits(policy, |sent|))
    && Guarded(id, start, master, seen)
    && (id.Some? ==> Kept(start, master, id.value, reply))
  }

  lemma BeginsUnderway(policy: RetryPolicy, id: Option<MutationId>, network: Network, start: Master)
    requires policy.Valid()
    ensures Underway(policy, id, network, start, start, [], [], 0)
  {
    assert Sum(Waits(policy, 1)) == 0;
  }

  /** One attempt ends the run or leaves it underway. */
  lemma Attempted(policy: RetryPolicy, repeatable: Repeatable, id: Option<MutationId>, network: Network, start: Master,
                  was: Master, sent: seq<Request>, seen: seq<Outcome>, slept: Duration, now: Master, outcome: Outcome)
    requires policy.Valid() && |sent| + 1 <= Allowed(policy, repeatable)
    requires id.Some? ==> Exclusive(network, id.value.id) && Sane(start)
    requires Underway(policy, id, network, start, was, sent, seen, slept)
    requires Sends(network, was, sent, Tagged(id, |sent| > 0), now, outcome)
    ensures var sent', seen' := sent + [Tagged(id, |sent| > 0)], seen + [outcome];
      if |sent'| >= Allowed(policy, repeatable) || !WorthRepeating(outcome)
      then Ended(policy, repeatable, id, network, start, now, sent', seen', AsReply(outcome), slept)
      else Underway(policy, id, network, start, now, sent', seen', slept + Backoff(policy, |sent'|))
  {
    hide Sends, Requests, Tagged, Sum, Waits, Backoff, WorthRepeating, Exclusive, Sane, Guarded, Kept, AsReply, Ran, Promised, AsFated;
    var request := Tagged(id, |sent| > 0);
    OneMore(id, sent, seen, request, outcome);
    OneMoreFate(network, was, sent, seen, request, now, outcome);
    AttemptKeeps(network, id, start, was, sent, seen, now, outcome);
    if |sent| + 1 >= Allowed(policy, repeatable) || !WorthRepeating(outcome) {
      Finished(policy, repeatable, id, sent, seen, request, outcome);
      RanAsPromised(policy, repeatable, id, sent + [request], seen + [outcome], AsReply(outcome));
    } else {
      WaitsSnoc(policy, |sent| + 1);
    }
  }

  /** `retry::run` with the closure `call_with` gives it. */
  method Run(policy: RetryPolicy, repeatable: Repeatable, id: Option<MutationId>, wire: Wire)
    returns (reply: Reply, slept: Duration)
    requires policy.Valid() && wire.sent == [] && wire.seen == []
    requires id.Some? ==> Exclusive(wire.network, id.value.id) && Sane(wire.master)
    modifies wire
    ensures Ended(policy, repeatable, id, wire.network, old(wire.master), wire.master, wire.sent, wire.seen, reply, slept)
  {
    hide Sends, Tagged, Backoff, WorthRepeating, Exclusive, Sane, AsReply, Underway, Ended;
    var allowed := if repeatable in {Never, Heavy} then 1 else policy.attempts;
    var attempt := 1;
    slept := 0;
    ghost var start := wire.master;
    BeginsUnderway(policy, id, wire.network, start);
    while true
      invariant 1 <= attempt <= allowed && |wire.sent| == attempt - 1
      invariant Underway(policy, id, wire.network, start, wire.master, wire.sent, wire.seen, slept)
      decreases allowed - attempt
    {
      ghost var was, sent, seen := wire.master, wire.sent, wire.seen;
      var outcome := wire.Send(Tagged(id, attempt > 1));
      Attempted(policy, repeatable, id, wire.network, start, was, sent, seen, slept, wire.master, outcome);
      if attempt >= allowed || !WorthRepeating(outcome) {
        return AsReply(outcome), slept;
      }
      slept := slept + Backoff(policy, attempt);
      attempt := attempt + 1;
    }
  }

  /** A later master that is sane and kept whatever was known under the id. */
  ghost predicate StillSane(was: Master, now: Master, id: Guid) {
    && Sane(now)
    && (id in was.known ==> id in now.known && now.known[id] == was.known[id])
  }

  /** How a tagged run leaves the master: the mutation applied at most once, and not at all if
      it was known before; and a success is the response kept for it. */
  ghost predicate Kept(was: Master, now: Master, id: MutationId, reply: Reply) {
    && StillSane(was, now, id.id)
    && Count(now.applied, id.id) <= 1
    && (reply.Ok? ==> id.id in now.known && now.known[id.id] == reply)
  }

  /** A process that persisted its id and replays it marked gets what the first run got, when
      both get an answer at all. */
  lemma ReplayReturnsTheFirst(start: Master, middle: Master, end: Master, id: MutationId, first: Reply, second: Reply)
    requires Kept(start, middle, id, first) && Kept(middle, end, AsRetry(id), second)
    ensures first.Ok? && second.Ok? ==> first == second
    ensures Count(end.applied, id.id) <= 1
  {
  }

  /** The master never refuses a replay for want of a mark, whatever it knows. */
  lemma ReplayIsNeverRefused(m: Master, id: MutationId, reply: Reply)
    ensures var again := AsRetry(id);
      && again.id == id.id && Answer(m, Delivery(Request(Some(again.id), again.retry), reply)).Reached?
      && (id.id in m.known ==> Handle(m, Delivery(Request(Some(again.id), again.retry), reply)) == m)
  {
  }

  /** A first request under an id already used is refused, and applies nothing. */
  lemma UnmarkedReuseIsRefused(m: Master, word: Guid, reply: Reply)
    requires word in m.known
    ensures var first := NewId(word);
      && Answer(m, Delivery(Request(Some(first.id), first.retry), reply)) == Duplicate
      && Handle(m, Delivery(Request(Some(first.id), first.retry), reply)) == m
  {
  }

  /** After any number of attempts under an id, the master is sane, and none of them was refused
      for not being marked if the id was fresh or marked to begin with. */
  ghost predicate Guarded(id: Option<MutationId>, start: Master, now: Master, seen: seq<Outcome>) {
    id.Some? ==>
      && StillSane(start, now, id.value.id)
      && (id.value.retry || id.value.id !in start.known ==> Duplicate !in seen)
  }

  /** One attempt of a run, on values. */
  lemma AttemptKeeps(network: Network, id: Option<MutationId>, start: Master, was: Master,
                     sent: seq<Request>, seen: seq<Outcome>, now: Master, outcome: Outcome)
    requires id.Some? ==> Exclusive(network, id.value.id) && Sane(start)
    requires Going(id, sent, seen) && Sends(network, was, sent, Tagged(id, |sent| > 0), now, outcome)
    requires if sent == [] then was == start else Guarded(id, start, was, seen)
    ensures Guarded(id, start, now, seen + [outcome])
    ensures id.Some? ==> Kept(start, now, id.value, AsReply(outcome))
  {
    if id.Some? {
      hide Sends, Going, Exclusive;
      TaggedAttempt(network, was, now, id.value, sent, outcome) by { SentIsRequests(id, sent, seen); }
    }
  }

  lemma SentIsRequests(id: Option<MutationId>, sent: seq<Request>, seen: seq<Outcome>)
    requires Going(id, sent, seen)
    ensures sent == Requests(id, |sent|)
  {
  }

  lemma TaggedAttempt(network: Network, was: Master, now: Master, id: MutationId, sent: seq<Request>, outcome: Outcome)
    requires Sane(was) && Exclusive(network, id.id) && sent == Requests(Some(id), |sent|)
    requires Sends(network, was, sent, Tagged(Some(id), |sent| > 0), now, outcome)
    ensures StillSane(was, now, id.id) && Count(now.applied, id.id) <= 1
    ensures outcome.Reached? ==> id.id in now.known && now.known[id.id] == outcome.reply
    ensures |sent| > 0 || id.retry || id.id !in was.known ==> outcome != Duplicate
  {
    hide HandleAll, Arrivals, Count;
    var n := |sent|;
    var late := Arrivals(network.strays(n), sent);
    var before := HandleAll(was, late);
    AtMostOnce(was, late, id.id);
    ArrivalsAreKnown(network.strays(n), sent, id.id);
    if n == 0 {
      assert forall k :: 0 <= k < |late| ==> late[k] in late;
    }
    if !network.fate(n).Lost? {
      var reply := network.fate(n).reply;
      HandleStaysSane(before, Delivery(Tagged(Some(id), n > 0), reply));
      NeverRefusedWhenMarkedOrFresh(before, Delivery(Tagged(Some(id), n > 0), reply));
    }
    assert Count(now.applied, id.id) <= 1;
  }

  // ---------------------------------------------------------------- one call

  /** The id a call runs under: the caller's, or a fresh one for a class that needs it. */
  function IdFor(repeatable: Repeatable, given: Option<MutationId>, minted: Guid): Option<MutationId> {
    match (repeatable, given)
    case (_, Some(id)) => Some(id)
    case (WithMutationId, None) => Some(NewId(minted))
    case _ => None
  }

  /** `call_with`, from the choice of an id to the last answer. */
  method CallWith(policy: RetryPolicy, repeatable: Repeatable, given: Option<MutationId>, minted: Guid, wire: Wire)
    returns (reply: Reply, slept: Duration)
    requires policy.Valid() && wire.sent == [] && wire.seen == [] && Sane(wire.master)
    requires minted !in wire.master.known && Exclusive(wire.network, minted)
    requires given.Some? ==> Exclusive(wire.network, given.value.id)
    modifies wire
    ensures repeatable in {Never, Heavy} ==> |wire.sent| == 1
    ensures 1 <= |wire.sent| <= policy.attempts
    ensures var id := if given.Some? then given else if repeatable.WithMutationId? then Some(MutationId(minted, false)) else None;
      Promised(policy, repeatable, id, wire.sent, wire.seen, reply)
    ensures AsFated(wire.network, wire.seen)
    ensures repeatable == WithMutationId || given.Some? ==>
      var id := if given.Some? then given.value else NewId(minted);
      && wire.sent == Requests(Some(id), |wire.sent|)
      && Kept(old(wire.master), wire.master, id, reply)
      && (given.None? || id.retry || id.id !in old(wire.master).known ==> Duplicate !in wire.seen)
    ensures slept <= (|wire.sent| - 1) * policy.maxBackoff
  {
    hide Sum, Waits, Sane, Count, Exclusive, Kept, Promised, AsFated;
    var id := IdFor(repeatable, given, minted);
    reply, slept := Run(policy, repeatable, id, wire);
    SleepIsBounded(policy, |wire.sent|);
  }
}
