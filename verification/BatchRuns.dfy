/** What a batch does to the cluster when the request carrying it is sent again. The driver
    gives the k-th part the batch's id plus k, and runs the parts in any order. */
module BatchRuns {
  import opened Text
  import opened Retrying
  import opened Mutations

  datatype PartKind = Read | MasterMutation | Raw

  /** `BatchRequest::repeatable`: as the most cautious of the parts. */
  function ClassOf(kinds: seq<PartKind>): Repeatable {
    if exists i :: 0 <= i < |kinds| && kinds[i] == Raw then Never
    else if exists i :: 0 <= i < |kinds| && kinds[i] == MasterMutation then WithMutationId
    else Freely
  }

  /** Classes from the boldest to the most cautious. */
  function Caution(class_: Repeatable): nat {
    match class_
    case Freely => 0
    case WithMutationId => 1
    case Never => 2
    case Heavy => 3
  }

  function KindCaution(kind: PartKind): nat {
    match kind
    case Read => 0
    case MasterMutation => 1
    case Raw => 2
  }

  /** The class is the least upper bound of its parts, so it depends neither on their order nor
      on how often a kind occurs, and more parts never make it bolder. */
  lemma ClassIsLeastUpperBound(kinds: seq<PartKind>, class_: Repeatable)
    requires class_ != Heavy
    ensures ClassOf(kinds) == class_ <==>
      && (forall i :: 0 <= i < |kinds| ==> KindCaution(kinds[i]) <= Caution(class_))
      && (class_ != Freely ==> exists i :: 0 <= i < |kinds| && KindCaution(kinds[i]) == Caution(class_))
  {
  }

  lemma ClassIgnoresOrder(one: seq<PartKind>, other: seq<PartKind>)
    requires forall kind :: kind in one <==> kind in other
    ensures ClassOf(one) == ClassOf(other)
  {
    assert Raw in one <==> Raw in other;
    assert MasterMutation in one <==> MasterMutation in other;
  }

  lemma MorePartsAreNoBolder(kinds: seq<PartKind>, more: seq<PartKind>)
    ensures Caution(ClassOf(kinds)) <= Caution(ClassOf(kinds + more))
    ensures Caution(ClassOf(more)) <= Caution(ClassOf(kinds + more))
    ensures Caution(ClassOf(kinds + more)) in {Caution(ClassOf(kinds)), Caution(ClassOf(more))}
  {
    var both := kinds + more;
    assert forall i :: 0 <= i < |kinds| ==> both[i] == kinds[i];
    assert forall i :: 0 <= i < |more| ==> both[|kinds| + i] == more[i];
  }

  // ---------------------------------------------------------------- parts at the master

  /** One thing that happens at the cluster: a part of some copy of an attempt runs, with the
      response it would have, or somebody else's request arrives. */
  datatype Event = Executed(attempt: nat, part: nat, reply: Reply) | Foreign(delivery: Delivery)

  /** How a volatile part reaches the master: under an id of its own where the batch has one and
      the master keeps a record of its kind. */
  function PartRequest(kind: PartKind, request: Request, part: nat): Request {
    match (kind, request.id)
    case (MasterMutation, Some(id)) => Request(Some(id + part), request.retry)
    case _ => Request(None, false)
  }

  datatype Cluster = Cluster(master: Master, applied: seq<nat>)

  predicate Volatile(e: Event, kinds: seq<PartKind>, sent: seq<Request>) {
    e.Executed? && e.attempt < |sent| && e.part < |kinds| && kinds[e.part] != Read
  }

  /** A part of an attempt nobody made does not run, and one that only reads changes nothing. */
  function Step(c: Cluster, e: Event, kinds: seq<PartKind>, sent: seq<Request>): Cluster {
    if e.Foreign? then c.(master := Handle(c.master, e.delivery))
    else if !Volatile(e, kinds, sent) then c
    else
      var d := Delivery(PartRequest(kinds[e.part], sent[e.attempt], e.part), e.reply);
      Cluster(Handle(c.master, d), if Applies(c.master, d.request) then c.applied + [e.part] else c.applied)
  }

  function RunAll(c: Cluster, es: seq<Event>, kinds: seq<PartKind>, sent: seq<Request>): Cluster {
    if es == [] then c else Step(RunAll(c, es[..|es| - 1], kinds, sent), es[|es| - 1], kinds, sent)
  }

  /** How often a part has been applied. */
  function Times(applied: seq<nat>, part: nat): nat {
    if applied == [] then 0 else Times(applied[..|applied| - 1], part) + if applied[|applied| - 1] == part then 1 else 0
  }

  lemma TimesSnoc(applied: seq<nat>, next: nat, part: nat)
    ensures Times(applied + [next], part) == Times(applied, part) + if next == part then 1 else 0
  {
    assert (applied + [next])[..|applied|] == applied;
  }

  /** The network made no copy of a request, so no attempt runs one part twice. */
  predicate NoCopies(es: seq<Event>) {
    forall i, j :: 0 <= i < j < |es| && es[i].Executed? && es[j].Executed? && es[i].attempt == es[j].attempt
      ==> es[i].part != es[j].part
  }

  lemma SentAt(id: Option<MutationId>, sent: seq<Request>, k: nat)
    requires k < |sent| && sent == Requests(id, |sent|)
    ensures sent[k] == Tagged(id, k > 0)
  {
    assert Requests(id, |sent|)[k] == Tagged(id, k > 0);
  }

  /** Applied at most once so far, and known from then on. */
  predicate OnceKnown(m: Master, now: Cluster, tag: Guid, part: nat) {
    && Times(now.applied, part) <= 1
    && (Times(now.applied, part) == 1 ==> tag in now.master.known && tag !in m.known)
    && (tag in m.known ==> tag in now.master.known)
  }

  lemma RecognisedStep(m: Master, was: Cluster, e: Event, kinds: seq<PartKind>, sent: seq<Request>, id: MutationId, part: nat)
    requires sent == Requests(Some(id), |sent|) && part < |kinds| && kinds[part] == MasterMutation
    requires OnceKnown(m, was, id.id + part, part)
    ensures OnceKnown(m, Step(was, e, kinds, sent), id.id + part, part)
  {
    hide Times;
    if Volatile(e, kinds, sent) {
      SentAt(Some(id), sent, e.attempt);
      TimesSnoc(was.applied, e.part, part);
    }
  }

  /** A part the master can recognise is applied once however often it arrives: by then its id is
      known. */
  lemma {:induction false} RecognisedOnce(m: Master, es: seq<Event>, kinds: seq<PartKind>, sent: seq<Request>, id: MutationId, part: nat)
    requires sent == Requests(Some(id), |sent|) && part < |kinds| && kinds[part] == MasterMutation
    ensures OnceKnown(m, RunAll(Cluster(m, []), es, kinds, sent), id.id + part, part)
  {
    if es != [] {
      hide Step;
      RecognisedOnce(m, es[..|es| - 1], kinds, sent, id, part);
      RecognisedStep(m, RunAll(Cluster(m, []), es[..|es| - 1], kinds, sent), es[|es| - 1], kinds, sent, id, part);
    }
  }

  /** A part sent once and not copied on the way runs at most once. */
  lemma {:induction false} UncopiedOnce(m: Master, es: seq<Event>, kinds: seq<PartKind>, sent: seq<Request>, part: nat)
    requires |sent| == 1 && NoCopies(es)
    ensures var now := RunAll(Cluster(m, []), es, kinds, sent);
      && Times(now.applied, part) <= 1
      && (Times(now.applied, part) == 1 ==> exists i :: 0 <= i < |es| && es[i].Executed? && es[i].attempt == 0 && es[i].part == part)
  {
    if es != [] {
      var last := |es| - 1;
      var front, e := es[..last], es[last];
      UncopiedOnce(m, front, kinds, sent, part);
      var was := RunAll(Cluster(m, []), front, kinds, sent);
      if Volatile(e, kinds, sent) {
        TimesSnoc(was.applied, e.part, part);
        assert e.part == part ==> es[last].Executed? && es[last].attempt == 0 && es[last].part == part;
      }
      if Times(was.applied, part) == 1 {
        var i :| 0 <= i < |front| && front[i].Executed? && front[i].attempt == 0 && front[i].part == part;
        assert es[i] == front[i];
      }
    }
  }

  lemma {:induction false} ReadsApplyNothing(m: Master, es: seq<Event>, kinds: seq<PartKind>, sent: seq<Request>, part: nat)
    requires part < |kinds| ==> kinds[part] == Read
    ensures Times(RunAll(Cluster(m, []), es, kinds, sent).applied, part) == 0
  {
    if es != [] {
      var front, e := es[..|es| - 1], es[|es| - 1];
      ReadsApplyNothing(m, front, kinds, sent, part);
      if Volatile(e, kinds, sent) {
        TimesSnoc(RunAll(Cluster(m, []), front, kinds, sent).applied, e.part, part);
      }
    }
  }

  /** The promise of the batch's class, for any batch, any of its parts that travel in one request
      and any run the retry loop can make of that: a raw part goes out once; a tagged master
      mutation is applied at most once even if the network copies requests; and without copies
      that holds of every part. */
  lemma NoPartTwice(policy: RetryPolicy, batch: seq<PartKind>, kinds: seq<PartKind>, given: Option<MutationId>, minted: Guid,
                    m: Master, sent: seq<Request>, es: seq<Event>, part: nat)
    requires var id := IdFor(ClassOf(batch), given, minted);
      1 <= |sent| <= Allowed(policy, ClassOf(batch)) && sent == Requests(id, |sent|)
    requires part < |kinds| && forall kind :: kind in kinds ==> kind in batch
    ensures kinds[part] == Raw ==> |sent| == 1
    ensures kinds[part] == MasterMutation && |sent| > 1 ==> forall k :: 0 <= k < |sent| ==> sent[k].id.Some?
    ensures var now := RunAll(Cluster(m, []), es, kinds, sent);
      NoCopies(es) || (kinds[part] == MasterMutation && sent[0].id.Some?) ==> Times(now.applied, part) <= 1
  {
    var id := IdFor(ClassOf(batch), given, minted);
    assert kinds[part] in batch;
    SentAt(id, sent, 0);
    forall k | 0 <= k < |sent| ensures id.Some? ==> sent[k].id.Some? { SentAt(id, sent, k); }
    if kinds[part] == Read {
      ReadsApplyNothing(m, es, kinds, sent, part);
    } else if kinds[part] == MasterMutation && id.Some? {
      RecognisedOnce(m, es, kinds, sent, id.value, part);
    } else if NoCopies(es) {
      UncopiedOnce(m, es, kinds, sent, part);
    }
  }

  /** A bolder class would not do: sent freely, one mutation is applied twice. */
  lemma BolderWouldNotDo(m: Master, reply: Reply)
    ensures var sent := Requests(None, 2);
      Times(RunAll(Cluster(m, []), [Executed(0, 0, reply), Executed(1, 0, reply)], [MasterMutation], sent).applied, 0) == 2
  {
    var kinds, sent := [MasterMutation], Requests(None, 2);
    var es := [Executed(0, 0, reply), Executed(1, 0, reply)];
    var first := [es[0]];
    assert es[..1] == first && first[..0] == [];
    assert RunAll(Cluster(m, []), first, kinds, sent) == Step(Cluster(m, []), es[0], kinds, sent);
    SentAt(None, sent, 0);
    SentAt(None, sent, 1);
    var one := RunAll(Cluster(m, []), es[..1], kinds, sent);
    assert one.applied == [] + [0];
    TimesSnoc([], 0, 0);
    TimesSnoc(one.applied, 0, 0);
  }

  // ---------------------------------------------------------------- and what the parts answer

  lemma {:induction false} KnownStays(c: Cluster, es: seq<Event>, kinds: seq<PartKind>, sent: seq<Request>, id: Guid)
    requires id in c.master.known
    ensures var now := RunAll(c, es, kinds, sent); id in now.master.known && now.master.known[id] == c.master.known[id]
  {
    if es != [] { KnownStays(c, es[..|es| - 1], kinds, sent, id); }
  }

  lemma {:induction false} RunSplits(c: Cluster, es: seq<Event>, k: nat, kinds: seq<PartKind>, sent: seq<Request>)
    requires k <= |es|
    ensures RunAll(c, es, kinds, sent) == RunAll(RunAll(c, es[..k], kinds, sent), es[k..], kinds, sent)
  {
    if k < |es| {
      var last := |es| - 1;
      RunSplits(c, es[..last], k, kinds, sent);
      assert es[..last][..k] == es[..k];
      assert es[k..][..last - k] == es[..last][k..];
    } else {
      assert es[..k] == es;
    }
  }

  /** What the k-th event is answered, when it runs a part of a batch under `id`. */
  function AnswerTo(c: Cluster, es: seq<Event>, k: nat, kinds: seq<PartKind>, sent: seq<Request>): Outcome
    requires k < |es| && Volatile(es[k], kinds, sent)
  {
    var e := es[k];
    Answer(RunAll(c, es[..k], kinds, sent).master, Delivery(PartRequest(kinds[e.part], sent[e.attempt], e.part), e.reply))
  }

  /** Whichever attempt's answer gets through, a part under an id answers one thing: every two
      responses to it are the same, and a retry is never refused. */
  lemma OneAnswerPerPart(c: Cluster, es: seq<Event>, i: nat, j: nat, kinds: seq<PartKind>, sent: seq<Request>, id: MutationId)
    requires sent == Requests(Some(id), |sent|) && i < j < |es|
    requires Volatile(es[i], kinds, sent) && Volatile(es[j], kinds, sent)
    requires es[i].part == es[j].part && kinds[es[i].part] == MasterMutation
    ensures var one, other := AnswerTo(c, es, i, kinds, sent), AnswerTo(c, es, j, kinds, sent);
      && (one.Reached? && other.Reached? ==> one == other)
      && (es[j].attempt > 0 ==> other.Reached?)
  {
    var tag := id.id + es[i].part;
    SentAt(Some(id), sent, es[i].attempt);
    SentAt(Some(id), sent, es[j].attempt);
    var after := RunAll(c, es[..i + 1], kinds, sent);
    assert es[..i + 1][..i] == es[..i];
    assert after == Step(RunAll(c, es[..i], kinds, sent), es[i], kinds, sent);
    assert tag in after.master.known;
    RunSplits(c, es[..j], i + 1, kinds, sent);
    assert es[..j][..i + 1] == es[..i + 1];
    KnownStays(after, es[..j][i + 1..], kinds, sent, tag);
  }
}
