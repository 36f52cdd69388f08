/** A batch split over several requests, each sent again as its class allows, over one cluster and
    one stretch of time in which everything that arrives may interleave. */
module BatchWhole {
  import opened Text
  import opened Retrying
  import opened Mutations
  import opened BatchRuns
  import opened Batch

  /** One request of a batch: its parts, and every attempt made to send it. */
  datatype Sending = Sending(kinds: seq<PartKind>, attempts: seq<Request>)

  /** Something that happens at the cluster on behalf of one of them. */
  datatype Happening = Happening(sending: nat, event: Event)

  /** The master, and the parts it applied: which request's, and which part of it. */
  datatype Whole = Whole(master: Master, applied: seq<(nat, nat)>)

  function Numbered(sending: nat, parts: seq<nat>): (r: seq<(nat, nat)>)
    ensures |r| == |parts|
  {
    seq(|parts|, i requires 0 <= i < |parts| => (sending, parts[i]))
  }

  function WholeStep(w: Whole, h: Happening, sendings: seq<Sending>): Whole {
    if h.sending >= |sendings| then w
    else
      var s := sendings[h.sending];
      var c := Step(Cluster(w.master, []), h.event, s.kinds, s.attempts);
      Whole(c.master, w.applied + Numbered(h.sending, c.applied))
  }

  function RunWhole(m: Master, hs: seq<Happening>, sendings: seq<Sending>): Whole {
    if hs == [] then Whole(m, []) else WholeStep(RunWhole(m, hs[..|hs| - 1], sendings), hs[|hs| - 1], sendings)
  }

  /** The parts of one request among those applied. */
  function Of(applied: seq<(nat, nat)>, j: nat): seq<nat> {
    if applied == [] then []
    else
      var last := applied[|applied| - 1];
      Of(applied[..|applied| - 1], j) + if last.0 == j then [last.1] else []
  }

  /** What one request's event is to another request: a stranger's delivery, or nothing. */
  function Strange(e: Event, s: Sending): seq<Event> {
    if e.Foreign? then [e]
    else if Volatile(e, s.kinds, s.attempts) then
      [Event.Foreign(Delivery(PartRequest(s.kinds[e.part], s.attempts[e.attempt], e.part), e.reply))]
    else []
  }

  /** Everything that happens, as one request sees it. */
  function View(hs: seq<Happening>, j: nat, sendings: seq<Sending>): seq<Event> {
    if hs == [] then []
    else
      var h := hs[|hs| - 1];
      View(hs[..|hs| - 1], j, sendings)
      + if h.sending == j then [h.event] else if h.sending < |sendings| then Strange(h.event, sendings[h.sending]) else []
  }

  lemma OfConcat(applied: seq<(nat, nat)>, sending: nat, parts: seq<nat>, j: nat)
    requires |parts| <= 1
    ensures Of(applied + Numbered(sending, parts), j) == Of(applied, j) + if sending == j then parts else []
  {
    var more := Numbered(sending, parts);
    if parts == [] {
      assert applied + more == applied;
    } else {
      assert (applied + more)[..|applied|] == applied;
      assert parts == [parts[0]];
    }
  }

  /** A step adds to what was applied, and looks only at the master. */
  lemma StepAdds(c: Cluster, e: Event, kinds: seq<PartKind>, sent: seq<Request>)
    ensures var alone := Step(Cluster(c.master, []), e, kinds, sent);
      |alone.applied| <= 1 && Step(c, e, kinds, sent) == Cluster(alone.master, c.applied + alone.applied)
  {
    hide Handle;
    assert c.applied + [] == c.applied;
  }

  lemma StrangeStep(c: Cluster, e: Event, s: Sending, own: Sending)
    ensures var r := RunAll(c, Strange(e, s), own.kinds, own.attempts);
      r == Cluster(Step(Cluster(c.master, []), e, s.kinds, s.attempts).master, c.applied)
  {
    hide Handle, PartRequest;
    var seen := Strange(e, s);
    if seen != [] { assert seen[..0] == []; }
  }

  lemma OneStep(c: Cluster, e: Event, own: Sending)
    ensures RunAll(c, [e], own.kinds, own.attempts) == Step(c, e, own.kinds, own.attempts)
  {
    hide Step;
    assert [e][..0] == [];
  }

  /** To each request of a batch, everything else is strangers. */
  lemma {:induction false} ViewIsTheRun(m: Master, hs: seq<Happening>, j: nat, sendings: seq<Sending>)
    requires j < |sendings|
    ensures var w, own := RunWhole(m, hs, sendings), sendings[j];
      RunAll(Cluster(m, []), View(hs, j, sendings), own.kinds, own.attempts) == Cluster(w.master, Of(w.applied, j))
  {
    if hs != [] {
      hide Step, RunAll, Of, Numbered, Strange;
      var front, h := hs[..|hs| - 1], hs[|hs| - 1];
      ViewIsTheRun(m, front, j, sendings);
      var own, before := sendings[j], View(front, j, sendings);
      var was := RunWhole(m, front, sendings);
      var c := Cluster(was.master, Of(was.applied, j));
      if h.sending < |sendings| {
        var s := sendings[h.sending];
        var alone := Step(Cluster(was.master, []), h.event, s.kinds, s.attempts);
        StepAdds(c, h.event, s.kinds, s.attempts);
        OfConcat(was.applied, h.sending, alone.applied, j);
        if h.sending == j {
          OneStep(c, h.event, own);
          RunsOn(Cluster(m, []), before, [h.event], own);
        } else {
          StrangeStep(c, h.event, s, own);
          RunsOn(Cluster(m, []), before, Strange(h.event, s), own);
          assert Of(was.applied, j) + [] == Of(was.applied, j);
        }
      } else {
        assert before + [] == before;
      }
    }
  }

  lemma RunsOn(c: Cluster, es: seq<Event>, more: seq<Event>, own: Sending)
    ensures RunAll(c, es + more, own.kinds, own.attempts) == RunAll(RunAll(c, es, own.kinds, own.attempts), more, own.kinds, own.attempts)
  {
    RunSplits(c, es + more, |es|, own.kinds, own.attempts);
    assert (es + more)[..|es|] == es && (es + more)[|es|..] == more;
  }

  lemma {:induction false} PieceIsInWhole<T>(pieces: seq<seq<T>>, j: nat, k: nat)
    requires j < |pieces| && k < |pieces[j]|
    ensures pieces[j][k] in Flatten(pieces)
  {
    var last := |pieces| - 1;
    if j < last { PieceIsInWhole(pieces[..last], j, k); }
  }

  lemma KindsAreTheBatchs(sent: seq<seq<Part>>, parts: seq<Part>, size: nat, j: nat)
    requires AreChunks(sent, parts, size) && j < |sent|
    ensures forall kind :: kind in Kinds(sent[j]) ==> kind in Kinds(parts)
  {
    forall kind | kind in Kinds(sent[j]) ensures kind in Kinds(parts) {
      var k :| 0 <= k < |sent[j]| && Kinds(sent[j])[k] == kind;
      PieceIsInWhole(sent, j, k);
      var i :| 0 <= i < |Flatten(sent)| && Flatten(sent)[i] == sent[j][k];
      assert parts[i] == sent[j][k] && Kinds(parts)[i] == kind;
    }
  }

  /** The requests that went out, as the retry loop may have sent each of them. */
  ghost predicate AreSendings(sendings: seq<Sending>, sent: seq<seq<Part>>, posts: seq<Post>, policy: RetryPolicy, minted: nat -> Guid) {
    && |sendings| == |sent| == |posts|
    && forall j :: 0 <= j < |sent| ==>
         && sendings[j].kinds == Kinds(sent[j])
         && 1 <= |sendings[j].attempts| <= Allowed(policy, posts[j].repeatable)
         && sendings[j].attempts == Requests(IdFor(posts[j].repeatable, posts[j].id, minted(j)), |sendings[j].attempts|)
  }

  /** A whole batch as `ExecuteBatchWith` sends it, however it is split, however often the retry
      loop sends each request, and however all of it interleaves at the cluster with itself and
      with strangers: no raw part goes out twice, no tagged master mutation is applied twice, and
      over a network that makes no copies no part at all is. */
  lemma NoPartOfABatchTwice(parts: seq<Part>, size: nat, concurrency: Option<nat>, transaction: Option<string>,
                            id: Option<MutationId>, sent: seq<seq<Part>>, posts: seq<Post>, policy: RetryPolicy,
                            sendings: seq<Sending>, minted: nat -> Guid, m: Master, hs: seq<Happening>, j: nat, k: nat)
    requires AreChunks(sent, parts, size) && ArePosts(posts, sent, parts, concurrency, transaction, id)
    requires AreSendings(sendings, sent, posts, policy, minted)
    requires j < |sent| && k < |sent[j]|
    ensures sent[j][k].kind == Raw ==> |sendings[j].attempts| == 1
    ensures NoCopies(View(hs, j, sendings)) || (sent[j][k].kind == MasterMutation && sendings[j].attempts[0].id.Some?) ==>
      Times(Of(RunWhole(m, hs, sendings).applied, j), k) <= 1
  {
    hide RunWhole, RunAll, View, ClassOf, NoCopies, Times, Flatten, RenderChunk;
    KindsAreTheBatchs(sent, parts, size, j);
    assert posts[j].repeatable == ClassOf(Kinds(parts)) && posts[j].id == id;
    assert Kinds(sent[j])[k] == sent[j][k].kind;
    ViewIsTheRun(m, hs, j, sendings);
    NoPartTwice(policy, Kinds(parts), Kinds(sent[j]), id, minted(j), m, sendings[j].attempts, View(hs, j, sendings), k);
  }
}
