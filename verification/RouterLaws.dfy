/** What the router does, said of every run and read off its log alone: when the cluster is asked,
    what its answer leaves, where a command goes, and which failures cost a host its place. */
module RouterLaws {
  import opened Text
  import opened HostNames
  import opened Retrying
  import opened Router
  import opened RouterRuns
  import Failures

  // ---------------------------------------------------------------- where a cell stands, by its log

  /** How a cell was last left: never asked for, with hosts in use, on the configured address, or
      resting until a deadline, which may be one no clock reaches. */
  datatype Standing = NeverAsked | InPool | OnConfigured | Resting(until: Option<Instant>)

  /** What a lookup makes of a standing. */
  ghost function AfterLookup(was: Standing, conf: Settings, end: Instant, lookup: Lookup): Standing {
    if SomeUsable(conf, lookup) || was.InPool? then InPool
    else if lookup.Failed? && Failures.WrongAddress(lookup.error) then Resting(Deadline(end, conf.retryAfter))
    else OnConfigured
  }

  ghost function StandingOf(log: seq<Entry>, c: nat): Standing {
    if log == [] then NeverAsked
    else
      var was, e := StandingOf(log[..|log| - 1], c), log[|log| - 1];
      if e.Looked? && e.cell == c then AfterLookup(was, e.conf, e.end, e.lookup)
      else if e.Dropped? && e.cell == c && e.emptied then Resting(Deadline(e.at, e.conf.retryAfter))
      else was
  }

  /** A lookup is due when there was none; when a rest is over; or when the asker's own interval
      has passed since the end of the last one. */
  ghost predicate LookupIsDue(log: seq<Entry>, c: nat, refresh: Duration, asked: Instant) {
    var past := Lookups(log, c);
    || past == []
    || match StandingOf(log, c)
       case Resting(until) => until.Some? && until.value <= asked
       case _ => past[|past| - 1].1 + refresh <= asked
  }

  // ---------------------------------------------------------------- the cells stand so

  predicate StandsAs(state: HeavyProxy, standing: Standing) {
    match state
    case Unasked => standing.NeverAsked?
    case Pool(_, _) => standing.InPool?
    case Configured(_) => standing.OnConfigured?
    case FellBack(until) => standing == Resting(until)
  }

  /** A pool and a decline are as old as the last lookup. */
  predicate Timed(state: HeavyProxy, past: seq<(Instant, Instant)>) {
    && (state.Unasked? <==> past == [])
    && (state.Pool? ==> past != [] && state.fetched == past[|past| - 1].1)
    && (state.Configured? ==> past != [] && state.asked == past[|past| - 1].1)
  }

  ghost predicate Told(w: World, c: nat) {
    if c < |w.cells| then StandsAs(w.cells[c], StandingOf(w.log, c)) && Timed(w.cells[c], Lookups(w.log, c))
    else StandingOf(w.log, c) == NeverAsked && Lookups(w.log, c) == []
  }

  lemma StandingSnoc(log: seq<Entry>, on: bool, e: Entry, c: nat)
    ensures StandingOf(log + (if on then [e] else []), c) ==
      if on && e.Looked? && e.cell == c then AfterLookup(StandingOf(log, c), e.conf, e.end, e.lookup)
      else if on && e.Dropped? && e.cell == c && e.emptied then Resting(Deadline(e.at, e.conf.retryAfter))
      else StandingOf(log, c)
  {
    hide AfterLookup;
    if on { assert (log + [e])[..|log|] == log; } else { assert log + [] == log; }
  }

  lemma StandingAfterPlacing(log: seq<Entry>, state: HeavyProxy, cell: nat, conf: Settings, e: Event, c: nat)
    requires e.Command? && state.Valid()
    ensures StandingOf(log + Placing(state, cell, conf, e), c) ==
      if c == cell && Due(state, conf, e.asked) then AfterLookup(StandingOf(log, c), conf, e.settled, e.lookup)
      else StandingOf(log, c)
  {
    hide Routed, Due, Usable, Declines, StandingOf, AfterLookup;
    var placed := Placed(Routed(state, conf, e.asked, e.lookup, e.settled), conf, e.word);
    var due, declines := Due(state, conf, e.asked), Declines(state, conf, e.lookup);
    var looked := Looked(cell, conf, e.asked, e.settled, e.lookup);
    var handed := Handed(cell, conf, placed.address);
    var one := log + if due then [looked] else [];
    var two := one + if declines then [Declined(cell)] else [];
    StandingSnoc(log, due, looked, c);
    StandingSnoc(one, declines, Declined(cell), c);
    StandingSnoc(two, placed.Discovered?, handed, c);
    assert log + Placing(state, cell, conf, e) == two + if placed.Discovered? then [handed] else [];
  }

  /** What a lookup leaves, in the words of the log. */
  lemma SettledAsTold(state: HeavyProxy, standing: Standing, conf: Settings, lookup: Lookup, at: Instant)
    requires StandsAs(state, standing)
    ensures StandsAs(Settle(state, conf, lookup, at), AfterLookup(standing, conf, at, lookup))
    ensures Settle(state, conf, lookup, at) ==
      if SomeUsable(conf, lookup) then Pool(Usable(conf, lookup.names), at)
      else if state.Pool? then Pool(state.hosts, at)
      else if lookup.Failed? && Failures.WrongAddress(lookup.error) then FellBack(Deadline(at, conf.retryAfter))
      else Configured(at)
  {
    hide Usable, SomeUsable, Settle, Failures.WrongAddress;
    SettleSpelledOut(state, conf, lookup, at);
  }

  lemma CommandIsTold(w: World, e: Event, c: nat)
    requires Sound(w) && Enabled(w, e) && Told(w, c)
    requires e.Command? && e.repeatable == Heavy && w.clients[e.client].conf.discovery
    ensures Told(Step(w, e), c)
  {
    hide Due, Declines, Settle, Placing, StandingOf, AfterLookup, Lookups, StandsAs;
    var Client(cell, conf) := w.clients[e.client];
    var state := w.cells[cell];
    StandingAfterPlacing(w.log, state, cell, conf, e, c);
    PlacingWrites(w.log, state, cell, conf, e, c);
    PastParts(w.log, c);
    PastParts(Step(w, e).log, c);
    if c == cell {
      SettledAsTold(state, StandingOf(w.log, c), conf, e.lookup, e.settled);
      if Due(state, conf, e.asked) {
        var past := Lookups(w.log, c);
        assert (past + [(e.asked, e.settled)])[|past|].1 == e.settled;
      } else {
        assert Lookups(w.log, c) + [] == Lookups(w.log, c);
      }
    }
  }

  lemma BlamedAsTold(state: HeavyProxy, standing: Standing, conf: Settings, address: string, at: Instant)
    requires StandsAs(state, standing) && state.Valid()
    ensures StandsAs(Blamed(state, conf, address, at), if Empties(state, address) then Resting(Deadline(at, conf.retryAfter)) else standing)
    ensures Blamed(state, conf, address, at) ==
      if !state.Pool? then state
      else if Empties(state, address) then FellBack(Deadline(at, conf.retryAfter))
      else Pool(Without(state.hosts, address), state.fetched)
  {
  }

  lemma FinishIsTold(w: World, e: Event, c: nat)
    requires Sound(w) && Enabled(w, e) && Told(w, c) && e.Finish?
    ensures Told(Step(w, e), c)
  {
    hide Blames, Blamed, Empties, StandingOf, Lookups, StandsAs;
    var Client(cell, conf) := w.clients[e.client];
    var r := Step(w, e);
    if r.log != w.log {
      var dropped := r.log[|w.log|];
      StandingSnoc(w.log, true, dropped, c);
      Snoc(w.log, dropped, c);
      assert Lookups(w.log, c) + [] == Lookups(w.log, c);
      if c == cell {
        BlamedAsTold(w.cells[c], StandingOf(w.log, c), conf, e.destination.address, e.at);
      }
    }
  }

  lemma SetupIsTold(w: World, e: Event, c: nat)
    requires Sound(w) && Enabled(w, e) && Told(w, c) && !e.Command? && !e.Finish?
    ensures Told(Step(w, e), c)
  {
    hide StandingOf, Lookups;
  }

  lemma LightIsTold(w: World, e: Event, c: nat)
    requires Sound(w) && Enabled(w, e) && Told(w, c) && e.Command?
    requires e.repeatable != Heavy || !w.clients[e.client].conf.discovery
    ensures Told(Step(w, e), c)
  {
    hide StandingOf, Lookups;
  }

  /** In every run the log tells how each cell stands. */
  lemma {:induction false} ToldAlways(events: seq<Event>, c: nat)
    requires Run(events).Some?
    ensures Told(Run(events).value, c)
  {
    hide Step, Told;
    if events == [] {
      StartIsTold(c);
    } else {
      var front, e := events[..|events| - 1], events[|events| - 1];
      ToldAlways(front, c);
      var w := Run(front).value;
      if e.Finish? {
        FinishIsTold(w, e, c);
      } else if !e.Command? {
        SetupIsTold(w, e, c);
      } else if e.repeatable == Heavy && w.clients[e.client].conf.discovery {
        CommandIsTold(w, e, c);
      } else {
        LightIsTold(w, e, c);
      }
    }
  }

  lemma StartIsTold(c: nat)
    ensures Told(Start, c)
  {
  }

  // ---------------------------------------------------------------- a command, by the log alone

  /** The last lookup of a cell is over by now. */
  lemma LastIsOver(events: seq<Event>, c: nat)
    requires Run(events).Some? && c < |Run(events).value.cells|
    ensures var w := Run(events).value; var past := Lookups(w.log, c); past != [] ==> past[|past| - 1].1 <= w.now
  {
    hide Step, Lookups, Run;
    QuietAlways(events, c, 0);
    PastParts(Run(events).value.log, c);
  }

  lemma DueIsDue(state: HeavyProxy, log: seq<Entry>, c: nat, conf: Settings, asked: Instant)
    requires StandsAs(state, StandingOf(log, c)) && Timed(state, Lookups(log, c))
    requires var past := Lookups(log, c); past != [] ==> past[|past| - 1].1 <= asked
    ensures Due(state, conf, asked) <==> LookupIsDue(log, c, conf.refresh, asked)
  {
    hide StandingOf, Lookups;
  }

  /** In every run, a heavy command of a transport that discovers asks the cluster exactly when a
      lookup is due by the log; and then it asks once, for its own cell. */
  lemma AsksExactlyWhenDue(events: seq<Event>, e: Event, c: nat)
    requires Run(events).Some? && Enabled(Run(events).value, e)
    requires e.Command? && e.repeatable == Heavy && Run(events).value.clients[e.client].conf.discovery
    ensures var w := Run(events).value;
      var Client(cell, conf) := w.clients[e.client];
      Lookups(Step(w, e).log, c) == Lookups(w.log, c) +
        if c == cell && LookupIsDue(w.log, c, conf.refresh, e.asked) then [(e.asked, e.settled)] else []
  {
    hide Run, Due, Declines, Routed, Placing, StandingOf, Lookups, LookupIsDue;
    var w := Run(events).value;
    var Client(cell, conf) := w.clients[e.client];
    PlacingWrites(w.log, w.cells[cell], cell, conf, e, c);
    PastParts(w.log, c);
    PastParts(Step(w, e).log, c);
    assert Lookups(w.log, c) + [] == Lookups(w.log, c);
    if c == cell {
      ToldAlways(events, c);
      LastIsOver(events, c);
      DueIsDue(w.cells[c], w.log, c, conf, e.asked);
    }
  }

  /** What such a command leaves in its cell: nothing new where no lookup was due. Else an answer
      with a usable name replaces the pool; any other answer keeps the pool it finds, counting its
      age from now; and where there is none, a failure that is about the address rests the cell
      for the retry interval and anything else leaves it on the configured address. */
  lemma LeavesInItsCell(events: seq<Event>, e: Event)
    requires Run(events).Some? && Enabled(Run(events).value, e)
    requires e.Command? && e.repeatable == Heavy && Run(events).value.clients[e.client].conf.discovery
    ensures var w := Run(events).value;
      var Client(c, conf) := w.clients[e.client];
      var was, now := w.cells[c], Step(w, e).cells[c];
      now ==
        if !LookupIsDue(w.log, c, conf.refresh, e.asked) then was
        else if SomeUsable(conf, e.lookup) then Pool(Usable(conf, e.lookup.names), e.settled)
        else if was.Pool? then Pool(was.hosts, e.settled)
        else if e.lookup.Failed? && Failures.WrongAddress(e.lookup.error) then FellBack(Deadline(e.settled, conf.retryAfter))
        else Configured(e.settled)
    ensures var w := Run(events).value;
      && Step(w, e).clients == w.clients && |Step(w, e).cells| == |w.cells|
      && forall c :: 0 <= c < |w.cells| && c != w.clients[e.client].cell ==> Step(w, e).cells[c] == w.cells[c]
  {
    hide Run, Due, Declines, Settle, Placing, StandingOf, Lookups, LookupIsDue, SomeUsable, Usable, Failures.WrongAddress;
    var w := Run(events).value;
    var Client(c, conf) := w.clients[e.client];
    ToldAlways(events, c);
    LastIsOver(events, c);
    DueIsDue(w.cells[c], w.log, c, conf, e.asked);
    SettledAsTold(w.cells[c], StandingOf(w.log, c), conf, e.lookup, e.settled);
  }

  /** Where it goes and what is said of it: to the pool's host the word falls on while there is a
      pool, and otherwise to the configured address; the operator is told exactly on the first
      answer of a cell, when it named somebody and nobody usable. */
  lemma GoesToThePool(events: seq<Event>, e: Event)
    requires Run(events).Some? && Enabled(Run(events).value, e)
    requires e.Command? && e.repeatable == Heavy && Run(events).value.clients[e.client].conf.discovery
    ensures var w := Run(events).value;
      var Client(c, conf) := w.clients[e.client];
      var now := Step(w, e).cells[c];
      && (now.Pool? ==> now.hosts != [])
      && Step(w, e).log == w.log
        + (if LookupIsDue(w.log, c, conf.refresh, e.asked) then [Looked(c, conf, e.asked, e.settled, e.lookup)] else [])
        + (if Lookups(w.log, c) == [] && e.lookup.Answered? && e.lookup.names != [] && !SomeUsable(conf, e.lookup) then [Declined(c)] else [])
        + (if now.Pool? then [Handed(c, conf, now.hosts[e.word % |now.hosts|])] else [])
  {
    hide Run, Due, Routed, StandingOf, Lookups, LookupIsDue, SomeUsable, Usable;
    var w := Run(events).value;
    var Client(c, conf) := w.clients[e.client];
    ToldAlways(events, c);
    LastIsOver(events, c);
    DueIsDue(w.cells[c], w.log, c, conf, e.asked);
    if e.lookup.Answered? { UsableIsSome(conf, e.lookup); }
    var now := Step(w, e).cells[c];
    assert Sound(Step(w, e)) && now.Valid();
    PlacingIs(w.log, w.cells[c], c, conf, e);
  }

  lemma PlacingIs(log: seq<Entry>, state: HeavyProxy, c: nat, conf: Settings, e: Event)
    requires e.Command? && state.Valid()
    ensures var now := Routed(state, conf, e.asked, e.lookup, e.settled);
      now.Valid() && log + Placing(state, c, conf, e) == log
        + (if Due(state, conf, e.asked) then [Looked(c, conf, e.asked, e.settled, e.lookup)] else [])
        + (if state.Unasked? && e.lookup.Answered? && e.lookup.names != [] && Usable(conf, e.lookup.names) == [] then [Declined(c)] else [])
        + (if now.Pool? then [Handed(c, conf, now.hosts[e.word % |now.hosts|])] else [])
  {
    hide Routed, Due, Usable;
  }

  /** The command's last line says it went to that host. */
  ghost predicate WentTo(w: World, e: Event, h: string)
    requires Sound(w) && Enabled(w, e) && e.Command?
  {
    var log := Step(w, e).log;
    log != [] && log[|log| - 1] == Handed(w.clients[e.client].cell, w.clients[e.client].conf, h)
  }

  function WithWord(e: Event, word: nat): (r: Event)
    requires e.Command?
    ensures r.Command? && r.client == e.client
  {
    e.(word := word)
  }

  lemma AnyWordIsEnabled(w: World, e: Event, word: nat)
    requires e.Command? && Enabled(w, e)
    ensures Enabled(w, WithWord(e, word))
  {
  }

  /** No host of a pool is out of reach: some word falls on each. */
  lemma EveryHostIsPicked(events: seq<Event>, e: Event, h: string)
    requires Run(events).Some? && Enabled(Run(events).value, e)
    requires e.Command? && e.repeatable == Heavy && Run(events).value.clients[e.client].conf.discovery
    requires var w := Run(events).value; var now := Step(w, e).cells[w.clients[e.client].cell]; now.Pool? && h in now.hosts
    ensures exists word: nat :: Enabled(Run(events).value, WithWord(e, word)) && WentTo(Run(events).value, WithWord(e, word), h)
  {
    hide Run, Routed, LookupIsDue, Lookups, SomeUsable, Step, Usable;
    var w := Run(events).value;
    var c := w.clients[e.client].cell;
    LeavesInItsCell(events, e);
    var hosts := Step(w, e).cells[c].hosts;
    var i :| 0 <= i < |hosts| && hosts[i] == h;
    var same := WithWord(e, i);
    AnyWordIsEnabled(w, e, i);
    LeavesInItsCell(events, same);
    GoesToThePool(events, same);
    assert Step(w, same).cells[c] == Step(w, e).cells[c];
    SmallModulo(i, |hosts|);
    assert WentTo(w, same, h);
  }

  lemma SmallModulo(i: nat, n: nat)
    requires i < n
    ensures i % n == i
  {
  }

  /** Light commands, and heavy ones of a transport that does not discover, ask nothing and leave
      every cell as it was. */
  lemma LightCommandsTouchNothing(w: World, e: Event)
    requires Sound(w) && Enabled(w, e) && e.Command?
    requires e.repeatable != Heavy || !w.clients[e.client].conf.discovery
    ensures Step(w, e).cells == w.cells && Step(w, e).log == w.log && Step(w, e).clients == w.clients
  {
  }

  /** An answer's usable names in their order, each as its own URL. */
  lemma {:induction false} UsableInOrder(conf: Settings, front: seq<string>, back: seq<string>)
    ensures Usable(conf, front + back) == Usable(conf, front) + Usable(conf, back)
  {
    hide HeavyBase;
    if back == [] {
      assert front + back == front;
    } else {
      var rest, last := back[..|back| - 1], back[|back| - 1];
      UsableInOrder(conf, front, rest);
      Regroup(front, rest, [last]);
      OneMoreUsable(conf, front + rest, Usable(conf, front), rest, last);
      assert rest + [last] == back;
    }
  }

  lemma Regroup(a: seq<string>, b: seq<string>, c: seq<string>)
    ensures a + (b + c) == (a + b) + c
  {
  }

  lemma OneMoreUsable(conf: Settings, whole: seq<string>, kept: seq<string>, rest: seq<string>, last: string)
    requires Usable(conf, whole) == kept + Usable(conf, rest)
    ensures Usable(conf, whole + [last]) == kept + Usable(conf, rest + [last])
  {
    hide Usable, HeavyBase;
    UsableSnoc(conf, rest, last);
    UsableSnoc(conf, whole, last);
    Regroup(kept, Usable(conf, rest), match HeavyBase(conf.base, last, conf.rule) case Ok(base) => [base] case Err(_) => []);
  }

  lemma UsableSnoc(conf: Settings, names: seq<string>, last: string)
    ensures Usable(conf, names + [last]) == Usable(conf, names) +
      match HeavyBase(conf.base, last, conf.rule) case Ok(base) => [base] case Err(_) => []
  {
    hide HeavyBase;
    assert (names + [last])[..|names|] == names;
  }

  // ---------------------------------------------------------------- a finished command, by its failure alone

  /** A finished command drops the host it was sent to exactly when it was heavy, its transport
      discovers, the host was discovered and the failure is the host's; and then an emptied pool
      rests for the retry interval. A success, or the command's own fault, leaves every cell and
      the log as they were. */
  lemma FinishDropsExactly(w: World, e: Event)
    requires Sound(w) && Enabled(w, e) && e.Finish?
    ensures var Client(c, conf) := w.clients[e.client];
      var r, was := Step(w, e), w.cells[c];
      && r.clients == w.clients && |r.cells| == |w.cells|
      && (forall d :: 0 <= d < |w.cells| && d != c ==> r.cells[d] == w.cells[d])
      && if e.repeatable == Heavy && conf.discovery && e.destination.Discovered? && IsTheHosts(e.failure)
         then
           && (!was.Pool? ==> r.cells[c] == was)
           && (was.Pool? ==>
                 var left := Without(was.hosts, e.destination.address);
                 r.cells[c] == if left == [] then FellBack(Deadline(e.at, conf.retryAfter)) else Pool(left, was.fetched))
           && r.log == w.log + [Dropped(c, conf, e.destination.address, Empties(was, e.destination.address), e.at)]
         else r.cells == w.cells && r.log == w.log
  {
    hide Without, Failures.AttributableToTheHost, Failures.WrongAddress;
    if e.failure.Some? { Failures.QuestionsExactly(e.failure.value); }
  }

  /** A resolve error keeps the pool, and a lost connection does not. */
  lemma OwnFaultKeepsThePool(t: Instant, conf: Settings, at: Instant)
    requires conf.discovery && t <= at
    ensures var w := World([Pool(["http://n1"], t)], [Client(0, conf)], t, []);
      && Sound(w)
      && Step(w, Finish(0, Heavy, Discovered("http://n1"), Some(Failures.Cluster(500, None, false)), at)).cells == w.cells
      && Step(w, Finish(0, Heavy, Discovered("http://n1"), Some(Failures.Transport(false)), at)).cells[0].FellBack?
  {
    hide Step, Without, Failures.WrongAddress;
    var w := World([Pool(["http://n1"], t)], [Client(0, conf)], t, []);
    FinishDropsExactly(w, Finish(0, Heavy, Discovered("http://n1"), Some(Failures.Cluster(500, None, false)), at));
    FinishDropsExactly(w, Finish(0, Heavy, Discovered("http://n1"), Some(Failures.Transport(false)), at));
    NotTheAddress();
    WithoutOne("http://n1", "http://n1");
  }

  lemma NotTheAddress()
    ensures !Failures.WrongAddress(Failures.Cluster(500, None, false))
  {
  }

  // ---------------------------------------------------------------- beginnings and addresses

  /** A new transport's cell has never been asked for; it discovers unless it is local, keeps to its
      own domain, rests ten seconds and refreshes after sixty. */
  lemma OpensUnasked(w: World, base: string, local: bool)
    requires Sound(w)
    ensures var r := Step(w, Open(base, local));
      && r.cells == w.cells + [Unasked]
      && r.clients == w.clients + [Client(|w.cells|, Settings(base, !local, SameDomain, 10_000_000_000, 60_000_000_000))]
  {
  }

  /** In every run no discovered address leaves the configured one's scheme: a client that speaks
      TLS to the address it was given speaks it to every proxy, and one that does not to none. */
  lemma HandedKeepsTheScheme(events: seq<Event>, k: nat)
    requires Run(events).Some? && k < |Run(events).value.log| && Run(events).value.log[k].Handed?
    ensures var entry := Run(events).value.log[k];
      && ("https://" <= entry.address <==> "https://" <= entry.conf.base)
      && (!("https://" <= entry.address) ==> "http://" <= entry.address)
  {
    hide Run, HeavyBase;
    HandedJustlyAlways(events);
    var log := Run(events).value.log;
    var entry := log[k];
    assert Justified(log[..k], entry.cell, entry.conf, entry.address);
    var names := LastAnswer(log[..k], entry.cell).value;
    var n :| n in names && HeavyBase(entry.conf.base, n, entry.conf.rule) == Ok(entry.address);
    KeepsTheScheme(entry.conf.base, n, entry.conf.rule);
  }
}
