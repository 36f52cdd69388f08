/** Every interleaving of the router's operations: any number of transports opened, cloned and
    reconfigured, sharing cells or not, with commands placed and finished in any order. What is
    proved is about every run and is stated against the run's log. */
module RouterRuns {
  import opened Text
  import opened HostNames
  import opened Retrying
  import opened Router
  import Failures

  datatype Client = Client(cell: nat, conf: Settings)

  datatype Entry =
    | Looked(cell: nat, conf: Settings, start: Instant, end: Instant, lookup: Lookup)
    | Declined(cell: nat)
    | Handed(cell: nat, conf: Settings, address: string)
    | Dropped(cell: nat, conf: Settings, address: string, emptied: bool, at: Instant)

  datatype World = World(cells: seq<HeavyProxy>, clients: seq<Client>, now: Instant, log: seq<Entry>)

  datatype Event =
    | Open(base: string, local: bool)
    | Clone(client: nat)
    | SetDiscovery(client: nat, enabled: bool)
    | SetRule(client: nat, rule: HeavyHosts)
    | SetRetryAfter(client: nat, wait: Duration)
    | SetRefresh(client: nat, wait: Duration)
    | Command(client: nat, repeatable: Repeatable, asked: Instant, lookup: Lookup, settled: Instant, word: nat)
    | Finish(client: nat, repeatable: Repeatable, destination: Destination,
             failure: Option<Failures.ClientError>, at: Instant)

  /** Every cell can be picked from, and every transport's cell exists. */
  predicate Sound(w: World) {
    && (forall c :: 0 <= c < |w.cells| ==> w.cells[c].Valid())
    && forall i :: 0 <= i < |w.clients| ==> w.clients[i].cell < |w.cells|
  }

  predicate Enabled(w: World, e: Event) {
    && (!e.Open? ==> e.client < |w.clients|)
    && (e.Command? ==> w.now <= e.asked <= e.settled)
    && (e.Finish? ==> w.now <= e.at)
  }

  /** A setter that changes a rule gives its own transport a new cell. */
  function Forget(w: World, i: nat, conf: Settings): World
    requires i < |w.clients|
  {
    w.(cells := w.cells + [Unasked], clients := w.clients[i := Client(|w.cells|, conf)])
  }

  /** The lines one placed heavy command adds to the log. */
  function Placing(state: HeavyProxy, cell: nat, conf: Settings, e: Event): seq<Entry>
    requires e.Command? && state.Valid()
  {
    var next := Routed(state, conf, e.asked, e.lookup, e.settled);
    var placed := Placed(next, conf, e.word);
    (if Due(state, conf, e.asked) then [Looked(cell, conf, e.asked, e.settled, e.lookup)] else [])
    + (if Declines(state, conf, e.lookup) then [Declined(cell)] else [])
    + (if placed.Discovered? then [Handed(cell, conf, placed.address)] else [])
  }

  /** Whether dropping a host leaves a pool with none. */
  predicate Empties(state: HeavyProxy, address: string) {
    state.Pool? && Without(state.hosts, address) == []
  }

  function Step(w: World, e: Event): (r: World)
    requires Sound(w) && Enabled(w, e)
    ensures Sound(r)
  {
    match e
    case Open(base, local) =>
      var conf := Settings(base, !local, SameDomain, HOSTS_RETRY_AFTER, HOST_LIST_REFRESH_INTERVAL);
      w.(cells := w.cells + [Unasked], clients := w.clients + [Client(|w.cells|, conf)])
    case Clone(i) => w.(clients := w.clients + [w.clients[i]])
    case SetDiscovery(i, enabled) => Forget(w, i, w.clients[i].conf.(discovery := enabled))
    case SetRule(i, rule) => Forget(w, i, w.clients[i].conf.(rule := rule))
    case SetRetryAfter(i, wait) =>
      w.(clients := w.clients[i := w.clients[i].(conf := w.clients[i].conf.(retryAfter := wait))])
    case SetRefresh(i, wait) =>
      w.(clients := w.clients[i := w.clients[i].(conf := w.clients[i].conf.(refresh := wait))])
    case Command(i, repeatable, asked, lookup, settled, word) =>
      var Client(c, conf) := w.clients[i];
      if repeatable != Heavy || !conf.discovery then w.(now := settled)
      else
        w.(cells := w.cells[c := Routed(w.cells[c], conf, asked, lookup, settled)],
           now := settled,
           log := w.log + Placing(w.cells[c], c, conf, e))
    case Finish(i, repeatable, destination, failure, at) =>
      var Client(c, conf) := w.clients[i];
      if !Blames(repeatable, conf, destination, failure) then w.(now := at)
      else
        w.(cells := w.cells[c := Blamed(w.cells[c], conf, destination.address, at)],
           now := at,
           log := w.log + [Dropped(c, conf, destination.address, Empties(w.cells[c], destination.address), at)])
  }

  const Start: World := World([], [], 0, [])

  /** The world after a run, or nothing when an event in it could not happen. */
  function Run(events: seq<Event>): (r: Option<World>)
    ensures r.Some? ==> Sound(r.value)
  {
    if events == [] then Some(Start)
    else
      match Run(events[..|events| - 1])
      case None => None
      case Some(w) =>
        var e := events[|events| - 1];
        if Enabled(w, e) then Some(Step(w, e)) else None
  }

  // ---------------------------------------------------------------- reading a log

  predicate Accepts(e: Entry, c: nat) {
    e.Looked? && e.cell == c && e.lookup.Answered? && Usable(e.conf, e.lookup.names) != []
  }

  /** The names of the last answer a cell accepted. */
  function LastAnswer(log: seq<Entry>, c: nat): Option<seq<string>> {
    if log == [] then None
    else
      var e := log[|log| - 1];
      if Accepts(e, c) then Some(e.lookup.names) else LastAnswer(log[..|log| - 1], c)
  }

  /** The hosts blamed on a cell since the last answer it accepted. */
  function DroppedSince(log: seq<Entry>, c: nat): set<string> {
    if log == [] then {}
    else
      var e := log[|log| - 1];
      if Accepts(e, c) then {}
      else
        DroppedSince(log[..|log| - 1], c) + if e.Dropped? && e.cell == c then {e.address} else {}
  }

  /** The lookups made for a cell, as their starts and ends. */
  function Lookups(log: seq<Entry>, c: nat): seq<(Instant, Instant)> {
    if log == [] then []
    else
      var e := log[|log| - 1];
      Lookups(log[..|log| - 1], c) + if e.Looked? && e.cell == c then [(e.start, e.end)] else []
  }

  function DeclinedCount(log: seq<Entry>, c: nat): nat {
    if log == [] then 0
    else DeclinedCount(log[..|log| - 1], c) + if log[|log| - 1] == Declined(c) then 1 else 0
  }

  /** An address that belongs to the last accepted answer under the settings of whoever uses
      it, and has not been dropped since. */
  predicate Justified(log: seq<Entry>, c: nat, conf: Settings, address: string) {
    var names := LastAnswer(log, c);
    && names.Some?
    && (exists n :: n in names.value && HeavyBase(conf.base, n, conf.rule) == Ok(address))
    && address !in DroppedSince(log, c)
  }

  lemma Snoc(log: seq<Entry>, e: Entry, c: nat)
    ensures LastAnswer(log + [e], c) == if Accepts(e, c) then Some(e.lookup.names) else LastAnswer(log, c)
    ensures DroppedSince(log + [e], c) == if Accepts(e, c) then {} else
      DroppedSince(log, c) + if e.Dropped? && e.cell == c then {e.address} else {}
    ensures Lookups(log + [e], c) == Lookups(log, c) + if e.Looked? && e.cell == c then [(e.start, e.end)] else []
    ensures DeclinedCount(log + [e], c) == DeclinedCount(log, c) + if e == Declined(c) then 1 else 0
  {
    assert (log + [e])[..|log|] == log;
  }

  // ---------------------------------------------------------------- sharers agree

  predicate SameRules(a: Settings, b: Settings) {
    a.base == b.base && a.discovery == b.discovery && a.rule == b.rule
  }

  predicate SharersAgree(w: World) {
    forall i, j :: 0 <= i < |w.clients| && 0 <= j < |w.clients| && w.clients[i].cell == w.clients[j].cell
      ==> SameRules(w.clients[i].conf, w.clients[j].conf)
  }

  lemma StepKeepsAgreement(w: World, e: Event)
    requires Sound(w) && Enabled(w, e) && SharersAgree(w)
    ensures SharersAgree(Step(w, e))
  {
    hide Routed, Placing, Blamed, Blames;
  }

  /** Transports that share a cell agree on everything an answer is judged by, in every run: a
      rule change never writes through a shared cell. */
  lemma {:induction false} SharersAgreeAlways(events: seq<Event>)
    requires Run(events).Some?
    ensures SharersAgree(Run(events).value)
  {
    if events != [] {
      var front := events[..|events| - 1];
      SharersAgreeAlways(front);
      StepKeepsAgreement(Run(front).value, events[|events| - 1]);
    }
  }

  // ---------------------------------------------------------------- what a pool holds

  /** What a log says of a cell: the last answer, the hosts dropped since, the lookups and how
      often the operator was told. */
  datatype History = History(
    answer: Option<seq<string>>, dropped: set<string>, lookups: seq<(Instant, Instant)>, told: nat)

  function Past(log: seq<Entry>, c: nat): History {
    History(LastAnswer(log, c), DroppedSince(log, c), Lookups(log, c), DeclinedCount(log, c))
  }

  /** What one more line makes of a cell's history. */
  function After(past: History, e: Entry, c: nat): History {
    if Accepts(e, c) then
      past.(answer := Some(e.lookup.names), dropped := {}, lookups := past.lookups + [(e.start, e.end)])
    else if e.Looked? && e.cell == c then past.(lookups := past.lookups + [(e.start, e.end)])
    else if e.Dropped? && e.cell == c then past.(dropped := past.dropped + {e.address})
    else if e == Declined(c) then past.(told := past.told + 1)
    else past
  }

  lemma MaybeSnoc(log: seq<Entry>, on: bool, e: Entry, c: nat)
    ensures Past(log + (if on then [e] else []), c) == if on then After(Past(log, c), e, c) else Past(log, c)
  {
    if on { Snoc(log, e, c); } else { assert log + [] == log; }
  }

  predicate Refills(state: HeavyProxy, conf: Settings, e: Event) {
    && e.Command? && Due(state, conf, e.asked)
    && e.lookup.Answered? && Usable(conf, e.lookup.names) != []
  }

  lemma PlacingWrites(log: seq<Entry>, state: HeavyProxy, cell: nat, conf: Settings, e: Event, c: nat)
    requires e.Command? && state.Valid()
    ensures Past(log + Placing(state, cell, conf, e), c) ==
      if c != cell then Past(log, c)
      else History(
        if Refills(state, conf, e) then Some(e.lookup.names) else Past(log, c).answer,
        if Refills(state, conf, e) then {} else Past(log, c).dropped,
        Past(log, c).lookups + (if Due(state, conf, e.asked) then [(e.asked, e.settled)] else []),
        Past(log, c).told + (if Declines(state, conf, e.lookup) then 1 else 0))
  {
    hide Routed, Due, Usable, Declines, Past;
    var placed := Placed(Routed(state, conf, e.asked, e.lookup, e.settled), conf, e.word);
    var due, declines := Due(state, conf, e.asked), Declines(state, conf, e.lookup);
    var looked := Looked(cell, conf, e.asked, e.settled, e.lookup);
    var handed := Handed(cell, conf, placed.address);
    var one := log + if due then [looked] else [];
    var two := one + if declines then [Declined(cell)] else [];
    MaybeSnoc(log, due, looked, c);
    MaybeSnoc(one, declines, Declined(cell), c);
    MaybeSnoc(two, placed.Discovered?, handed, c);
    assert log + Placing(state, cell, conf, e) == two + if placed.Discovered? then [handed] else [];
  }

  lemma {:induction false} UsableFollowsRules(a: Settings, b: Settings, names: seq<string>)
    requires SameRules(a, b)
    ensures Usable(a, names) == Usable(b, names)
  {
    if names != [] { UsableFollowsRules(a, b, names[..|names| - 1]); }
  }

  /** A pool seen by one transport that shares its cell: exactly the addresses that transport
      would make of the last accepted answer, less those dropped since. */
  ghost predicate PoolMeans(hosts: seq<string>, past: History, conf: Settings) {
    && past.answer.Some?
    && forall h :: h in hosts <==> h in Usable(conf, past.answer.value) && h !in past.dropped
  }

  ghost predicate PoolsMean(w: World)
    requires Sound(w)
  {
    forall i :: 0 <= i < |w.clients| ==>
      var Client(c, conf) := w.clients[i];
      w.cells[c].Pool? ==> PoolMeans(w.cells[c].hosts, Past(w.log, c), conf)
  }

  lemma RoutedPoolMeans(state: HeavyProxy, past: History, conf: Settings, other: Settings, e: Event)
    requires e.Command? && state.Valid() && SameRules(conf, other)
    requires state.Pool? ==> PoolMeans(state.hosts, past, other)
    requires Routed(state, conf, e.asked, e.lookup, e.settled).Pool?
    ensures var next := Routed(state, conf, e.asked, e.lookup, e.settled);
      PoolMeans(next.hosts,
        if Refills(state, conf, e) then past.(answer := Some(e.lookup.names), dropped := {}) else past, other)
  {
    if e.lookup.Answered? { UsableFollowsRules(conf, other, e.lookup.names); }
  }

  lemma CommandKeepsPools(w: World, e: Event)
    requires Sound(w) && Enabled(w, e) && SharersAgree(w) && PoolsMean(w)
    requires e.Command? && e.repeatable == Heavy && w.clients[e.client].conf.discovery
    ensures PoolsMean(Step(w, e))
  {
    hide Due, Declines, Usable, Placing, Past, PoolMeans, Routed;
    var Client(cell, conf) := w.clients[e.client];
    var r := Step(w, e);
    forall i | 0 <= i < |r.clients|
      ensures var Client(c, own) := r.clients[i];
        r.cells[c].Pool? ==> PoolMeans(r.cells[c].hosts, Past(r.log, c), own)
    {
      var Client(c, own) := r.clients[i];
      assert w.clients[i] == r.clients[i];
      PlacingWrites(w.log, w.cells[cell], cell, conf, e, c);
      if c == cell && r.cells[c].Pool? {
        RoutedPoolMeans(w.cells[c], Past(w.log, c), conf, own, e);
        PastParts(w.log, c);
        var past := Past(w.log, c);
        PoolMeansParts(r.cells[c].hosts, Past(r.log, c),
          if Refills(w.cells[c], conf, e) then past.(answer := Some(e.lookup.names), dropped := {}) else past, own);
      }
    }
  }

  lemma PastParts(log: seq<Entry>, c: nat)
    ensures var p := Past(log, c);
      p.answer == LastAnswer(log, c) && p.dropped == DroppedSince(log, c)
      && p.lookups == Lookups(log, c) && p.told == DeclinedCount(log, c)
  {
  }

  /** Only the answer and the drops of a history matter to what a pool means. */
  lemma PoolMeansParts(hosts: seq<string>, p: History, q: History, conf: Settings)
    requires p.answer == q.answer && p.dropped == q.dropped
    ensures PoolMeans(hosts, p, conf) <==> PoolMeans(hosts, q, conf)
  {
  }

  lemma BlamedPoolMeans(state: HeavyProxy, past: History, conf: Settings, other: Settings, address: string, at: Instant)
    requires state.Pool? ==> PoolMeans(state.hosts, past, other)
    requires Blamed(state, conf, address, at).Pool?
    ensures PoolMeans(Blamed(state, conf, address, at).hosts, past.(dropped := past.dropped + {address}), other)
  {
    hide Usable;
  }

  lemma FinishKeepsPools(w: World, e: Event)
    requires Sound(w) && Enabled(w, e) && PoolsMean(w) && e.Finish?
    ensures PoolsMean(Step(w, e))
  {
    hide Usable, Blames, Blamed, Past, PoolMeans, Empties;
    var Client(cell, conf) := w.clients[e.client];
    var r := Step(w, e);
    forall i | 0 <= i < |r.clients|
      ensures var Client(c, own) := r.clients[i];
        r.cells[c].Pool? ==> PoolMeans(r.cells[c].hosts, Past(r.log, c), own)
    {
      var Client(c, own) := r.clients[i];
      assert w.clients[i] == r.clients[i];
      if r.log != w.log {
        MaybeSnoc(w.log, true, r.log[|w.log|], c);
        if c == cell && r.cells[c].Pool? {
          BlamedPoolMeans(w.cells[c], Past(w.log, c), conf, own, e.destination.address, e.at);
        }
      }
    }
  }

  lemma SetupKeepsPools(w: World, e: Event)
    requires Sound(w) && Enabled(w, e) && PoolsMean(w) && !e.Command? && !e.Finish?
    ensures PoolsMean(Step(w, e))
  {
    hide Past, Usable;
    var r := Step(w, e);
    forall i | 0 <= i < |r.clients|
      ensures var Client(c, own) := r.clients[i];
        r.cells[c].Pool? ==> PoolMeans(r.cells[c].hosts, Past(r.log, c), own)
    {
      var Client(c, own) := r.clients[i];
      if r.cells[c].Pool? {
        var was := if e.Clone? && i == |w.clients| then e.client else i;
        assert w.clients[was].cell == c && SameRules(w.clients[was].conf, own);
        UsableFollowsRules(w.clients[was].conf, own, Past(w.log, c).answer.value);
      }
    }
  }

  /** In every run, the pool in a cell is exactly what is left of the last answer that cell
      accepted, as every transport sharing the cell would read it; and it is never empty. */
  lemma {:induction false} PoolIsWhatIsLeft(events: seq<Event>)
    requires Run(events).Some?
    ensures PoolsMean(Run(events).value)
    ensures forall c :: 0 <= c < |Run(events).value.cells| && Run(events).value.cells[c].Pool? ==>
      Run(events).value.cells[c].hosts != []
  {
    if events != [] {
      var front, e := events[..|events| - 1], events[|events| - 1];
      PoolIsWhatIsLeft(front);
      SharersAgreeAlways(front);
      var w := Run(front).value;
      if e.Command? {
        if e.repeatable == Heavy && w.clients[e.client].conf.discovery { CommandKeepsPools(w, e); }
      } else if e.Finish? {
        FinishKeepsPools(w, e);
      } else {
        SetupKeepsPools(w, e);
      }
    }
  }

  // ---------------------------------------------------------------- what is handed out

  ghost predicate HandedJustly(log: seq<Entry>) {
    forall k :: 0 <= k < |log| && log[k].Handed? ==> Justified(log[..k], log[k].cell, log[k].conf, log[k].address)
  }

  lemma CommandHandsJustly(w: World, e: Event)
    requires Sound(w) && Enabled(w, e) && SharersAgree(w) && PoolsMean(w) && HandedJustly(w.log)
    requires e.Command? && e.repeatable == Heavy && w.clients[e.client].conf.discovery
    ensures HandedJustly(Step(w, e).log)
  {
    hide Due, Declines, Routed, Justified;
    var Client(c, conf) := w.clients[e.client];
    var r := Step(w, e);
    CommandKeepsPools(w, e);
    var last := |r.log| - 1;
    forall k | 0 <= k < |r.log| && r.log[k].Handed?
      ensures Justified(r.log[..k], r.log[k].cell, r.log[k].conf, r.log[k].address)
    {
      if k < |w.log| {
        assert r.log[..k] == w.log[..k] && r.log[k] == w.log[k];
      } else {
        assert k == last && r.log[k].cell == c && r.log[k].conf == conf;
        assert r.log == r.log[..last] + [r.log[last]];
        Snoc(r.log[..last], r.log[last], c);
        assert r.clients[e.client] == w.clients[e.client] && PoolMeans(r.cells[c].hosts, Past(r.log, c), conf);
        PoolJustifies(r.log[..last], c, conf, r.cells[c].hosts, r.log[last].address);
      }
    }
  }

  lemma PoolJustifies(log: seq<Entry>, c: nat, conf: Settings, hosts: seq<string>, address: string)
    requires PoolMeans(hosts, Past(log, c), conf) && address in hosts
    ensures Justified(log, c, conf, address)
  {
  }

  /** In every run, each discovered address a command was sent to came from the last answer its
      cell had accepted by then, had not been dropped since, and is one the rule of the transport
      that used it admits. */
  lemma {:induction false} HandedJustlyAlways(events: seq<Event>)
    requires Run(events).Some?
    ensures HandedJustly(Run(events).value.log)
  {
    if events != [] {
      var front, e := events[..|events| - 1], events[|events| - 1];
      HandedJustlyAlways(front);
      var w := Run(front).value;
      if e.Command? && e.repeatable == Heavy && w.clients[e.client].conf.discovery {
        SharersAgreeAlways(front);
        PoolIsWhatIsLeft(front);
        CommandHandsJustly(w, e);
      } else {
        var r := Step(w, e);
        forall k | 0 <= k < |r.log| && r.log[k].Handed?
          ensures Justified(r.log[..k], r.log[k].cell, r.log[k].conf, r.log[k].address)
        {
          assert r.log[..k] == w.log[..k] && r.log[k] == w.log[k];
        }
      }
    }
  }

  // ---------------------------------------------------------------- how often the cluster is asked

  /** Whoever asked for this cell had intervals of at least `m` then, and whoever emptied its
      pool a retry interval of at least `m`. */
  predicate PatientWith(log: seq<Entry>, c: nat, m: Duration) {
    && (forall k :: 0 <= k < |log| && log[k].Looked? && log[k].cell == c ==> log[k].conf.refresh >= m && log[k].conf.retryAfter >= m)
    && (forall k :: 0 <= k < |log| && log[k].Dropped? && log[k].cell == c && log[k].emptied ==> log[k].conf.retryAfter >= m)
  }

  /** Lookups in order, each starting at least `m` after every earlier one ended. */
  predicate Spread(lookups: seq<(Instant, Instant)>, m: Duration) {
    && (forall j :: 0 <= j < |lookups| ==> lookups[j].0 <= lookups[j].1)
    && forall j, k :: 0 <= j < k < |lookups| ==> lookups[k].0 >= lookups[j].1 + m
  }

  /** A cell between lookups: asked if and only if it has a lookup behind it, and holding the
      next one off for `m` from the end of the last. */
  predicate Quiet(state: HeavyProxy, past: History, now: Instant, m: Duration) {
    && (state.Unasked? <==> past.lookups == [])
    && Spread(past.lookups, m)
    && past.told <= (if state.Unasked? then 0 else 1)
    && (past.lookups != [] ==>
          var end := past.lookups[|past.lookups| - 1].1;
          && end <= now
          && match state
             case Unasked => true
             case Pool(_, fetched) => end <= fetched
             case Configured(asked) => end <= asked
             case FellBack(until) => until.Some? ==> end + m <= until.value)
  }

  predicate AllQuiet(w: World, c: nat, m: Duration)
    requires c < |w.cells|
  {
    Quiet(w.cells[c], Past(w.log, c), w.now, m)
  }

  lemma RoutedStaysQuiet(state: HeavyProxy, past: History, now: Instant, m: Duration, conf: Settings, e: Event)
    requires Quiet(state, past, now, m) && e.Command? && now <= e.asked <= e.settled
    requires Due(state, conf, e.asked) ==> conf.refresh >= m && conf.retryAfter >= m
    ensures var next := Routed(state, conf, e.asked, e.lookup, e.settled);
      var due, declines := Due(state, conf, e.asked), Declines(state, conf, e.lookup);
      Quiet(next,
        past.(lookups := past.lookups + if due then [(e.asked, e.settled)] else [],
              told := past.told + if declines then 1 else 0),
        e.settled, m)
  {
    hide Usable;
    if Due(state, conf, e.asked) {
      assert forall j :: 0 <= j < |past.lookups| ==> past.lookups[j].1 + m <= e.asked;
    }
  }

  /** Whoever asked was patient, if the log that tells of it is. */
  lemma AskerIsPatient(log: seq<Entry>, state: HeavyProxy, cell: nat, conf: Settings, e: Event, m: Duration)
    requires e.Command? && state.Valid() && PatientWith(log + Placing(state, cell, conf, e), cell, m)
    ensures Due(state, conf, e.asked) ==> conf.refresh >= m && conf.retryAfter >= m
  {
    hide Due, Declines, Routed;
    var whole := log + Placing(state, cell, conf, e);
    if Due(state, conf, e.asked) {
      assert whole[|log|] == Looked(cell, conf, e.asked, e.settled, e.lookup);
    }
  }

  lemma CommandStaysQuiet(w: World, e: Event, c: nat, m: Duration)
    requires Sound(w) && Enabled(w, e) && c < |w.cells| && AllQuiet(w, c, m)
    requires e.Command? && e.repeatable == Heavy && w.clients[e.client].conf.discovery
    requires PatientWith(Step(w, e).log, c, m)
    ensures AllQuiet(Step(w, e), c, m)
  {
    hide Due, Declines, Routed, Quiet, Past, Placing, PatientWith;
    var Client(cell, conf) := w.clients[e.client];
    var r := Step(w, e);
    PlacingWrites(w.log, w.cells[cell], cell, conf, e, c);
    if c == cell {
      AskerIsPatient(w.log, w.cells[c], c, conf, e, m);
      RoutedStaysQuiet(w.cells[c], Past(w.log, c), w.now, m, conf, e);
      QuietParts(r.cells[c], Past(r.log, c),
        Past(w.log, c).(lookups := Past(r.log, c).lookups, told := Past(r.log, c).told), e.settled, m);
    } else {
      QuietLater(w.cells[c], Past(w.log, c), w.now, r.now, m);
    }
  }

  lemma QuietParts(state: HeavyProxy, p: History, q: History, now: Instant, m: Duration)
    requires p.lookups == q.lookups && p.told == q.told
    ensures Quiet(state, p, now, m) <==> Quiet(state, q, now, m)
  {
  }

  lemma QuietLater(state: HeavyProxy, past: History, now: Instant, later: Instant, m: Duration)
    requires Quiet(state, past, now, m) && now <= later
    ensures Quiet(state, past, later, m)
  {
  }

  lemma BlamedStaysQuiet(state: HeavyProxy, past: History, now: Instant, m: Duration, conf: Settings, address: string, at: Instant)
    requires Quiet(state, past, now, m) && now <= at && (Empties(state, address) ==> conf.retryAfter >= m)
    ensures Quiet(Blamed(state, conf, address, at), past, at, m)
  {
  }

  lemma FinishStaysQuiet(w: World, e: Event, c: nat, m: Duration)
    requires Sound(w) && Enabled(w, e) && c < |w.cells| && AllQuiet(w, c, m)
    requires e.Finish? && PatientWith(Step(w, e).log, c, m)
    ensures AllQuiet(Step(w, e), c, m)
  {
    hide Blames, Usable, Past, Quiet, Blamed, Empties;
    var Client(cell, conf) := w.clients[e.client];
    var r := Step(w, e);
    QuietLater(w.cells[c], Past(w.log, c), w.now, r.now, m);
    if r.log != w.log {
      var dropped := r.log[|w.log|];
      MaybeSnoc(w.log, true, dropped, c);
      QuietParts(w.cells[c], Past(w.log, c), Past(r.log, c), r.now, m);
      if c == cell {
        assert dropped.cell == c && dropped.emptied == Empties(w.cells[c], e.destination.address);
        BlamedStaysQuiet(w.cells[c], Past(w.log, c), w.now, m, conf, e.destination.address, e.at);
        QuietParts(r.cells[c], Past(w.log, c), Past(r.log, c), r.now, m);
      }
    }
  }

  /** A step writes about a cell only if the cell was there before it. */
  lemma StepWritesOfKnownCells(w: World, e: Event, c: nat)
    requires Sound(w) && Enabled(w, e) && c >= |w.cells|
    ensures Past(Step(w, e).log, c) == Past(w.log, c) && |w.cells| <= |Step(w, e).cells|
  {
    hide Past, Blames, Placing;
    var r := Step(w, e);
    if e.Command? && r.log != w.log {
      var Client(cell, conf) := w.clients[e.client];
      PlacingWrites(w.log, w.cells[cell], cell, conf, e, c);
    } else if r.log != w.log {
      MaybeSnoc(w.log, true, r.log[|w.log|], c);
    }
  }

  lemma {:induction false} LateCellsAreClean(events: seq<Event>, c: nat)
    requires Run(events).Some?
    ensures c >= |Run(events).value.cells| ==> Past(Run(events).value.log, c) == Past([], c)
  {
    hide Step, Past;
    if events != [] {
      var front, e := events[..|events| - 1], events[|events| - 1];
      LateCellsAreClean(front, c);
      var w := Run(front).value;
      if c >= |w.cells| { StepWritesOfKnownCells(w, e, c); } else { CellsStay(w, e); }
    }
  }

  lemma CellsStay(w: World, e: Event)
    requires Sound(w) && Enabled(w, e)
    ensures |w.cells| <= |Step(w, e).cells|
  {
    hide Routed, Placing, Blamed, Blames;
  }

  lemma StepStaysQuiet(w: World, e: Event, c: nat, m: Duration)
    requires Sound(w) && Enabled(w, e) && c < |Step(w, e).cells| && PatientWith(Step(w, e).log, c, m)
    requires if c < |w.cells| then AllQuiet(w, c, m) else Past(w.log, c) == Past([], c)
    ensures AllQuiet(Step(w, e), c, m)
  {
    hide Routed, Placing, Blamed, Blames, Quiet, Past, PatientWith;
    var r := Step(w, e);
    if c >= |w.cells| {
      assert Quiet(Unasked, Past([], c), r.now, m) by { NothingIsQuiet(c, r.now, m); }
    } else if e.Finish? {
      FinishStaysQuiet(w, e, c, m);
    } else if e.Command? && e.repeatable == Heavy && w.clients[e.client].conf.discovery {
      CommandStaysQuiet(w, e, c, m);
    } else {
      QuietLater(w.cells[c], Past(w.log, c), w.now, r.now, m);
    }
  }

  lemma NothingIsQuiet(c: nat, now: Instant, m: Duration)
    ensures Quiet(Unasked, Past([], c), now, m)
  {
  }

  /** A step only adds to the log. */
  lemma LogGrows(w: World, e: Event, c: nat, m: Duration)
    requires Sound(w) && Enabled(w, e) && PatientWith(Step(w, e).log, c, m)
    ensures PatientWith(w.log, c, m)
  {
    hide Routed, Placing, Blamed, Blames;
    var r := Step(w, e);
    assert w.log <= r.log;
    assert forall k :: 0 <= k < |w.log| ==> w.log[k] == r.log[k];
  }

  lemma {:induction false} QuietAlways(events: seq<Event>, c: nat, m: Duration)
    requires Run(events).Some? && c < |Run(events).value.cells|
    requires PatientWith(Run(events).value.log, c, m)
    ensures AllQuiet(Run(events).value, c, m)
  {
    hide Step, Quiet, Past, PatientWith;
    var front, e := events[..|events| - 1], events[|events| - 1];
    var w := Run(front).value;
    LogGrows(w, e, c, m);
    if c < |w.cells| { QuietAlways(front, c, m); } else { LateCellsAreClean(front, c); }
    StepStaysQuiet(w, e, c, m);
  }

  /** Over any run, a cell's lookups are spread out: from the end of one to the start of any
      later one at least `m` passes, for every `m` that neither the intervals of those who asked
      for the cell nor the retry interval of one who emptied its pool undercut when they did. A
      failed refresh, an emptied pool and a late drop are all covered. */
  lemma LookupsAreSpread(events: seq<Event>, c: nat, m: Duration)
    requires Run(events).Some? && c < |Run(events).value.cells|
    requires PatientWith(Run(events).value.log, c, m)
    ensures Spread(Lookups(Run(events).value.log, c), m)
  {
    QuietAlways(events, c, m);
  }

  /** So a cluster is asked at most once per `m`: n lookups of one cell take n - 1 of them. */
  lemma {:induction false} LookupsPerWindow(lookups: seq<(Instant, Instant)>, m: Duration)
    requires Spread(lookups, m) && lookups != []
    ensures (|lookups| - 1) * m <= lookups[|lookups| - 1].0 - lookups[0].0
  {
    if |lookups| > 1 {
      var front := lookups[..|lookups| - 1];
      LookupsPerWindow(front, m);
      assert lookups[|lookups| - 1].0 >= lookups[|front| - 1].1 + m;
      assert (|lookups| - 1) * m == (|front| - 1) * m + m;
    }
  }

  /** Over any run, the operator is told of a refused answer at most once per cell; and a cell
      is unasked exactly as long as no lookup was made for it, so it never goes back. */
  lemma ToldOnce(events: seq<Event>, c: nat)
    requires Run(events).Some? && c < |Run(events).value.cells|
    ensures DeclinedCount(Run(events).value.log, c) <= 1
    ensures Run(events).value.cells[c].Unasked? <==> Lookups(Run(events).value.log, c) == []
  {
    QuietAlways(events, c, 0);
  }
}
