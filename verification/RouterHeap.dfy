/** The objects themselves: transports on the heap, sharing cells by reference, do what the run
    model says, event for event. What is proved of every run is so proved of them. */
module RouterHeap {
  import opened Text
  import opened HostNames
  import opened Retrying
  import opened Router
  import opened RouterRuns
  import Failures

  /** Every transport of a program, with the cells they have ever pointed to and the run they
      have gone through, kept beside them. */
  class Fleet {
    var transports: seq<Transport>
    ghost var cells: seq<HeavyCell>
    ghost var events: seq<Event>

    ghost predicate Distinct()
      reads this
    {
      && (forall i, j :: 0 <= i < j < |transports| ==> transports[i] != transports[j])
      && (forall i, j :: 0 <= i < j < |cells| ==> cells[i] != cells[j])
    }

    /** The heap is that world: cell for cell, transport for transport, and two transports share
        a cell object exactly when the world says so. */
    ghost predicate Mirrors(w: World)
      reads this, transports, cells
    {
      && |cells| == |w.cells| && |transports| == |w.clients|
      && (forall c :: 0 <= c < |cells| ==> cells[c].state == w.cells[c])
      && (forall i :: 0 <= i < |transports| ==> MirrorsClient(i, w.clients[i]))
    }

    ghost predicate MirrorsClient(i: nat, client: Client)
      requires i < |transports|
      reads this, transports
    {
      && client.cell < |cells|
      && transports[i].heavy == cells[client.cell]
      && transports[i].Conf() == client.conf
    }

    ghost predicate Valid()
      reads this, transports, cells
    {
      Distinct() && Run(events).Some? && Mirrors(Run(events).value)
    }

    ghost function Now(): (now: World)
      requires Valid()
      reads this, transports, cells
    {
      Run(events).value
    }

    constructor ()
      ensures Valid() && events == [] && transports == []
    {
      transports, cells, events := [], [], [];
    }

    method Open(base: string, local: bool)
      requires Valid()
      modifies this
      ensures Valid() && events == old(events) + [Event.Open(base, local)]
    {
      hide Run;
      Enables(events, Event.Open(base, local));
      var t := new Transport(base, local);
      transports, cells := transports + [t], cells + [t.heavy];
      events := events + [Event.Open(base, local)];
    }

    method Clone(i: nat)
      requires Valid() && i < |transports|
      modifies this
      ensures Valid() && events == old(events) + [Event.Clone(i)]
    {
      hide Run;
      Enables(events, Event.Clone(i));
      var t := new Transport.Clone(transports[i]);
      transports := transports + [t];
      events := events + [Event.Clone(i)];
    }

    /** A setter that forgets: the heap after it is the world after `Forget`. */
    ghost method Forgot(e: Event, i: nat, conf: Settings)
      requires Distinct() && i < |transports| && Run(events).Some? && Enabled(Run(events).value, e)
      requires var w := Run(events).value;
        && |cells| == |w.cells| && |transports| == |w.clients| && Step(w, e) == RouterRuns.Forget(w, i, conf)
        && (forall c :: 0 <= c < |cells| ==> cells[c].state == w.cells[c])
        && (forall j :: 0 <= j < |transports| && j != i ==> MirrorsClient(j, w.clients[j]))
      requires transports[i].heavy !in cells && transports[i].heavy.state == Unasked && transports[i].Conf() == conf
      modifies this`cells, this`events
      ensures Valid() && events == old(events) + [e]
    {
      hide Step, Run;
      Enables(events, e);
      cells := cells + [transports[i].heavy];
      events := events + [e];
    }

    method SetProxyDiscovery(i: nat, enabled: bool)
      requires Valid() && i < |transports|
      modifies this`cells, this`events, transports
      ensures Valid() && events == old(events) + [SetDiscovery(i, enabled)]
    {
      hide Run;
      transports[i].SetProxyDiscovery(enabled);
      Forgot(SetDiscovery(i, enabled), i, transports[i].Conf());
    }

    method SetHeavyProxiesAnywhere(i: nat, enabled: bool)
      requires Valid() && i < |transports|
      modifies this`cells, this`events, transports
      ensures Valid() && events == old(events) + [SetRule(i, if enabled then Anywhere else SameDomain)]
    {
      hide Run;
      transports[i].SetHeavyProxiesAnywhere(enabled);
      Forgot(SetRule(i, if enabled then Anywhere else SameDomain), i, transports[i].Conf());
    }

    method SetHeavyProxiesIn(i: nat, names: seq<string>)
      requires Valid() && i < |transports|
      modifies this`cells, this`events, transports
      ensures Valid() && events == old(events) + [SetRule(i, Only(names))]
    {
      hide Run;
      transports[i].SetHeavyProxiesIn(names);
      Forgot(SetRule(i, Only(names)), i, transports[i].Conf());
    }

    method SetHeavyProxiesUnder(i: nat, domains: seq<string>)
      requires Valid() && i < |transports|
      modifies this`cells, this`events, transports
      ensures Valid() && events == old(events) + [SetRule(i, UnderRule(domains))]
    {
      hide Run, UnderRule;
      transports[i].SetHeavyProxiesUnder(domains);
      Forgot(SetRule(i, UnderRule(domains)), i, transports[i].Conf());
    }

    method SetHostsRetryAfter(i: nat, wait: Duration)
      requires Valid() && i < |transports|
      modifies this`events, transports
      ensures Valid() && events == old(events) + [SetRetryAfter(i, wait)]
    {
      hide Run;
      Enables(events, SetRetryAfter(i, wait));
      transports[i].SetHostsRetryAfter(wait);
      events := events + [SetRetryAfter(i, wait)];
    }

    method SetHostListRefreshInterval(i: nat, wait: Duration)
      requires Valid() && i < |transports|
      modifies this`events, transports
      ensures Valid() && events == old(events) + [SetRefresh(i, wait)]
    {
      hide Run;
      Enables(events, SetRefresh(i, wait));
      transports[i].SetHostListRefreshInterval(wait);
      events := events + [SetRefresh(i, wait)];
    }

    /** A command placed. Where it goes is the last line of the log, so it came from the last
        answer its cell accepted, was not dropped since, and is admitted by this transport. */
    method Command(i: nat, repeatable: Repeatable, asked: Instant, lookup: Lookup, settled: Instant, word: nat)
      returns (destination: Destination)
      requires Valid() && i < |transports| && Now().now <= asked <= settled
      modifies this`events, cells
      ensures Valid() && events == old(events) + [Event.Command(i, repeatable, asked, lookup, settled, word)]
      ensures destination.Discovered? ==>
        var Client(c, conf) := Now().clients[i];
        var log := Now().log;
        && conf == transports[i].Conf() && log != [] && log[|log| - 1] == Handed(c, conf, destination.address)
        && Justified(log[..|log| - 1], c, conf, destination.address)
      ensures destination.AtConfigured? ==> destination.address == transports[i].base
      ensures var Client(c, conf) := Now().clients[i];
        destination.Discovered? <==> repeatable == Heavy && conf.discovery && Now().cells[c].Pool?
    {
      hide Run, Routed, Due, Declines, Justified, LeftBy, AsksAgain, SomeUsable;
      ghost var e := Event.Command(i, repeatable, asked, lookup, settled, word);
      ghost var w := Now();
      Enables(events, e);
      ghost var c := w.clients[i].cell;
      assert MirrorsClient(i, w.clients[i]);
      assert w.cells[c].Valid();
      var looked, declined;
      destination, looked, declined := transports[i].BaseFor(repeatable, asked, lookup, settled, word);
      events := events + [e];
      if destination.Discovered? {
        HandedJustlyAlways(events);
        LastHanded(w, e);
      }
    }

    /** A command finished, however late. */
    method Finish(i: nat, repeatable: Repeatable, destination: Destination, failure: Option<Failures.ClientError>, at: Instant)
      requires Valid() && i < |transports| && Now().now <= at
      modifies this`events, cells
      ensures Valid() && events == old(events) + [Event.Finish(i, repeatable, destination, failure, at)]
    {
      hide Run, Blamed, Blames, LeftAfter;
      ghost var e := Event.Finish(i, repeatable, destination, failure, at);
      ghost var w := Now();
      Enables(events, e);
      assert MirrorsClient(i, w.clients[i]);
      assert w.cells[w.clients[i].cell].Valid();
      transports[i].AfterHeavy(repeatable, destination, failure, at);
      if Blames(repeatable, transports[i].Conf(), destination, failure) {
        BlamedIsHeavy(repeatable, transports[i].Conf(), destination, failure);
      }
      events := events + [e];
    }
  }

  lemma BlamedIsHeavy(repeatable: Repeatable, conf: Settings, destination: Destination, failure: Option<Failures.ClientError>)
    requires Blames(repeatable, conf, destination, failure)
    ensures destination.Discovered?
  {
  }

  /** The log of a command that was sent to a discovered proxy ends with that. */
  lemma LastHanded(w: World, e: Event)
    requires Sound(w) && Enabled(w, e) && e.Command? && e.repeatable == Heavy && w.clients[e.client].conf.discovery
    ensures var Client(c, conf) := w.clients[e.client];
      var r := Step(w, e);
      var placed := Placed(r.cells[c], conf, e.word);
      && r.clients == w.clients
      && (placed.Discovered? ==> r.log != [] && r.log[|r.log| - 1] == Handed(c, conf, placed.address))
  {
    hide Routed, Due, Declines;
  }

  lemma Enables(events: seq<Event>, e: Event)
    requires Run(events).Some? && Enabled(Run(events).value, e)
    ensures Run(events + [e]) == Some(Step(Run(events).value, e))
  {
    hide Step;
    assert (events + [e])[..|events|] == events;
  }
}
