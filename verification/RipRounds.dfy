/** Rounds of advertisements exist from every safe state that has drained. */
module RipRounds {
  import opened RipWire
  import opened RipRouter
  import opened RipNetwork
  import opened RipConvergence

  // ---------------------------------------------------------------------------------------------------
  // Runs, joined
  // ---------------------------------------------------------------------------------------------------

  lemma Join(net: Network, states: seq<State>, events: seq<Event>, states': seq<State>, events': seq<Event>)
    requires IsRun(net, states, events) && IsRun(net, states', events') && states'[0] == states[|events|]
    ensures IsRun(net, states + states'[1..], events + events')
    ensures (states + states'[1..])[|events| + |events'|] == states'[|events'|]
  {
    hide Enabled, Next;
    var all, both := states + states'[1..], events + events';
    forall i | 0 <= i < |both|
      ensures Enabled(net, all[i], both[i]) && all[i + 1] == Next(net, all[i], both[i])
    {
      if i >= |events| {
        var j := i - |events|;
        assert both[i] == events'[j] && all[i] == states'[j] && all[i + 1] == states'[j + 1];
      } else {
        assert both[i] == events[i] && all[i] == states[i] && all[i + 1] == states[i + 1];
      }
    }
  }

  lemma OneStep(net: Network, s: State, event: Event)
    requires Enabled(net, s, event)
    ensures IsRun(net, [s, Next(net, s, event)], [event])
  {
    hide Enabled, Next;
  }

  lemma RunReaches(net: Network, states: seq<State>, events: seq<Event>)
    requires IsRun(net, states, events) && Reachable(net, states[0])
    ensures Reachable(net, states[|events|])
  {
    hide Enabled, Next, Start;
    var states0, events0 :| IsRun(net, states0, events0) && Start(net, states0[0]) && states0[|events0|] == states[0];
    Join(net, states0, events0, states, events);
    assert (states0 + states[1..])[0] == states0[0];
  }

  lemma {:induction false} RoundsAreRun(net: Network, from: State, rounds: seq<Trace>, to: State)
    returns (states: seq<State>, events: seq<Event>)
    requires AreRounds(net, from, rounds, to)
    ensures IsRun(net, states, events) && states[0] == from && states[|events|] == to
  {
    hide Enabled, Next;
    if rounds == [] {
      return [from], [];
    }
    var n := |rounds| - 1;
    states, events := RoundsAreRun(net, from, rounds[..n], rounds[n].states[0]);
    Join(net, states, events, rounds[n].states, rounds[n].events);
    states, events := states + rounds[n].states[1..], events + rounds[n].events;
  }

  // ---------------------------------------------------------------------------------------------------
  // One round
  // ---------------------------------------------------------------------------------------------------

  lemma {:induction false} AdvertisementExists(table: RoutingTable, dst: Addr) returns (hosts: seq<Route>)
    ensures IsAdvertisement(table, dst, hosts)
    decreases |table|
  {
    if table == map[] {
      hosts := [];
    } else {
      var p :| p in table;
      var rest := table - {p};
      assert rest.Keys == table.Keys - {p};
      assert |rest| == |rest.Keys| == |table.Keys| - 1;
      hosts := AdvertisementExists(rest, dst);
      OneMoreRoute(table, p, dst, hosts);
      hosts := hosts + [ToRoute(p, AdvertisedCost(table[p], dst))];
    }
  }

  lemma OneMoreRoute(table: RoutingTable, p: Prefix, dst: Addr, hosts: seq<Route>)
    requires p in table && IsAdvertisement(table - {p}, dst, hosts) && |table - {p}| == |table| - 1
    ensures IsAdvertisement(table, dst, hosts + [ToRoute(p, AdvertisedCost(table[p], dst))])
  {
    var r := ToRoute(p, AdvertisedCost(table[p], dst));
    PrefixRoundTrip(p, AdvertisedCost(table[p], dst));
    hide ToRoute, ToPrefix, AdvertisedCost, Distinct;
    var all := hosts + [r];
    OneMoreDistinct(hosts, r);
    forall q | q in table
      ensures ToRoute(q, AdvertisedCost(table[q], dst)) in all
    {
      if q != p {
        assert q in table - {p};
      }
    }
    forall h | h in all
      ensures ToPrefix(h) in table && h == ToRoute(ToPrefix(h), AdvertisedCost(table[ToPrefix(h)], dst))
    {
      if h in hosts {
        assert ToPrefix(h) in table - {p};
      } else {
        assert h == r;
      }
    }
  }

  lemma OneMoreDistinct(hosts: seq<Route>, r: Route)
    requires Distinct(hosts) && forall h :: h in hosts ==> ToPrefix(h) != ToPrefix(r)
    ensures Distinct(hosts + [r])
  {
    hide ToPrefix;
  }

  /** A router and one of its neighbours. */
  type Pair = (RouterId, Addr)

  ghost predicate Pairs(s: State, todo: set<Pair>) {
    forall e :: e in todo ==> e.0 in s.routers && e.1 in s.routers[e.0].neighbors
  }

  ghost predicate Visited(net: Network, events: seq<Event>, todo: set<Pair>) {
    forall e :: e in todo ==> exists i :: 0 <= i < |events| && Advertises(net, events[i], e.0, e.1)
  }

  predicate OnlyAdvertises(events: seq<Event>) {
    forall i :: 0 <= i < |events| ==> events[i].Advertise?
  }

  /** What is in the channel was sent from the tables of `s0`, each of which fits into a packet. */
  ghost predicate FromTablesOf(net: Network, s0: State, channel: multiset<Packet>) {
    forall pk :: pk in channel ==> IsFromTableOf(net, s0, pk)
  }

  ghost predicate IsFromTableOf(net: Network, s0: State, pk: Packet) {
    && pk.src in net.owner && net.owner[pk.src] in s0.routers && pk.header.command == RESPONSE
    && var table := s0.routers[net.owner[pk.src]].table;
       RipNetwork.Fits(table) && IsAdvertisement(table, pk.dst, pk.header.hosts)
  }

  lemma EmitOne(net: Network, s: State, e: Pair) returns (event: Event)
    requires WellFormed(net) && Safe(net, s) && Pairs(s, {e})
    ensures Enabled(net, s, event) && event.Advertise? && Advertises(net, event, e.0, e.1)
    ensures Next(net, s, event).routers == s.routers && Safe(net, Next(net, s, event))
    ensures forall pk :: pk in Next(net, s, event).channel ==> pk in s.channel || IsFromTableOf(net, s, pk)
  {
    hide IsAdvertisement, TableOk, PacketOk;
    assert e in {e};
    assert RouterOk(net, e.0, s.routers[e.0]);
    var src := LinkTo(net, e.0, e.1);
    var hosts := AdvertisementExists(s.routers[e.0].table, e.1);
    event := Advertise(src, e.1, hosts);
    StepIsSafe(net, s, event);
  }

  lemma LinkTo(net: Network, r: RouterId, b: Addr) returns (src: Addr)
    requires WellFormed(net) && IsNeighbor(net, r, b)
    ensures Link(net, src, b) && net.owner[src] == r
  {
    var l :| l in net.links && l.1 == b && l.0 in net.owner && net.owner[l.0] == r;
    src := l.0;
  }

  /** All advertisements of a round go out, the tables unchanged. */
  lemma {:induction false} EmitAll(
      net: Network, s: State, todo: set<Pair>) returns (states: seq<State>, events: seq<Event>)
    requires WellFormed(net) && Safe(net, s) && Pairs(s, todo)
    ensures IsRun(net, states, events) && states[0] == s && OnlyAdvertises(events) && Visited(net, events, todo)
    ensures var last := states[|events|];
            && last.routers == s.routers && Safe(net, last)
            && forall pk :: pk in last.channel ==> pk in s.channel || IsFromTableOf(net, s, pk)
    decreases |todo|
  {
    hide Safe, WellFormed, Enabled, Next, IsFromTableOf, Advertises;
    if todo == {} {
      return [s], [];
    }
    var e :| e in todo;
    var event := EmitOne(net, s, e);
    var s1 := Next(net, s, event);
    OneStep(net, s, event);
    var states1, events1 := EmitAll(net, s1, todo - {e});
    Join(net, [s, s1], [event], states1, events1);
    states, events := [s, s1] + states1[1..], [event] + events1;
    VisitedBoth(net, event, events1, e, todo);
    FromSameTables(net, s, s1, states1[|events1|].channel);
  }

  lemma FromSameTables(net: Network, s: State, s1: State, channel: multiset<Packet>)
    requires s.routers == s1.routers
    requires forall pk :: pk in channel ==> pk in s1.channel || IsFromTableOf(net, s1, pk)
    ensures forall pk :: pk in channel ==> pk in s1.channel || IsFromTableOf(net, s, pk)
  {
    hide IsAdvertisement;
  }

  lemma VisitedBoth(net: Network, event: Event, events: seq<Event>, e: Pair, todo: set<Pair>)
    requires Advertises(net, event, e.0, e.1) && Visited(net, events, todo - {e})
    ensures Visited(net, [event] + events, todo)
  {
    hide Advertises;
    var both := [event] + events;
    forall f | f in todo
      ensures exists i :: 0 <= i < |both| && Advertises(net, both[i], f.0, f.1)
    {
      if f == e {
        assert Advertises(net, both[0], f.0, f.1);
      } else {
        var i :| 0 <= i < |events| && Advertises(net, events[i], f.0, f.1);
        assert both[i + 1] == events[i];
      }
    }
  }

  predicate OnlyDelivers(events: seq<Event>) {
    forall i :: 0 <= i < |events| ==> events[i].Deliver? && events[i].out == []
  }

  lemma DeliverOne(net: Network, s: State, pk: Packet)
    requires WellFormed(net) && Safe(net, s) && pk in s.channel
    ensures Enabled(net, s, Deliver(pk, []))
    ensures var s' := Next(net, s, Deliver(pk, [])); Safe(net, s') && |s'.channel| == |s.channel| - 1
  {
    hide TableOk, UpdateAll;
    PacketEnds(net, s, pk);
    NothingAnnounced(net, net.owner[pk.dst], Receiver(net, s, pk).neighbors, Updated(net, s, pk).triggered);
    NothingAnnounced(net, net.owner[pk.dst], [pk.src], s.routers[net.owner[pk.dst]].table);
    StepIsSafe(net, s, Deliver(pk, []));
    assert s.channel - multiset{pk} + multiset([]) == s.channel - multiset{pk};
  }

  lemma NothingAnnounced(net: Network, r: RouterId, neighbors: seq<Addr>, table: RoutingTable)
    ensures Announced(net, r, neighbors, table, [])
  {
  }

  /** Everything in flight is delivered; the announcements of changes are lost. */
  lemma {:induction false} Drain(net: Network, s: State) returns (states: seq<State>, events: seq<Event>)
    requires WellFormed(net) && Safe(net, s)
    ensures IsRun(net, states, events) && states[0] == s && OnlyDelivers(events)
    ensures states[|events|].channel == multiset{} && Safe(net, states[|events|])
    decreases |s.channel|
  {
    hide Safe, WellFormed, Enabled, Next;
    if s.channel == multiset{} {
      return [s], [];
    }
    var pk :| pk in s.channel;
    DeliverOne(net, s, pk);
    var event := Deliver(pk, []);
    var s1 := Next(net, s, event);
    OneStep(net, s, event);
    var states1, events1 := Drain(net, s1);
    Join(net, [s, s1], [event], states1, events1);
    states, events := [s, s1] + states1[1..], [event] + events1;
  }

  ghost function AllPairs(s: State): set<Pair> {
    set r, b | r in s.routers && b in s.routers[r].neighbors :: (r, b)
  }

  /** A round in two parts: all tables go out first, and then they arrive. */
  lemma RoundInTwoParts(net: Network, s: State)
    returns (states: seq<State>, sending: seq<Event>, mid: State, states': seq<State>, arriving: seq<Event>)
    requires WellFormed(net) && Safe(net, s) && s.channel == multiset{}
    ensures IsRun(net, states', arriving) && states'[0] == mid && OnlyDelivers(arriving)
    ensures mid.routers == s.routers && Safe(net, mid) && FromTablesOf(net, s, mid.channel)
    ensures IsRound(net, states, sending + arriving) && states[0] == s
    ensures states[|sending + arriving|] == states'[|arriving|] && Safe(net, states'[|arriving|])
  {
    hide Safe, WellFormed, Enabled, Next, IsFromTableOf, Advertises;
    var states1;
    states1, sending := EmitAll(net, s, AllPairs(s));
    mid := states1[|sending|];
    states', arriving := Drain(net, mid);
    Join(net, states1, sending, states', arriving);
    states := states1 + states'[1..];
    AllVisited(net, s, sending, arriving);
  }

  lemma AllVisited(net: Network, s: State, sending: seq<Event>, arriving: seq<Event>)
    requires Visited(net, sending, AllPairs(s)) && OnlyAdvertises(sending) && OnlyDelivers(arriving)
    ensures forall r, b :: r in s.routers && b in s.routers[r].neighbors ==>
              exists i :: 0 <= i < |sending + arriving| && Advertises(net, (sending + arriving)[i], r, b)
    ensures forall i :: 0 <= i < |sending + arriving| ==> InRound((sending + arriving)[i])
  {
    hide Advertises;
    forall r, b | r in s.routers && b in s.routers[r].neighbors
      ensures exists i :: 0 <= i < |sending + arriving| && Advertises(net, (sending + arriving)[i], r, b)
    {
      assert (r, b) in AllPairs(s);
      var e := (r, b);
      assert e in AllPairs(s);
      var i :| 0 <= i < |sending| && Advertises(net, sending[i], e.0, e.1);
      assert (sending + arriving)[i] == sending[i];
    }
  }

  lemma RoundExists(net: Network, s: State) returns (states: seq<State>, events: seq<Event>)
    requires WellFormed(net) && Safe(net, s) && s.channel == multiset{}
    ensures IsRound(net, states, events) && states[0] == s && Safe(net, states[|events|])
  {
    hide Safe, WellFormed, Enabled, Next;
    var sending, mid, states', arriving;
    states, sending, mid, states', arriving := RoundInTwoParts(net, s);
    events := sending + arriving;
  }

  /** Any number of rounds can follow. */
  lemma {:induction false} RoundsExist(net: Network, from: State, n: nat) returns (rounds: seq<Trace>, to: State)
    requires WellFormed(net) && Safe(net, from) && from.channel == multiset{}
    ensures |rounds| == n && AreRounds(net, from, rounds, to) && Safe(net, to) && to.channel == multiset{}
  {
    hide Safe, WellFormed, Enabled, Next, Advertises;
    if n == 0 {
      return [], from;
    }
    var before, mid := RoundsExist(net, from, n - 1);
    var states, events := RoundExists(net, mid);
    rounds, to := before + [Trace(states, events)], states[|events|];
    assert rounds[..n - 1] == before;
  }

  /** Fifteen rounds from the start reach converged tables, if everybody is heard of there one hop closer. */
  lemma ConvergenceIsReachable(net: Network, s: State) returns (to: State)
    requires WellFormed(net) && Start(net, s) && HeardEverywhere(net, s)
    ensures Reachable(net, to) && Converged(net, to.routers)
  {
    hide Safe, WellFormed, Enabled, Next, HeardEverywhere, Converged;
    StartIsSafe(net, s);
    StartIsReachable(net, s);
    var rounds;
    rounds, to := RoundsExist(net, s, 15);
    FifteenRoundsConverge(net, s, rounds, to);
    var states, events := RoundsAreRun(net, s, rounds, to);
    RunReaches(net, states, events);
  }

  lemma StartIsReachable(net: Network, s: State)
    requires Start(net, s)
    ensures Reachable(net, s)
  {
    hide Enabled, Next;
    assert IsRun(net, [s], []) && [s][0] == s;
  }
}
