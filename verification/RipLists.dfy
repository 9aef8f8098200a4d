/** How the lists of neighbours, which timeouts shorten, decide whether the tables can converge again. */
module RipLists {
  import opened RipWire
  import opened RipRouter
  import opened RipNetwork
  import opened RipConvergence
  import opened RipRounds

  /** Router r has an address of router q among its neighbours. */
  ghost predicate Lists(net: Network, s: State, r: RouterId, q: RouterId) {
    r in s.routers && exists b :: b in s.routers[r].neighbors && b in net.owner && net.owner[b] == q
  }

  ghost predicate Acquainted(net: Network, s: State, r: RouterId, q: RouterId) {
    Lists(net, s, r, q) || Lists(net, s, q, r)
  }

  /** The packet travels from r to q or from q to r. */
  predicate Between(net: Network, pk: Packet, r: RouterId, q: RouterId) {
    && pk.src in net.owner && pk.dst in net.owner
    && ((net.owner[pk.src] == r && net.owner[pk.dst] == q) || (net.owner[pk.src] == q && net.owner[pk.dst] == r))
  }

  /** Neither has the other among its neighbours, and nothing is in flight between them. */
  ghost predicate Strangers(net: Network, s: State, r: RouterId, q: RouterId) {
    !Acquainted(net, s, r, q) && forall pk :: pk in s.channel ==> !Between(net, pk, r, q)
  }

  // ---------------------------------------------------------------------------------------------------
  // Strangers stay strangers
  // ---------------------------------------------------------------------------------------------------

  ghost predicate ListsNone(net: Network, neighbors: seq<Addr>, q: RouterId) {
    forall b :: b in neighbors && b in net.owner ==> net.owner[b] != q
  }

  lemma StrangersListNone(net: Network, s: State, r: RouterId, q: RouterId)
    requires Strangers(net, s, r, q)
    ensures r in s.routers ==> ListsNone(net, s.routers[r].neighbors, q)
    ensures q in s.routers ==> ListsNone(net, s.routers[q].neighbors, r)
  {
    assert !Lists(net, s, r, q) && !Lists(net, s, q, r);
  }

  /** The lists of a step are the old ones, less somebody, or with the sender of a packet that was in flight. */
  lemma ListsAfter(net: Network, s: State, event: Event, r: RouterId, q: RouterId)
    requires Enabled(net, s, event) && Strangers(net, s, r, q)
    ensures !Lists(net, Next(net, s, event), r, q)
  {
    hide UpdateAll, Announced, IsAdvertisement, Lists;
    StrangersListNone(net, s, r, q);
    var s' := Next(net, s, event);
    if event.Timeout? {
      RemoveKeepsOthers(s.routers[event.router].neighbors, event.index);
    } else if event.Deliver? {
      assert !Between(net, event.packet, r, q);
    }
    if r in s'.routers {
      assert ListsNone(net, s'.routers[r].neighbors, q);
    }
    NoneMeansNot(net, s', r, q);
  }

  lemma NoneMeansNot(net: Network, s: State, r: RouterId, q: RouterId)
    requires r in s.routers ==> ListsNone(net, s.routers[r].neighbors, q)
    ensures !Lists(net, s, r, q)
  {
  }

  /** What router t sends goes to its neighbours, or answers a packet that was in flight. */
  lemma AnnouncedNotBetween(
    net: Network, t: RouterId, neighbors: seq<Addr>, table: RoutingTable, out: seq<Packet>, r: RouterId, q: RouterId)
    requires Announced(net, t, neighbors, table, out)
    requires t == r ==> forall b :: b in neighbors && b in net.owner ==> net.owner[b] != q
    requires t == q ==> forall b :: b in neighbors && b in net.owner ==> net.owner[b] != r
    ensures forall pk :: pk in out ==> !Between(net, pk, r, q)
  {
    hide IsAdvertisement;
    forall pk | pk in out
      ensures !Between(net, pk, r, q)
    {
      assert IsAnnouncement(net, t, neighbors, table, pk);
    }
  }

  lemma SentOnDelivery(net: Network, s: State, pk: Packet, out: seq<Packet>, r: RouterId, q: RouterId)
    requires Enabled(net, s, Deliver(pk, out)) && Strangers(net, s, r, q)
    ensures forall o :: o in out ==> !Between(net, o, r, q)
  {
    hide UpdateAll, Announced, Lists;
    StrangersListNone(net, s, r, q);
    assert !Between(net, pk, r, q);
    var t := net.owner[pk.dst];
    var st := Receiver(net, s, pk);
    if pk.header.command == RESPONSE {
      AnnouncedNotBetween(net, t, st.neighbors, Updated(net, s, pk).triggered, out, r, q);
    } else {
      AnnouncedNotBetween(net, t, [pk.src], st.table, out, r, q);
    }
  }

  lemma SentOnTimeout(net: Network, s: State, t: RouterId, i: nat, out: seq<Packet>, r: RouterId, q: RouterId)
    requires Enabled(net, s, RipNetwork.Timeout(t, i, out)) && Strangers(net, s, r, q)
    ensures forall o :: o in out ==> !Between(net, o, r, q)
  {
    hide Announced, Lists;
    StrangersListNone(net, s, r, q);
    var st := s.routers[t];
    RemoveKeepsOthers(st.neighbors, i);
    AnnouncedNotBetween(net, t, Remove(st.neighbors, i), Farewell(st.table, st.neighbors[i]), out, r, q);
  }

  lemma SentAfter(net: Network, s: State, event: Event, r: RouterId, q: RouterId)
    requires Enabled(net, s, event) && Strangers(net, s, r, q)
    ensures forall pk :: pk in Next(net, s, event).channel ==> !Between(net, pk, r, q)
  {
    hide UpdateAll, Announced, IsAdvertisement, Lists;
    match event
    case Deliver(pk, out) => SentOnDelivery(net, s, pk, out, r, q);
    case Timeout(t, i, out) => SentOnTimeout(net, s, t, i, out, r, q);
    case _ => StrangersListNone(net, s, r, q);
  }

  lemma StrangersAreMutual(net: Network, s: State, r: RouterId, q: RouterId)
    requires Strangers(net, s, r, q)
    ensures Strangers(net, s, q, r)
  {
    hide Lists;
    forall pk | pk in s.channel
      ensures !Between(net, pk, q, r)
    {
      assert !Between(net, pk, r, q);
    }
  }

  lemma StepKeepsStrangers(net: Network, s: State, event: Event, r: RouterId, q: RouterId)
    requires Enabled(net, s, event) && Strangers(net, s, r, q)
    ensures Strangers(net, Next(net, s, event), r, q)
  {
    hide Enabled, Next, Lists, Between;
    StrangersAreMutual(net, s, r, q);
    ListsAfter(net, s, event, r, q);
    ListsAfter(net, s, event, q, r);
    SentAfter(net, s, event, r, q);
  }

  /** A link that neither end has among its neighbours never carries anything again, whatever happens. */
  lemma {:induction false} StrangersForGood(
      net: Network, states: seq<State>, events: seq<Event>, r: RouterId, q: RouterId)
    requires IsRun(net, states, events) && Strangers(net, states[0], r, q)
    ensures Strangers(net, states[|events|], r, q)
  {
    if events != [] {
      hide Enabled, Next, Strangers;
      var n := |events| - 1;
      StrangersForGood(net, states[..n + 1], events[..n], r, q);
      StepKeepsStrangers(net, states[n], events[n], r, q);
    }
  }

  /** Two timeouts make strangers of two routers that list one address of each other, if nothing is in flight. */
  lemma TwoTimeoutsEstrange(net: Network, s: State, r: RouterId, i: nat, q: RouterId, j: nat)
    returns (states: seq<State>, events: seq<Event>)
    requires r in s.routers && q in s.routers && r != q && s.channel == multiset{}
    requires i < |s.routers[r].neighbors| && ListsNone(net, Remove(s.routers[r].neighbors, i), q)
    requires j < |s.routers[q].neighbors| && ListsNone(net, Remove(s.routers[q].neighbors, j), r)
    ensures IsRun(net, states, events) && states[0] == s && |events| == 2
    ensures events[0].Timeout? && events[1].Timeout?
    ensures states[2].channel == multiset{} && Strangers(net, states[2], r, q)
  {
    hide Farewell, Purged, IsAnnouncement, Lists;
    var nr, nq := s.routers[r].neighbors, s.routers[q].neighbors;
    var event1, event2 := RipNetwork.Timeout(r, i, []), RipNetwork.Timeout(q, j, []);
    NothingAnnounced(net, r, Remove(nr, i), Farewell(s.routers[r].table, nr[i]));
    NothingAnnounced(net, q, Remove(nq, j), Farewell(s.routers[q].table, nq[j]));
    var s1 := Next(net, s, event1);
    var s2 := Next(net, s1, event2);
    states, events := [s, s1, s2], [event1, event2];
    NoneMeansNot(net, s2, r, q);
    NoneMeansNot(net, s2, q, r);
  }

  // ---------------------------------------------------------------------------------------------------
  // Among strangers nothing is learned
  // ---------------------------------------------------------------------------------------------------

  /** Router r is a stranger to every router one hop closer to p. */
  ghost predicate CutOff(net: Network, s: State, r: RouterId, p: Prefix, k: nat) {
    forall q :: Adjacent(net, r, q) && AtDistance(net, q, p, k) ==> Strangers(net, s, r, q)
  }

  lemma CutOffIsWrong(net: Network, s: State, r: RouterId, p: Prefix, k: nat)
    requires Safe(net, s) && r in s.routers && AtDistance(net, r, p, k + 1) && CutOff(net, s, r, p, k)
    ensures !ExactAt(net, s.routers[r].table, p, k + 1)
  {
    hide Adjacent, Within, IsNeighbor;
    var m := s.routers[r].table;
    if ExactAt(net, m, p, k + 1) {
      assert RouterOk(net, r, s.routers[r]);
      WithinZero(net, r, p);
      WithinZeroIsWithin(net, r, p, k);
      var h := m[p].addr;
      assert LearnedOk(net, r, s.routers[r].neighbors, p, m[p]);
      StrangersListNone(net, s, r, net.owner[h]);
      assert false;
    }
  }

  lemma WithinZeroIsWithin(net: Network, r: RouterId, p: Prefix, k: nat)
    ensures Attached(net, r, p) ==> Within(net, r, p, k)
  {
  }

  /** After any run whatever, a router that was cut off is wrong. */
  lemma CutOffNeverRight(net: Network, states: seq<State>, events: seq<Event>, r: RouterId, p: Prefix, k: nat)
    requires IsRun(net, states, events) && Safe(net, states[|events|]) && r in states[|events|].routers
    requires AtDistance(net, r, p, k + 1) && CutOff(net, states[0], r, p, k)
    ensures !ExactAt(net, states[|events|].routers[r].table, p, k + 1)
  {
    hide Enabled, Next, Strangers, AtDistance, Adjacent, Safe, ExactAt;
    forall q | Adjacent(net, r, q) && AtDistance(net, q, p, k)
      ensures Strangers(net, states[|events|], r, q)
    {
      StrangersForGood(net, states, events, r, q);
    }
    CutOffIsWrong(net, states[|events|], r, p, k);
  }

  // ---------------------------------------------------------------------------------------------------
  // One round introduces
  // ---------------------------------------------------------------------------------------------------

  /** The packet is in flight, or has introduced its sender. */
  ghost predicate Introducing(net: Network, s: State, pk: Packet) {
    && pk.dst in net.owner && net.owner[pk.dst] in s.routers
    && (pk in s.channel || pk.src in s.routers[net.owner[pk.dst]].neighbors)
  }

  lemma StepKeepsIntroducing(net: Network, s: State, event: Event, pk: Packet)
    requires Enabled(net, s, event) && InRound(event) && Introducing(net, s, pk)
    ensures Introducing(net, Next(net, s, event), pk)
  {
    hide UpdateAll, Announced, IsAdvertisement;
  }

  lemma {:induction false} RunKeepsIntroducing(
    net: Network, states: seq<State>, events: seq<Event>, pk: Packet)
    requires IsRun(net, states, events) && forall i :: 0 <= i < |events| ==> InRound(events[i])
    requires Introducing(net, states[0], pk)
    ensures Introducing(net, states[|events|], pk)
  {
    if events != [] {
      hide Enabled, Next, Introducing;
      var n := |events| - 1;
      RunKeepsIntroducing(net, states[..n + 1], events[..n], pk);
      StepKeepsIntroducing(net, states[n], events[n], pk);
    }
  }

  lemma {:induction false} RunKeepsSafe(net: Network, states: seq<State>, events: seq<Event>)
    requires WellFormed(net) && IsRun(net, states, events) && Safe(net, states[0])
    ensures Safe(net, states[|events|])
  {
    if events != [] {
      hide Enabled, Next, Safe, WellFormed;
      var n := |events| - 1;
      RunKeepsSafe(net, states[..n + 1], events[..n]);
      StepIsSafe(net, states[n], events[n]);
    }
  }

  /** Every router with a table to send has one that fits: it is attached somewhere, and its ball is small enough. */
  ghost predicate TablesFit(net: Network) {
    forall r :: r in net.local ==> net.local[r] != map[] && BallFits(net, r)
  }

  lemma AdvertiseIntroduces(net: Network, s: State, event: Event, r: RouterId, b: Addr) returns (pk: Packet)
    requires WellFormed(net) && TablesFit(net) && Safe(net, s) && Enabled(net, s, event) && Advertises(net, event, r, b)
    ensures Introducing(net, Next(net, s, event), pk) && pk.src == event.src && pk.dst == b
    ensures Link(net, event.src, b)
  {
    hide Ball, IsNeighbor, PacketOk, IsAdvertisement;
    var st := s.routers[r];
    TableIsSent(net, r, st);
    AdvertisementSize(st.table, b, event.hosts);
    pk := Response(event.src, b, event.hosts);
    var l := (event.src, b);
    assert l in net.links;
  }

  lemma TableIsSent(net: Network, r: RouterId, st: RouterState)
    requires TablesFit(net) && RouterOk(net, r, st)
    ensures RipNetwork.Fits(st.table)
  {
    hide Ball, IsNeighbor, Within, Adjacent;
    TableIsInBall(net, r, st.neighbors, st.table);
    assert r in net.local;
    var own :| own in net.local[r];
    assert own in st.table;
    assert |st.table| > 0;
  }

  /** Whoever is on the list of a router when a round starts has that router on its own list at the end. */
  lemma RoundIntroduces(net: Network, states: seq<State>, events: seq<Event>, r: RouterId, b: Addr) returns (a: Addr)
    requires WellFormed(net) && TablesFit(net) && IsRound(net, states, events) && Safe(net, states[0])
    requires r in states[0].routers && b in states[0].routers[r].neighbors
    ensures Link(net, a, b) && net.owner[a] == r && net.owner[b] in states[|events|].routers
    ensures a in states[|events|].routers[net.owner[b]].neighbors
  {
    hide Enabled, Next, WellFormed, TablesFit, Safe, IsAdvertisement;
    var i :| 0 <= i < |events| && Advertises(net, events[i], r, b);
    var event := events[i];
    RunKeepsSafe(net, states[..i + 1], events[..i]);
    var pk := AdvertiseIntroduces(net, states[i], event, r, b);
    assert states[i + 1] == Next(net, states[i], event);
    RunKeepsIntroducing(net, states[i + 1..], events[i + 1..], pk);
    assert states[i + 1..][|events[i + 1..]|] == states[|events|];
    a := event.src;
  }

  // ---------------------------------------------------------------------------------------------------
  // The lists decide
  // ---------------------------------------------------------------------------------------------------

  /** Everybody is acquainted with a router one hop closer, on one list or the other. */
  ghost predicate Bridged(net: Network, s: State) {
    forall r, p: Prefix, k: nat :: k + 1 < INFINITY && r in s.routers && AtDistance(net, r, p, k + 1) ==>
      BridgedAt(net, s, r, p, k)
  }

  ghost predicate BridgedAt(net: Network, s: State, r: RouterId, p: Prefix, k: nat) {
    exists q :: Adjacent(net, r, q) && AtDistance(net, q, p, k) && Acquainted(net, s, r, q)
  }

  /** At the end of a round, acquaintance is mutual. */
  lemma AcquaintedIsHeard(
    net: Network, states: seq<State>, events: seq<Event>, r: RouterId, q: RouterId, p: Prefix, k: nat)
    requires WellFormed(net) && TablesFit(net) && IsRound(net, states, events) && Safe(net, states[0])
    requires Acquainted(net, states[0], r, q) && AtDistance(net, q, p, k) && q in net.local
    ensures Heard(net, states[|events|], r, p, k)
  {
    hide AtDistance, Enabled, Next, BallFits, TableOk, PacketOk;
    var s, s' := states[0], states[|events|];
    assert BallFits(net, q);
    RoutersStay(net, states, events);
    if Lists(net, s, q, r) {
      var b :| b in s.routers[q].neighbors && b in net.owner && net.owner[b] == r;
      assert RouterOk(net, q, s.routers[q]);
      var a := LinkTo(net, q, b);
      assert b in s'.routers[q].neighbors;
    } else {
      var b :| b in s.routers[r].neighbors && b in net.owner && net.owner[b] == q;
      var a := RoundIntroduces(net, states, events, r, b);
      LinksAreSymmetric(net, a, b);
      assert Link(net, b, a) && a in s'.routers[q].neighbors;
    }
  }

  lemma LinksAreSymmetric(net: Network, a: Addr, b: Addr)
    requires WellFormed(net) && Link(net, a, b)
    ensures Link(net, b, a)
  {
    var l := (a, b);
    assert l in net.links;
  }

  lemma AdjacentIsLocal(net: Network, r: RouterId, q: RouterId)
    requires WellFormed(net) && Adjacent(net, r, q)
    ensures q in net.local
  {
  }

  /** One round among acquaintances, and everybody is heard of. */
  lemma RoundMakesHeard(net: Network, states: seq<State>, events: seq<Event>)
    requires WellFormed(net) && TablesFit(net) && IsRound(net, states, events) && Safe(net, states[0])
    requires Bridged(net, states[0])
    ensures HeardEverywhere(net, states[|events|])
  {
    hide AtDistance, Enabled, Next, TablesFit, Safe, WellFormed, Heard, Acquainted, Adjacent, Advertises;
    RoutersStay(net, states, events);
    forall p: Prefix, k: nat, r | k + 1 < INFINITY && r in states[|events|].routers && AtDistance(net, r, p, k + 1)
      ensures Heard(net, states[|events|], r, p, k)
    {
      assert BridgedAt(net, states[0], r, p, k);
      var q :| Adjacent(net, r, q) && AtDistance(net, q, p, k) && Acquainted(net, states[0], r, q);
      AdjacentIsLocal(net, r, q);
      AcquaintedIsHeard(net, states, events, r, q, p, k);
    }
  }

  lemma {:induction false} SplitFirst(net: Network, from: State, rounds: seq<Trace>, to: State)
    requires rounds != [] && AreRounds(net, from, rounds, to)
    ensures IsRound(net, rounds[0].states, rounds[0].events) && rounds[0].states[0] == from
    ensures AreRounds(net, rounds[0].states[|rounds[0].events|], rounds[1..], to)
  {
    hide Enabled, Next, Advertises;
    var n := |rounds| - 1;
    if n > 0 {
      SplitFirst(net, from, rounds[..n], rounds[n].states[0]);
      assert rounds[1..][..n - 1] == rounds[..n][1..];
    } else {
      assert rounds[..0] == [] && rounds[1..] == [];
    }
  }

  /** Whatever sixteen rounds follow, the tables converge. */
  ghost predicate SixteenRoundsConverge(net: Network, from: State) {
    forall rounds: seq<Trace>, to: State {:trigger AreRounds(net, from, rounds, to)} ::
      |rounds| == 16 && AreRounds(net, from, rounds, to) ==> Converged(net, to.routers)
  }

  lemma BridgedConverges(net: Network, from: State, rounds: seq<Trace>, to: State)
    requires WellFormed(net) && TablesFit(net) && Reachable(net, from) && from.channel == multiset{}
    requires Bridged(net, from) && |rounds| == 16 && AreRounds(net, from, rounds, to)
    ensures Converged(net, to.routers)
  {
    hide Bridged, TablesFit, WellFormed, Converged, HeardEverywhere, Safe, Enabled, Next, Advertises, Reachable;
    ReachableIsSafe(net, from);
    SplitFirst(net, from, rounds, to);
    var states, events := rounds[0].states, rounds[0].events;
    RoundMakesHeard(net, states, events);
    RunReaches(net, states, events);
    FifteenRoundsConverge(net, states[|events|], rounds[1..], to);
  }

  /** After one round among acquaintances, k further rounds are enough for everything within k hops. */
  lemma AcquaintedConverges(net: Network, from: State, rounds: seq<Trace>, to: State, p: Prefix)
    requires WellFormed(net) && TablesFit(net) && Reachable(net, from) && from.channel == multiset{}
    requires Bridged(net, from) && 1 <= |rounds| <= 16 && AreRounds(net, from, rounds, to)
    ensures Exact(net, to, p, |rounds| - 1)
  {
    hide Bridged, TablesFit, WellFormed, Exact, AllHeard, Safe, Enabled, Next, Advertises, Reachable;
    ReachableIsSafe(net, from);
    SplitFirst(net, from, rounds, to);
    var states, events := rounds[0].states, rounds[0].events;
    RoundMakesHeard(net, states, events);
    RunKeepsSafe(net, states, events);
    RoundsAdvance(net, states[|events|], rounds[1..], to, p);
  }

  /** It is enough that each link is on the list of one of its ends. */
  lemma ListedLinksBridge(net: Network, s: State)
    requires WellFormed(net) && s.routers.Keys == net.local.Keys
    requires forall l :: l in net.links && l.0 in net.owner && l.1 in net.owner ==>
               Acquainted(net, s, net.owner[l.1], net.owner[l.0])
    ensures Bridged(net, s)
  {
    hide Acquainted, WellFormed;
    forall r, p: Prefix, k: nat | r in s.routers && AtDistance(net, r, p, k + 1)
      ensures BridgedAt(net, s, r, p, k)
    {
      var q :| Adjacent(net, r, q) && Within(net, q, p, k);
      OneHopCloser(net, r, q, p, k);
      var a, b :| Link(net, a, b) && net.owner[a] == q && net.owner[b] == r;
      var l := (a, b);
      assert l in net.links;
    }
  }

  lemma CutOffNeverConverges(net: Network, from: State, rounds: seq<Trace>, to: State, r: RouterId, p: Prefix, k: nat)
    requires WellFormed(net) && Safe(net, from) && from.channel == multiset{} && k + 1 < INFINITY
    requires r in from.routers && AtDistance(net, r, p, k + 1) && !BridgedAt(net, from, r, p, k)
    requires AreRounds(net, from, rounds, to)
    ensures !Converged(net, to.routers)
  {
    hide AtDistance, Safe, Enabled, Next, Adjacent, Acquainted, WellFormed;
    var states, events := RoundsAreRun(net, from, rounds, to);
    RunKeepsSafe(net, states, events);
    RoundsGrowLists(net, from, rounds, to);
    assert CutOff(net, from, r, p, k);
    CutOffNeverRight(net, states, events, r, p, k);
    if Converged(net, to.routers) {
      ConvergedIsExact(net, to.routers, r, p, k + 1);
    }
  }

  /**
   From a reachable state that has drained, in a network whose tables fit: sixteen rounds converge if and only if
   everybody is acquainted, on one list or the other, with a router one hop closer to each prefix.
   */
  lemma ListsDecide(net: Network, from: State)
    requires WellFormed(net) && TablesFit(net) && Reachable(net, from) && from.channel == multiset{}
    ensures SixteenRoundsConverge(net, from) <==> Bridged(net, from)
  {
    hide TablesFit, WellFormed, Converged, Safe, Reachable, AreRounds, AtDistance, BridgedAt;
    if Bridged(net, from) {
      forall rounds: seq<Trace>, to: State | |rounds| == 16 && AreRounds(net, from, rounds, to)
        ensures Converged(net, to.routers)
      {
        BridgedConverges(net, from, rounds, to);
      }
    } else {
      ReachableIsSafe(net, from);
      var r, p: Prefix, k: nat :| k + 1 < INFINITY && r in from.routers && AtDistance(net, r, p, k + 1)
        && !BridgedAt(net, from, r, p, k);
      var rounds, to := RoundsExist(net, from, 16);
      CutOffNeverConverges(net, from, rounds, to, r, p, k);
    }
  }

  // ---------------------------------------------------------------------------------------------------
  // The smallest example
  // ---------------------------------------------------------------------------------------------------

  /** Two routers, one link, one prefix each. */
  function TwoRouters(): Network {
    Network({(1, 2), (2, 1)}, map[1 := 0, 2 := 1],
            map[0 := map[Prefix(0x0A00_0000, 8) := 1], 1 := map[Prefix(0x0B00_0000, 8) := 2]])
  }

  function TwoRoutersStart(): State {
    State(map[0 := RouterState(map[Prefix(0x0A00_0000, 8) := Hop(1, 0)], [2]),
              1 := RouterState(map[Prefix(0x0B00_0000, 8) := Hop(2, 0)], [1])], multiset{})
  }

  lemma TwoRoutersAreWellFormed()
    ensures WellFormed(TwoRouters())
  {
  }

  lemma TwoRoutersAreNeighbors()
    ensures IsNeighbor(TwoRouters(), 0, 2) && IsNeighbor(TwoRouters(), 1, 1)
  {
    var net := TwoRouters();
    var l := (1, 2);
    var m := (2, 1);
    assert l in net.links && m in net.links;
  }

  lemma TwoRoutersMayStart()
    ensures Start(TwoRouters(), TwoRoutersStart())
  {
    hide IsNeighbor;
    TwoRoutersAreNeighbors();
  }

  lemma TwoRoutersAreAdjacent()
    ensures AtDistance(TwoRouters(), 0, Prefix(0x0B00_0000, 8), 1)
    ensures forall q :: Adjacent(TwoRouters(), 0, q) ==> q == 1
  {
    var net := TwoRouters();
    assert Link(net, 2, 1) && Adjacent(net, 0, 1);
    assert Attached(net, 1, Prefix(0x0B00_0000, 8)) && Within(net, 1, Prefix(0x0B00_0000, 8), 0);
  }

  lemma TwoRoutersForget() returns (states: seq<State>, events: seq<Event>)
    ensures var net := TwoRouters();
            && IsRun(net, states, events) && states[0] == TwoRoutersStart() && |events| == 2
            && events[0].Timeout? && events[1].Timeout?
            && Strangers(net, states[2], 0, 1)
  {
    hide TwoRouters;
    var s := TwoRoutersStart();
    assert s.routers[0].neighbors == [2] && s.routers[1].neighbors == [1];
    assert Remove([2], 0) == [] && Remove([1], 0) == [];
    states, events := TwoTimeoutsEstrange(TwoRouters(), s, 0, 0, 1, 0);
  }

  /** If each of them times out once, neither ever learns the other's prefix, whatever follows. */
  lemma TwoRoutersNeverConvergeAgain() returns (states: seq<State>, events: seq<Event>)
    ensures var net := TwoRouters();
            && IsRun(net, states, events) && Start(net, states[0]) && |events| == 2
            && events[0].Timeout? && events[1].Timeout?
            && forall later: seq<State>, more: seq<Event> {:trigger IsRun(net, later, more)} ::
                 IsRun(net, later, more) && later[0] == states[2] ==>
                   !Converged(net, later[|more|].routers)
  {
    hide TwoRouters, TwoRoutersStart, Enabled, Next, Strangers, Start, Safe, WellFormed, AtDistance, Adjacent;
    var net := TwoRouters();
    var p := Prefix(0x0B00_0000, 8);
    TwoRoutersAreWellFormed();
    TwoRoutersMayStart();
    TwoRoutersAreAdjacent();
    states, events := TwoRoutersForget();
    StartIsSafe(net, states[0]);
    RunKeepsSafe(net, states, events);
    assert CutOff(net, states[2], 0, p, 0);
    TwoRoutersInAll();
    forall later: seq<State>, more: seq<Event> | IsRun(net, later, more) && later[0] == states[2]
      ensures !Converged(net, later[|more|].routers)
    {
      RunKeepsSafe(net, later, more);
      SafeRouters(net, later[|more|]);
      CutOffNeverRight(net, later, more, 0, p, 0);
      if Converged(net, later[|more|].routers) {
        ConvergedIsExact(net, later[|more|].routers, 0, p, 1);
      }
    }
  }

  lemma TwoRoutersInAll()
    ensures TwoRouters().local.Keys == {0, 1}
  {
  }

  lemma SafeRouters(net: Network, s: State)
    requires Safe(net, s)
    ensures s.routers.Keys == net.local.Keys
  {
    hide RouterOk, PacketOk;
  }
}
