/** How the limit of 64 entries in a packet bounds convergence, exactly. */
module RipLimits {
  import opened RipWire
  import opened RipRouter
  import opened RipNetwork
  import opened RipConvergence
  import opened RipRounds

  /** Every router k + 1 hops from p has an adjacent router at distance k whose table fits into a packet. */
  ghost predicate FitsOneHopCloser(net: Network, p: Prefix, k: nat) {
    forall r :: r in net.local && AtDistance(net, r, p, k + 1) ==> HasFittingServer(net, r, p, k)
  }

  ghost predicate HasFittingServer(net: Network, r: RouterId, p: Prefix, k: nat) {
    exists q :: Adjacent(net, r, q) && AtDistance(net, q, p, k) && BallFits(net, q)
  }

  /** Routers at distance k have their partners at distance k + 1 as neighbours. */
  ghost predicate Listed(net: Network, s: State, p: Prefix, k: nat) {
    forall a, b ::
      (Link(net, a, b) && net.owner[a] in s.routers
       && AtDistance(net, net.owner[a], p, k) && AtDistance(net, net.owner[b], p, k + 1)) ==>
        b in s.routers[net.owner[a]].neighbors
  }

  /** Whatever round follows makes the routers k + 1 hops from p right. */
  ghost predicate RoundSuffices(net: Network, s: State, p: Prefix, k: nat) {
    forall states: seq<State>, events: seq<Event> {:trigger IsRound(net, states, events)} ::
      IsRound(net, states, events) && states[0] == s ==> Exact(net, states[|events|], p, k + 1)
  }

  /** From wherever a run has led, once the routers within k hops of p are right, one round does it for k + 1. */
  ghost predicate RoundsAlwaysAdvance(net: Network) {
    forall s: State, p: Prefix, k: nat ::
      k + 1 < INFINITY && Reachable(net, s) && s.channel == multiset{} && Listed(net, s, p, k)
      && Exact(net, s, p, k) ==>
        RoundSuffices(net, s, p, k)
  }

  /** The exact condition, on the network alone. */
  ghost predicate FitsEverywhere(net: Network) {
    forall p: Prefix, k: nat :: k + 1 < INFINITY ==> FitsOneHopCloser(net, p, k)
  }

  // ---------------------------------------------------------------------------------------------------
  // The condition is enough
  // ---------------------------------------------------------------------------------------------------

  lemma FittingIsHeard(net: Network, s: State, p: Prefix, k: nat)
    requires WellFormed(net) && Safe(net, s) && Listed(net, s, p, k) && FitsOneHopCloser(net, p, k)
    ensures AllHeard(net, s, p, k)
  {
    hide AtDistance, BallFits, RouterOk, PacketOk;
    forall r | r in s.routers && AtDistance(net, r, p, k + 1)
      ensures Heard(net, s, r, p, k)
    {
      assert HasFittingServer(net, r, p, k);
      var q :| Adjacent(net, r, q) && AtDistance(net, q, p, k) && BallFits(net, q);
      var a, b :| Link(net, a, b) && net.owner[a] == q && net.owner[b] == r;
      LinkedIsLocal(net, a, b);
    }
  }

  lemma LinkedIsLocal(net: Network, a: Addr, b: Addr)
    requires WellFormed(net) && Link(net, a, b)
    ensures net.owner[a] in net.local && net.owner[b] in net.local && net.owner[a] != net.owner[b]
  {
    var l := (a, b);
    assert l in net.links;
  }

  lemma FittingSuffices(net: Network, s: State, p: Prefix, k: nat)
    requires WellFormed(net) && FitsEverywhere(net) && k + 1 < INFINITY
    requires Listed(net, s, p, k) && Exact(net, s, p, k)
    ensures RoundSuffices(net, s, p, k)
  {
    hide RoutersExact, PacketExact, AllHeard, Listed, FitsOneHopCloser;
    FittingIsHeard(net, s, p, k);
    forall states: seq<State>, events: seq<Event> | IsRound(net, states, events) && states[0] == s
      ensures Exact(net, states[|events|], p, k + 1)
    {
      RoundAdvances(net, states, events, p, k);
    }
  }

  // ---------------------------------------------------------------------------------------------------
  // A full start
  // ---------------------------------------------------------------------------------------------------

  /** Every router has all its link partners as neighbours. */
  ghost predicate Introduced(net: Network, s: State) {
    forall l :: l in net.links && l.0 in net.owner && net.owner[l.0] in s.routers ==>
      l.1 in s.routers[net.owner[l.0]].neighbors
  }

  lemma IntroducedIsListed(net: Network, s: State, p: Prefix, k: nat)
    requires Introduced(net, s)
    ensures Listed(net, s, p, k)
  {
    hide AtDistance;
    forall a, b | Link(net, a, b) && net.owner[a] in s.routers
      ensures b in s.routers[net.owner[a]].neighbors
    {
      var l := (a, b);
      assert l in net.links;
    }
  }

  ghost function SeqOf(addrs: set<Addr>): (q: seq<Addr>)
    ensures forall a :: a in q <==> a in addrs
  {
    if addrs == {} then [] else
      var a :| a in addrs;
      [a] + SeqOf(addrs - {a})
  }

  ghost function Partners(net: Network, r: RouterId): set<Addr> {
    set l | l in net.links && l.0 in net.owner && net.owner[l.0] == r :: l.1
  }

  function OwnTable(net: Network, r: RouterId): RoutingTable
    requires r in net.local
  {
    map p | p in net.local[r] :: Hop(net.local[r][p], 0)
  }

  ghost function FullRouter(net: Network, r: RouterId): RouterState
    requires r in net.local
  {
    RouterState(OwnTable(net, r), SeqOf(Partners(net, r)))
  }

  ghost function FullStart(net: Network): State {
    State(map r | r in net.local :: FullRouter(net, r), multiset{})
  }

  lemma PartnersAreNeighbors(net: Network, r: RouterId)
    ensures forall b :: b in Partners(net, r) ==> IsNeighbor(net, r, b) || b !in net.owner
    ensures forall l :: l in net.links && l.0 in net.owner && net.owner[l.0] == r ==> l.1 in Partners(net, r)
  {
  }

  lemma FullStartIsStart(net: Network)
    requires WellFormed(net)
    ensures Start(net, FullStart(net)) && Introduced(net, FullStart(net))
  {
    hide IsNeighbor, Partners, SeqOf, WellFormed;
    var s := FullStart(net);
    forall r | r in s.routers
      ensures forall b :: b in s.routers[r].neighbors ==> IsNeighbor(net, r, b)
    {
      PartnersAreNeighbors(net, r);
      PartnersAreOwned(net, r);
    }
    forall l | l in net.links && l.0 in net.owner && net.owner[l.0] in s.routers
      ensures l.1 in s.routers[net.owner[l.0]].neighbors
    {
      PartnersAreNeighbors(net, net.owner[l.0]);
    }
  }

  lemma PartnersAreOwned(net: Network, r: RouterId)
    requires WellFormed(net)
    ensures forall b :: b in Partners(net, r) ==> b in net.owner
  {
  }

  // ---------------------------------------------------------------------------------------------------
  // The condition is needed
  // ---------------------------------------------------------------------------------------------------

  /** Rounds that always advance lead to a state in which everything within n hops is right. */
  lemma {:induction false} RightStateIsReached(net: Network, n: nat) returns (s: State)
    requires WellFormed(net) && RoundsAlwaysAdvance(net) && n < INFINITY
    ensures Reachable(net, s) && Introduced(net, s) && s.channel == multiset{}
    ensures forall p: Prefix :: Exact(net, s, p, n)
  {
    hide Safe, WellFormed, Enabled, Next, Exact, Introduced, Start, Listed, Advertises;
    if n == 0 {
      s := FullStart(net);
      FullStartIsStart(net);
      StartIsReachable(net, s);
      ReachableIsSafe(net, s);
      FullStartIsDrained(net);
      forall p: Prefix ensures Exact(net, s, p, 0) { SafeIsExactAtZero(net, s, p); }
    } else {
      var s0 := RightStateIsReached(net, n - 1);
      ReachableIsSafe(net, s0);
      var states, events := RoundExists(net, s0);
      s := states[|events|];
      RunReaches(net, states, events);
      RoutersStay(net, states, events);
      IntroducedStays(net, s0, s);
      forall p: Prefix
        ensures Exact(net, s, p, n)
      {
        IntroducedIsListed(net, s0, p, n - 1);
        assert RoundSuffices(net, s0, p, n - 1);
      }
    }
  }

  lemma FullStartIsDrained(net: Network)
    ensures FullStart(net).channel == multiset{}
  {
  }

  lemma IntroducedStays(net: Network, s: State, s': State)
    requires Introduced(net, s) && ListsGrow(s, s')
    ensures Introduced(net, s')
  {
  }

  /** Everything within 15 hops is right: the tables are the balls. */
  ghost predicate AllRight(net: Network, s: State) {
    Safe(net, s) && forall r, p: Prefix :: r in s.routers ==> TableExact(net, r, s.routers[r].table, p, 15)
  }

  lemma ExactIsAllRight(net: Network, s: State)
    requires forall p: Prefix :: Exact(net, s, p, 15)
    ensures AllRight(net, s)
  {
    hide Exact, TableExact;
    ExactIsSafe(net, s, Prefix(0, 0), 15);
    forall r, p: Prefix | r in s.routers
      ensures TableExact(net, r, s.routers[r].table, p, 15)
    {
      ExactIsSafe(net, s, p, 15);
    }
  }

  lemma FittingTableFitsBall(net: Network, s: State, r: RouterId)
    requires AllRight(net, s) && r in s.routers && |s.routers[r].table| <= MAX_ENTRIES
    ensures BallFits(net, r)
  {
    hide AtDistance, ExactAt, Adjacent, IsNeighbor;
    var m := s.routers[r].table;
    assert RouterOk(net, r, s.routers[r]);
    TableIsInBall(net, r, s.routers[r].neighbors, m);
    forall p | p in Ball(net, r)
      ensures p in m.Keys
    {
      var d := DistanceExists(net, r, p, 15);
      assert TableExact(net, r, m, p, 15);
      ExactIsThere(net, m, p, d);
    }
    assert m.Keys == Ball(net, r);
    assert |m.Keys| == |m|;
  }

  /** Router r has forgotten what it knew via its next hop for p; everybody else is right about everything. */
  ghost predicate Forgotten(net: Network, x: State, s: State, r: RouterId, p: Prefix, k: nat) {
    && AllRight(net, x) && Safe(net, s)
    && r in x.routers && s.routers.Keys == x.routers.Keys
    && (forall t :: t in x.routers && t != r ==> s.routers[t] == x.routers[t])
    && (forall q :: q in s.routers[r].table ==>
          q in x.routers[r].table && s.routers[r].table[q] == x.routers[r].table[q])
    && AtDistance(net, r, p, k + 1) && p !in s.routers[r].table
  }

  /** The next hop for p times out, and what is said about it gets lost. */
  lemma Forget(net: Network, x: State, r: RouterId, p: Prefix, k: nat) returns (y: State)
    requires WellFormed(net) && Reachable(net, x) && AllRight(net, x) && x.channel == multiset{} && k + 1 < INFINITY
    requires r in x.routers && AtDistance(net, r, p, k + 1) && Listed(net, x, p, k)
    ensures Reachable(net, y) && y.channel == multiset{} && Listed(net, y, p, k) && Exact(net, y, p, k)
    ensures Forgotten(net, x, y, r, p, k)
  {
    hide AtDistance, RouterOk, PacketOk, Reachable, WellFormed, Start, Listed, TableExact;
    var st := x.routers[r];
    var i := NextHopIsListed(net, x, r, p, k);
    var h := st.neighbors[i];
    var event := RipNetwork.Timeout(r, i, []);
    NothingAnnounced(net, r, Remove(st.neighbors, i), Farewell(st.table, h));
    y := Next(net, x, event);
    StepIsSafe(net, x, event);
    OneStep(net, x, event);
    RunReaches(net, [x, y], [event]);
    ForgottenIsExact(net, x, y, r, p, k);
    ForgottenIsListed(net, x, y, r, p, k);
  }

  lemma ForgottenIsListed(net: Network, x: State, y: State, r: RouterId, p: Prefix, k: nat)
    requires Listed(net, x, p, k) && Forgotten(net, x, y, r, p, k)
    ensures Listed(net, y, p, k)
  {
    hide Safe, AllRight, AtDistance;
    forall a, b | Link(net, a, b) && net.owner[a] in y.routers
      && AtDistance(net, net.owner[a], p, k) && AtDistance(net, net.owner[b], p, k + 1)
      ensures b in y.routers[net.owner[a]].neighbors
    {
      OneDistance(net, r, p, k);
    }
  }

  /** The next hop for p is in the list of neighbours. */
  lemma NextHopIsListed(net: Network, x: State, r: RouterId, p: Prefix, k: nat) returns (i: nat)
    requires AllRight(net, x) && r in x.routers && AtDistance(net, r, p, k + 1) && k < 15
    ensures var st := x.routers[r];
            p in st.table && i < |st.neighbors| && st.neighbors[i] == st.table[p].addr
  {
    hide Adjacent, Within, IsNeighbor;
    var st := x.routers[r];
    assert RouterOk(net, r, st) && TableExact(net, r, st.table, p, 15) && ExactAt(net, st.table, p, k + 1);
    NotAttachedFurther(net, r, p, k);
    assert st.table[p].addr in st.neighbors;
    i :| i < |st.neighbors| && st.neighbors[i] == st.table[p].addr;
  }

  lemma OneDistance(net: Network, r: RouterId, p: Prefix, k: nat)
    ensures !(AtDistance(net, r, p, k) && AtDistance(net, r, p, k + 1))
  {
    hide Within;
  }

  lemma NotAttachedFurther(net: Network, r: RouterId, p: Prefix, k: nat)
    requires AtDistance(net, r, p, k + 1)
    ensures !Attached(net, r, p)
  {
    hide Adjacent;
  }

  lemma ForgottenIsExact(net: Network, x: State, y: State, r: RouterId, p: Prefix, k: nat)
    requires Forgotten(net, x, y, r, p, k) && y.channel == multiset{} && k < 15
    ensures Exact(net, y, p, k)
  {
    hide Safe, AtDistance, ExactAt;
    forall t, d: nat | t in y.routers && d <= k && AtDistance(net, t, p, d)
      ensures ExactAt(net, y.routers[t].table, p, d)
    {
      if t == r {
        DistanceIsUnique(net, r, p, d, k + 1);
        assert false;
      } else {
        assert TableExact(net, t, x.routers[t].table, p, 15);
      }
    }
  }

  // ---------------------------------------------------------------------------------------------------
  // A round that leaves the router wrong
  // ---------------------------------------------------------------------------------------------------

  /** While the packets of a round arrive: everybody else is as in x, and r is not right about p. */
  ghost predicate Spoiled(net: Network, x: State, y: State, s: State, r: RouterId, p: Prefix, k: nat) {
    && Forgotten(net, x, y, r, p, k)
    && Safe(net, s) && s.routers.Keys == y.routers.Keys
    && (forall t :: t in y.routers && t != r ==> s.routers[t].table == y.routers[t].table)
    && CostsMore(s.routers[r].table, p, k + 1)
    && FromTablesOf(net, y, s.channel)
  }

  predicate CostsMore(m: RoutingTable, p: Prefix, c: nat) {
    p in m ==> m[p].cost > c
  }

  lemma {:induction false} HighCostsStayHigh(ts: Tables, src: Addr, hosts: seq<Route>, p: Prefix, c: nat)
    requires CostsMore(ts.table, p, c)
    requires forall h :: h in hosts && ToPrefix(h) == p ==> LearnedCost(h.cost) > c
    ensures CostsMore(UpdateAll(ts, src, hosts).table, p, c)
  {
    if hosts != [] {
      hide ToPrefix;
      var n := |hosts| - 1;
      HighCostsStayHigh(ts, src, hosts[..n], p, c);
      assert hosts[n] in hosts;
    }
  }

  /** Nothing that the tables of y say is wrong. */
  lemma ForgottenHasNothingWrong(
      net: Network, x: State, y: State, r: RouterId, p: Prefix, k: nat, t: RouterId, q: Prefix)
    requires WellFormed(net) && Forgotten(net, x, y, r, p, k) && t in y.routers
    ensures NothingWrong(net, t, y.routers[t].table, q, 15)
  {
    hide AtDistance, Within, Adjacent, IsNeighbor, PacketOk;
    assert RouterOk(net, t, x.routers[t]);
    ExactTableHasNothingWrong(net, t, x.routers[t].neighbors, x.routers[t].table, q, 15);
  }

  /** A router that is right about everything learns nothing from tables that say nothing wrong. */
  lemma RightTableStays(net: Network, x: State, y: State, s: State, r: RouterId, p: Prefix, k: nat, pk: Packet)
    requires WellFormed(net) && Spoiled(net, x, y, s, r, p, k) && pk in s.channel
    requires pk.dst in net.owner && net.owner[pk.dst] in s.routers && net.owner[pk.dst] != r
    ensures Updated(net, s, pk).table == s.routers[net.owner[pk.dst]].table
  {
    hide Within, Adjacent, AtDistance, ToPrefix, UpdateAll, IsNeighbor, TableOk, HostsExact, IsAdvertisement, CostsMore;
    hide ExactAt, NothingWrong;
    var t := net.owner[pk.dst];
    var m := s.routers[t].table;
    var m' := Updated(net, s, pk).table;
    PacketEnds(net, s, pk);
    assert IsFromTableOf(net, y, pk) && PacketOk(net, pk);
    DeliverOne(net, s, pk);
    var after := Next(net, s, Deliver(pk, []));
    assert RouterOk(net, t, s.routers[t]) && RouterOk(net, t, after.routers[t]) && after.routers[t].table == m';
    forall q: Prefix
      ensures SameAt(m, m', q)
    {
      var src := net.owner[pk.src];
      ForgottenHasNothingWrong(net, x, y, r, p, k, src, q);
      AdvertisementIsExact(net, src, pk.dst, y.routers[src].table, pk.header.hosts, q, 15);
      assert TableExact(net, t, x.routers[t].table, q, 15);
      RightEntryStays(
        net, t, Receiver(net, s, pk).neighbors, after.routers[t].neighbors, m, pk.src, pk.header.hosts, q);
    }
    SameMaps(m, m');
  }

  lemma RightEntryStays(
    net: Network, t: RouterId, neighbors: seq<Addr>, neighbors': seq<Addr>, m: RoutingTable, src: Addr,
    hosts: seq<Route>, q: Prefix)
    requires WellFormed(net) && TableOk(net, t, neighbors, m) && TableExact(net, t, m, q, 15)
    requires TableOk(net, t, neighbors', UpdateAll(Tables(m, map[]), src, hosts).table)
    requires src in neighbors && src in net.owner && Adjacent(net, t, net.owner[src])
    requires forall p :: p in net.local[t] ==> net.local[t][p] != src
    requires forall h :: h in hosts && h.cost < INFINITY ==> Within(net, net.owner[src], ToPrefix(h), h.cost)
    requires HostsExact(net, net.owner[src], t, hosts, q, 15)
    ensures SameAt(m, UpdateAll(Tables(m, map[]), src, hosts).table, q)
  {
    hide Within, Adjacent, AtDistance, ToPrefix, UpdateAll, HostsExact, ExactAt, TableOk;
    var m' := UpdateAll(Tables(m, map[]), src, hosts).table;
    TableCosts(net, t, neighbors, m);
    TableCosts(net, t, neighbors', m');
    NothingCosts(net, t);
    if Within(net, t, q, 15) {
      var d := DistanceExists(net, t, q, 15);
      assert ExactAt(net, m, q, d);
      RightEntriesAreKept(net, t, neighbors, Tables(m, map[]), src, hosts, q, d, 15);
      SameIsSymmetric(m', m, q);
    } else {
      NotInTable(net, t, neighbors, m, q);
      NotInTable(net, t, neighbors', m', q);
    }
  }

  lemma SameIsSymmetric(m: RoutingTable, m': RoutingTable, q: Prefix)
    requires SameAt(m, m', q)
    ensures SameAt(m', m, q)
  {
  }

  lemma NotInTable(net: Network, t: RouterId, neighbors: seq<Addr>, m: RoutingTable, q: Prefix)
    requires TableOk(net, t, neighbors, m) && !Within(net, t, q, 15)
    ensures q !in m
  {
    hide Within, Adjacent;
    TableCosts(net, t, neighbors, m);
    if q in m {
      WithinMonotone(net, t, q, m[q].cost, 15);
    }
  }

  /** What reaches r says nothing that would make it right about p. */
  lemma OnlyHighCostsArrive(net: Network, x: State, y: State, r: RouterId, p: Prefix, k: nat, pk: Packet)
    requires WellFormed(net) && Forgotten(net, x, y, r, p, k) && !HasFittingServer(net, r, p, k) && k + 1 < INFINITY
    requires IsFromTableOf(net, y, pk) && Link(net, pk.src, pk.dst) && net.owner[pk.dst] == r
    ensures forall h :: h in pk.header.hosts && ToPrefix(h) == p ==> LearnedCost(h.cost) > k + 1
  {
    hide AtDistance, Within, ToPrefix, ToRoute, BallFits, RouterOk;
    var q := net.owner[pk.src];
    LinkedIsLocal(net, pk.src, pk.dst);
    assert Adjacent(net, r, q);
    var m := x.routers[q].table;
    assert y.routers[q] == x.routers[q] && RouterOk(net, q, x.routers[q]);
    FittingTableFitsBall(net, x, q);
    if p in m {
      var cost := AdvertisedCost(m[p], pk.dst);
      PrefixRoundTrip(p, cost);
      TableEntryIsDistance(net, x, q, p);
      NeighborIsNotCloser(net, r, q, p, k, m[p].cost);
      assert m[p].cost != k;
      assert LearnedCost(cost) > k + 1;
      assert forall h :: h in pk.header.hosts && ToPrefix(h) == p ==> h == ToRoute(p, cost);
    }
  }

  lemma TableEntryIsDistance(net: Network, x: State, q: RouterId, p: Prefix)
    requires AllRight(net, x) && q in x.routers && p in x.routers[q].table
    ensures AtDistance(net, q, p, x.routers[q].table[p].cost)
  {
    hide AtDistance, Within, Adjacent, IsNeighbor;
    var m := x.routers[q].table;
    assert RouterOk(net, q, x.routers[q]);
    TableCosts(net, q, x.routers[q].neighbors, m);
    var d := DistanceExists(net, q, p, m[p].cost);
    assert TableExact(net, q, m, p, 15);
  }

  lemma NeighborIsNotCloser(net: Network, r: RouterId, q: RouterId, p: Prefix, k: nat, d: nat)
    requires AtDistance(net, r, p, k + 1) && Adjacent(net, r, q) && AtDistance(net, q, p, d)
    ensures d >= k
  {
    hide Within;
    if d < k {
      HopAddsOne(net, r, q, p, d);
      DistanceIsLeast(net, r, p, k + 1, d + 1);
    }
  }

  lemma DeliverKeepsSpoiled(net: Network, x: State, y: State, s: State, r: RouterId, p: Prefix, k: nat, pk: Packet)
    requires WellFormed(net) && Spoiled(net, x, y, s, r, p, k) && !HasFittingServer(net, r, p, k) && k + 1 < INFINITY
    requires Enabled(net, s, Deliver(pk, []))
    ensures Spoiled(net, x, y, Next(net, s, Deliver(pk, [])), r, p, k)
  {
    hide Within, Adjacent, AtDistance, ToPrefix, UpdateAll, IsNeighbor, RouterOk, IsFromTableOf, Forgotten, CostsMore;
    hide HasFittingServer, WellFormed;
    DeliverOne(net, s, pk);
    assert IsFromTableOf(net, y, pk) && PacketOk(net, pk);
    ResponseFromTable(net, y, pk);
    if net.owner[pk.dst] == r {
      OnlyHighCostsArrive(net, x, y, r, p, k, pk);
      HighCostsStayHigh(Tables(s.routers[r].table, map[]), pk.src, pk.header.hosts, p, k + 1);
    } else {
      RightTableStays(net, x, y, s, r, p, k, pk);
    }
  }

  lemma ResponseFromTable(net: Network, y: State, pk: Packet)
    requires IsFromTableOf(net, y, pk)
    ensures pk.header.command == RESPONSE
  {
    hide IsAdvertisement;
  }

  lemma {:induction false} ArrivalsKeepSpoiled(
    net: Network, x: State, y: State, states: seq<State>, events: seq<Event>, r: RouterId, p: Prefix, k: nat)
    requires WellFormed(net) && !HasFittingServer(net, r, p, k) && k + 1 < INFINITY
    requires IsRun(net, states, events) && OnlyDelivers(events) && Spoiled(net, x, y, states[0], r, p, k)
    ensures Spoiled(net, x, y, states[|events|], r, p, k)
  {
    hide WellFormed, HasFittingServer, Enabled, Next, Spoiled;
    if events != [] {
      var n := |events| - 1;
      ArrivalsKeepSpoiled(net, x, y, states[..n + 1], events[..n], r, p, k);
      DeliverKeepsSpoiled(net, x, y, states[n], r, p, k, events[n].packet);
    }
  }

  lemma SpoiledIsWrong(net: Network, x: State, y: State, s: State, r: RouterId, p: Prefix, k: nat)
    requires Spoiled(net, x, y, s, r, p, k)
    ensures !Exact(net, s, p, k + 1)
  {
    hide AtDistance, Safe;
    assert AtDistance(net, r, p, k + 1);
  }

  /**
   Where a router at distance k + 1 from p has nobody one hop closer whose table fits: from a state in which all
   is right, one timeout and a round leave the router wrong about p, though everybody within k hops is right.
   */
  lemma OversizeLeavesWrong(net: Network, x: State, r: RouterId, p: Prefix, k: nat) returns (y: State)
    requires WellFormed(net) && Reachable(net, x) && AllRight(net, x) && x.channel == multiset{} && k + 1 < INFINITY
    requires r in x.routers && AtDistance(net, r, p, k + 1) && Listed(net, x, p, k) && !HasFittingServer(net, r, p, k)
    ensures Reachable(net, y) && y.channel == multiset{} && Listed(net, y, p, k) && Exact(net, y, p, k)
    ensures !RoundSuffices(net, y, p, k)
  {
    hide Safe, WellFormed, Enabled, Next, AtDistance, Listed, HasFittingServer, Reachable, AllRight, Advertises;
    y := Forget(net, x, r, p, k);
    ExactIsSafe(net, y, p, k);
    var states, sending, mid, states', arriving := RoundInTwoParts(net, y);
    assert Spoiled(net, x, y, mid, r, p, k) by { hide Exact; }
    ArrivalsKeepSpoiled(net, x, y, states', arriving, r, p, k);
    hide Exact;
    SpoiledIsWrong(net, x, y, states'[|arriving|], r, p, k);
  }

  /** One round always advances by a hop if and only if everybody has a router one hop closer whose table fits. */
  lemma RoundsAdvanceIff(net: Network)
    requires WellFormed(net)
    ensures RoundsAlwaysAdvance(net) <==> FitsEverywhere(net)
  {
    hide WellFormed, Exact, Listed, Reachable, RoundSuffices, HasFittingServer, AtDistance;
    if FitsEverywhere(net) {
      forall s: State, p: Prefix, k: nat | k + 1 < INFINITY && Reachable(net, s) && s.channel == multiset{}
        && Listed(net, s, p, k) && Exact(net, s, p, k)
        ensures RoundSuffices(net, s, p, k)
      {
        FittingSuffices(net, s, p, k);
      }
    }
    if RoundsAlwaysAdvance(net) {
      var x := RightStateIsReached(net, 15);
      ExactIsAllRight(net, x);
      forall p: Prefix, k: nat, r | k + 1 < INFINITY && r in net.local && AtDistance(net, r, p, k + 1)
        ensures HasFittingServer(net, r, p, k)
      {
        if !HasFittingServer(net, r, p, k) {
          AllRightRouters(net, x);
          IntroducedIsListed(net, x, p, k);
          var y := OversizeLeavesWrong(net, x, r, p, k);
          assert false;
        }
      }
    }
  }

  lemma AllRightRouters(net: Network, x: State)
    requires AllRight(net, x)
    ensures x.routers.Keys == net.local.Keys
  {
    hide TableExact, RouterOk, PacketOk;
  }

  // ---------------------------------------------------------------------------------------------------
  // Nobody fits
  // ---------------------------------------------------------------------------------------------------

  predicate TooLarge(net: Network) {
    forall r :: r in net.local ==> |net.local[r]| > MAX_ENTRIES
  }

  /** Nobody has told anybody anything. */
  ghost predicate Silent(net: Network, s: State) {
    && Safe(net, s) && s.routers.Keys == net.local.Keys
    && (forall r :: r in s.routers ==> s.routers[r].table == OwnTable(net, r))
    && forall pk :: pk in s.channel ==> pk.header == RipHeader(REQUEST, 0, [])
  }

  lemma OwnTableIsTooLarge(net: Network, r: RouterId)
    requires r in net.local && TooLarge(net)
    ensures !RipNetwork.Fits(OwnTable(net, r))
  {
    assert OwnTable(net, r).Keys == net.local[r].Keys;
    assert |OwnTable(net, r)| == |OwnTable(net, r).Keys| == |net.local[r].Keys|;
  }

  lemma FarewellIsTooLarge(net: Network, r: RouterId, ip: Addr)
    requires WellFormed(net) && r in net.local && TooLarge(net) && IsNeighbor(net, r, ip)
    ensures !RipNetwork.Fits(Farewell(OwnTable(net, r), ip)) && Purged(OwnTable(net, r), ip) == OwnTable(net, r)
  {
    OwnTableIsTooLarge(net, r);
    var m := OwnTable(net, r);
    assert Farewell(m, ip).Keys == m.Keys;
    assert |Farewell(m, ip)| == |Farewell(m, ip).Keys| == |m.Keys| == |m|;
  }

  lemma NonEmptyHasMember(out: seq<Packet>)
    ensures out == [] || exists o :: o in out
  {
    if out != [] {
      assert out[0] in out;
    }
  }

  lemma NothingFitsNothingGoes(net: Network, r: RouterId, neighbors: seq<Addr>, m: RoutingTable, out: seq<Packet>)
    requires Announced(net, r, neighbors, m, out) && !RipNetwork.Fits(m)
    ensures out == []
  {
    assert forall o :: o in out ==> RipNetwork.Fits(m);
    NonEmptyHasMember(out);
  }

  lemma StepKeepsSilent(net: Network, s: State, event: Event)
    requires WellFormed(net) && TooLarge(net) && Silent(net, s) && Enabled(net, s, event)
    ensures Silent(net, Next(net, s, event))
  {
    hide Within, Adjacent, IsNeighbor, PacketOk, RouterOk, Announced;
    hide RipNetwork.Fits, IsAdvertisement, WellFormed, TooLarge, Safe;
    StepIsSafe(net, s, event);
    StepOfSilent(net, s, event);
  }

  /** What a step does to the tables and the channel when nothing was said before. */
  lemma StepOfSilent(net: Network, s: State, event: Event)
    requires WellFormed(net) && TooLarge(net) && Silent(net, s) && Enabled(net, s, event)
    ensures var s' := Next(net, s, event);
            && s'.routers.Keys == s.routers.Keys
            && (forall r :: r in s.routers ==> s'.routers[r].table == s.routers[r].table)
            && forall pk :: pk in s'.channel ==> pk in s.channel || pk.header == RipHeader(REQUEST, 0, [])
  {
    hide Within, Adjacent, IsNeighbor, PacketOk, TableOk, Announced;
    hide RipNetwork.Fits, IsAdvertisement, WellFormed, TooLarge, OwnTable;
    match event
    case Advertise(src, dst, hosts) =>
      OwnTableIsTooLarge(net, net.owner[src]);
    case Deliver(pk, out) =>
      var r := net.owner[pk.dst];
      OwnTableIsTooLarge(net, r);
      NothingFitsNothingGoes(net, r, [pk.src], s.routers[r].table, out);
    case Timeout(r, i, out) =>
      var st := s.routers[r];
      assert RouterOk(net, r, st);
      FarewellIsTooLarge(net, r, st.neighbors[i]);
      NothingFitsNothingGoes(net, r, Remove(st.neighbors, i), Farewell(st.table, st.neighbors[i]), out);
    case _ =>
  }

  lemma StartIsSilent(net: Network, s: State)
    requires WellFormed(net) && Start(net, s)
    ensures Silent(net, s)
  {
    hide Safe;
    StartIsSafe(net, s);
    assert s.routers.Keys == net.local.Keys;
  }

  /**
   A table of more than 64 entries is never sent: if every router is attached to that many prefixes, no run teaches
   anybody anything.
   */
  lemma {:induction false} LargeTablesNeverSpread(net: Network, states: seq<State>, events: seq<Event>)
    requires WellFormed(net) && TooLarge(net) && IsRun(net, states, events) && Start(net, states[0])
    ensures Silent(net, states[|events|])
  {
    hide Silent, Enabled, Next, Start, WellFormed, TooLarge;
    if events == [] {
      StartIsSilent(net, states[0]);
    } else {
      var n := |events| - 1;
      LargeTablesNeverSpread(net, states[..n + 1], events[..n]);
      StepKeepsSilent(net, states[n], events[n]);
      assert states[n + 1] == Next(net, states[n], events[n]);
    }
  }
}
