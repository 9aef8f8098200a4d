/**
 Convergence. Once every router within k hops of a prefix is right about it, and nothing older is in flight,
 it stays right; and one full round of advertisements makes the routers k + 1 hops away right too.
 */
module RipConvergence {
  import opened RipWire
  import opened RipRouter
  import opened RipNetwork

  /** The entry for p says exactly d, via a router that is one hop closer. */
  ghost predicate ExactAt(net: Network, m: RoutingTable, p: Prefix, d: nat) {
    && p in m && m[p].cost == d
    && (d > 0 ==> m[p].addr in net.owner && AtDistance(net, net.owner[m[p].addr], p, d - 1))
  }

  ghost predicate TableExact(net: Network, r: RouterId, m: RoutingTable, p: Prefix, k: nat) {
    forall d: nat :: d <= k && AtDistance(net, r, p, d) ==> ExactAt(net, m, p, d)
  }

  /** Every router within k hops of p has it right. */
  ghost predicate RoutersExact(net: Network, s: State, p: Prefix, k: nat) {
    forall r :: r in s.routers ==> TableExact(net, r, s.routers[r].table, p, k)
  }

  /**
   An advertised cost that is right for a sender at distance d, or poisoned for an addressee that is closer than
   the sender.
   */
  ghost predicate HostExact(net: Network, src: RouterId, dst: RouterId, h: Route, k: nat) {
    forall d: nat :: d <= k && AtDistance(net, src, ToPrefix(h), d) ==>
      h.cost == d || (h.cost == INFINITY && d > 0 && AtDistance(net, dst, ToPrefix(h), d - 1))
  }

  ghost predicate HostsExact(net: Network, src: RouterId, dst: RouterId, hosts: seq<Route>, p: Prefix, k: nat) {
    forall h :: h in hosts && ToPrefix(h) == p ==> HostExact(net, src, dst, h, k)
  }

  ghost predicate PacketExact(net: Network, pk: Packet, p: Prefix, k: nat) {
    && pk.src in net.owner && pk.dst in net.owner
    && HostsExact(net, net.owner[pk.src], net.owner[pk.dst], pk.header.hosts, p, k)
  }

  ghost predicate Exact(net: Network, s: State, p: Prefix, k: nat) {
    && Safe(net, s)
    && RoutersExact(net, s, p, k)
    && forall pk :: pk in s.channel ==> PacketExact(net, pk, p, k)
  }

  // ---------------------------------------------------------------------------------------------------
  // A right entry stays right: poisoned reverse and late costs never harm it
  // ---------------------------------------------------------------------------------------------------

  /** What is known about one host of a packet from src to r. */
  ghost predicate HostOk(net: Network, src: Addr, r: RouterId, h: Route) {
    && src in net.owner && Adjacent(net, r, net.owner[src])
    && (h.cost < INFINITY ==> Within(net, net.owner[src], ToPrefix(h), h.cost))
  }

  lemma RightEntryIsKept(
      net: Network, r: RouterId, neighbors: seq<Addr>, m: RoutingTable, src: Addr, h: Route, d: nat, k: nat)
    requires TableOk(net, r, neighbors, m) && HostOk(net, src, r, h) && d <= k + 1
    requires HostExact(net, net.owner[src], r, h, k)
    requires AtDistance(net, r, ToPrefix(h), d) && ExactAt(net, m, ToPrefix(h), d)
    requires forall p :: p in net.local[r] ==> net.local[r][p] != src
    ensures Judge(m, src, ToPrefix(h), h.cost) == Keep
  {
    hide ToPrefix, Adjacent;
    var p, c := ToPrefix(h), LearnedCost(h.cost);
    var s := net.owner[src];
    if c < INFINITY {
      assert Within(net, r, p, c);
      DistanceIsLeast(net, r, p, d, c);
    }
    if m[p].addr == src && d > 0 {
      assert HostExact(net, s, r, h, k) && AtDistance(net, s, p, d - 1);
      if d > 1 && AtDistance(net, r, p, d - 2) {
        DistanceIsUnique(net, r, p, d, d - 2);
      }
    }
  }

  lemma {:induction false} RightEntriesAreKept(
    net: Network, r: RouterId, neighbors: seq<Addr>, ts: Tables, src: Addr, hosts: seq<Route>,
    p: Prefix, d: nat, k: nat)
    requires TableOk(net, r, neighbors, ts.table) && CostsOk(net, r, ts.triggered) && src in neighbors && d <= k + 1
    requires src in net.owner && Adjacent(net, r, net.owner[src])
    requires forall h :: h in hosts ==> HostOk(net, src, r, h)
    requires HostsExact(net, net.owner[src], r, hosts, p, k)
    requires forall q :: q in net.local[r] ==> net.local[r][q] != src
    requires AtDistance(net, r, p, d) && ExactAt(net, ts.table, p, d)
    ensures TablesSameAt(UpdateAll(ts, src, hosts), ts, p)
  {
    hide Within, ToPrefix, Adjacent, TableOk, CostsOk, HostExact, Judge, AtDistance;
    if hosts != [] {
      var n := |hosts| - 1;
      var mid := UpdateAll(ts, src, hosts[..n]);
      RightEntriesAreKept(net, r, neighbors, ts, src, hosts[..n], p, d, k);
      ResponseKeepsTableOk(net, r, neighbors, ts, src, hosts[..n]);
      assert hosts[n] in hosts;
      if ToPrefix(hosts[n]) == p {
        RightEntryIsKept(net, r, neighbors, mid.table, src, hosts[n], d, k);
      } else {
        OtherPrefixStays(mid, src, hosts[n], p);
      }
    }
  }

  lemma OtherPrefixStays(ts: Tables, src: Addr, h: Route, p: Prefix)
    requires ToPrefix(h) != p
    ensures TablesSameAt(UpdateEntry(ts, src, h), ts, p)
  {
    hide ToPrefix;
  }

  // ---------------------------------------------------------------------------------------------------
  // One right advertisement from one hop closer makes the entry right
  // ---------------------------------------------------------------------------------------------------

  lemma RightCostIsLearned(net: Network, r: RouterId, neighbors: seq<Addr>, ts: Tables, src: Addr, h: Route, k: nat)
    requires TableOk(net, r, neighbors, ts.table) && src in net.owner && Adjacent(net, r, net.owner[src])
    requires h.cost == k && k + 1 < INFINITY
    requires AtDistance(net, r, ToPrefix(h), k + 1) && AtDistance(net, net.owner[src], ToPrefix(h), k)
    ensures ExactAt(net, UpdateEntry(ts, src, h).table, ToPrefix(h), k + 1)
  {
    hide ToPrefix, Adjacent;
    var p := ToPrefix(h);
    if p in ts.table {
      var hop := ts.table[p];
      if !Attached(net, r, p) {
        var via := net.owner[hop.addr];
        assert LearnedOk(net, r, neighbors, p, hop);
        assert Within(net, r, p, hop.cost);
        DistanceIsLeast(net, r, p, k + 1, hop.cost);
        if hop.cost == k + 1 {
          OneHopCloser(net, r, via, p, k);
        }
      }
    }
  }

  lemma OneHopCloser(net: Network, r: RouterId, via: RouterId, p: Prefix, k: nat)
    requires AtDistance(net, r, p, k + 1) && Adjacent(net, r, via) && Within(net, via, p, k)
    ensures AtDistance(net, via, p, k)
  {
    hide Within;
    if k > 0 && Within(net, via, p, k - 1) {
      HopAddsOne(net, r, via, p, k - 1);
      assert false;
    }
  }

  lemma HopAddsOne(net: Network, r: RouterId, via: RouterId, p: Prefix, j: nat)
    requires Adjacent(net, r, via) && Within(net, via, p, j)
    ensures Within(net, r, p, j + 1)
  {
    hide Adjacent;
  }

  lemma {:induction false} RightCostsAreLearned(
    net: Network, r: RouterId, neighbors: seq<Addr>, ts: Tables, src: Addr, hosts: seq<Route>, h: Route, k: nat)
    requires TableOk(net, r, neighbors, ts.table) && CostsOk(net, r, ts.triggered)
    requires src in neighbors && k + 1 < INFINITY
    requires src in net.owner && Adjacent(net, r, net.owner[src])
    requires forall g :: g in hosts ==> HostOk(net, src, r, g)
    requires HostsExact(net, net.owner[src], r, hosts, ToPrefix(h), k)
    requires forall q :: q in net.local[r] ==> net.local[r][q] != src
    requires h in hosts && h.cost == k
    requires AtDistance(net, r, ToPrefix(h), k + 1) && AtDistance(net, net.owner[src], ToPrefix(h), k)
    ensures ExactAt(net, UpdateAll(ts, src, hosts).table, ToPrefix(h), k + 1)
  {
    hide Within, ToPrefix, Adjacent, TableOk, CostsOk, HostExact, UpdateEntry, AtDistance;
    var n := |hosts| - 1;
    var mid := UpdateAll(ts, src, hosts[..n]);
    assert forall g :: g in hosts[..n] ==> g in hosts;
    assert HostOk(net, src, r, hosts[n]);
    ResponseKeepsTableOk(net, r, neighbors, ts, src, hosts[..n]);
    if hosts[n] == h {
      RightCostIsLearned(net, r, neighbors, mid, src, h, k);
    } else {
      RightCostsAreLearned(net, r, neighbors, ts, src, hosts[..n], h, k);
      var last := [hosts[n]];
      assert last[..0] == [] && UpdateAll(mid, src, last) == UpdateEntry(mid, src, hosts[n]);
      RightEntriesAreKept(net, r, neighbors, mid, src, last, ToPrefix(h), k + 1, k);
    }
  }

  // ---------------------------------------------------------------------------------------------------
  // What is sent is right too
  // ---------------------------------------------------------------------------------------------------

  /** Whatever `m` says about p is right if p is within k hops, and its own prefixes are its own. */
  ghost predicate NothingWrong(net: Network, r: RouterId, m: RoutingTable, p: Prefix, k: nat) {
    forall d: nat :: p in m && d <= k && AtDistance(net, r, p, d) ==>
      ExactAt(net, m, p, d) && (d == 0 ==> m[p].addr in net.owner && net.owner[m[p].addr] == r)
  }

  lemma ExactTableHasNothingWrong(net: Network, r: RouterId, neighbors: seq<Addr>, m: RoutingTable, p: Prefix, k: nat)
    requires WellFormed(net) && TableOk(net, r, neighbors, m) && TableExact(net, r, m, p, k)
    ensures NothingWrong(net, r, m, p, k)
  {
    hide Within, Adjacent;
    WithinZero(net, r, p);
  }

  lemma WithinZero(net: Network, r: RouterId, p: Prefix)
    ensures Within(net, r, p, 0) <==> Attached(net, r, p)
  {
  }

  lemma AdvertisementIsExact(
      net: Network, r: RouterId, dst: Addr, m: RoutingTable, hosts: seq<Route>, p: Prefix, k: nat)
    requires NothingWrong(net, r, m, p, k) && IsAdvertisement(m, dst, hosts) && dst in net.owner && net.owner[dst] != r
    ensures HostsExact(net, r, net.owner[dst], hosts, p, k)
  {
    hide AtDistance, ToPrefix;
  }

  lemma AnnouncedIsExact(
    net: Network, r: RouterId, neighbors: seq<Addr>, m: RoutingTable, out: seq<Packet>, p: Prefix, k: nat)
    requires WellFormed(net) && NothingWrong(net, r, m, p, k) && Announced(net, r, neighbors, m, out)
    ensures forall pk :: pk in out ==> PacketExact(net, pk, p, k)
  {
    hide AtDistance, ToPrefix, ToRoute, HostsExact, NothingWrong, IsAdvertisement;
    forall pk | pk in out
      ensures PacketExact(net, pk, p, k)
    {
      AdvertisementIsExact(net, r, pk.dst, m, pk.header.hosts, p, k);
    }
  }

  // ---------------------------------------------------------------------------------------------------
  // Steps keep what is right
  // ---------------------------------------------------------------------------------------------------

  lemma HostsAreOk(net: Network, s: State, pk: Packet, p: Prefix, k: nat)
    requires WellFormed(net) && Exact(net, s, p, k) && pk in s.channel
    ensures pk.src in net.owner && pk.dst in net.owner
    ensures forall h :: h in pk.header.hosts ==> HostOk(net, pk.src, net.owner[pk.dst], h)
    ensures HostsExact(net, net.owner[pk.src], net.owner[pk.dst], pk.header.hosts, p, k)
  {
    hide Within, ToPrefix, HostsExact, RoutersExact, RouterOk, Adjacent;
    assert PacketOk(net, pk) && PacketExact(net, pk, p, k);
    assert Adjacent(net, net.owner[pk.dst], net.owner[pk.src]) by { PacketEnds(net, s, pk); }
  }

  /** A response leaves an entry that is right, for a prefix at most k + 1 hops away, as it is. */
  lemma ResponseKeepsRightEntry(net: Network, s: State, pk: Packet, p: Prefix, d: nat, k: nat)
    requires WellFormed(net) && Exact(net, s, p, k) && pk in s.channel && d <= k + 1
    requires pk.dst in net.owner && net.owner[pk.dst] in s.routers
    requires AtDistance(net, net.owner[pk.dst], p, d) && ExactAt(net, s.routers[net.owner[pk.dst]].table, p, d)
    ensures ExactAt(net, Updated(net, s, pk).table, p, d) && p !in Updated(net, s, pk).triggered
  {
    hide Within, ToPrefix, HostsExact, RoutersExact, RouterOk, TableOk, HostOk, UpdateAll, AtDistance, Adjacent;
    var r := net.owner[pk.dst];
    PacketEnds(net, s, pk);
    HostsAreOk(net, s, pk, p, k);
    NothingCosts(net, r);
    var ts := Tables(s.routers[r].table, map[]);
    RightEntriesAreKept(net, r, Receiver(net, s, pk).neighbors, ts, pk.src, pk.header.hosts, p, d, k);
  }

  lemma DeliverKeepsExact(net: Network, s: State, pk: Packet, out: seq<Packet>, p: Prefix, k: nat)
    requires WellFormed(net) && Exact(net, s, p, k) && Enabled(net, s, Deliver(pk, out))
    ensures Exact(net, Next(net, s, Deliver(pk, out)), p, k)
  {
    hide Within, ToPrefix, PacketExact, RouterOk, PacketOk, TableOk;
    hide UpdateAll, AtDistance, ExactAt, Announced, Adjacent;
    DeliverIsSafe(net, s, pk, out);
    PacketEnds(net, s, pk);
    var r := net.owner[pk.dst];
    var st := Receiver(net, s, pk);
    assert TableExact(net, r, st.table, p, k);
    if pk.header.command == RESPONSE {
      var ts := Updated(net, s, pk);
      forall d: nat | d <= k && AtDistance(net, r, p, d)
        ensures ExactAt(net, ts.table, p, d) && p !in ts.triggered
      {
        ResponseKeepsRightEntry(net, s, pk, p, d, k);
      }
      assert NothingWrong(net, r, ts.triggered, p, k);
      AnnouncedIsExact(net, r, st.neighbors, ts.triggered, out, p, k);
    } else {
      ExactTableHasNothingWrong(net, r, st.neighbors, st.table, p, k);
      AnnouncedIsExact(net, r, [pk.src], st.table, out, p, k);
    }
  }

  lemma AdvertiseKeepsExact(net: Network, s: State, src: Addr, dst: Addr, hosts: seq<Route>, p: Prefix, k: nat)
    requires WellFormed(net) && Exact(net, s, p, k) && Enabled(net, s, Advertise(src, dst, hosts))
    ensures Exact(net, Next(net, s, Advertise(src, dst, hosts)), p, k)
  {
    hide Within, ToPrefix, PacketOk, TableOk, AtDistance, ExactAt, HostsExact, IsAdvertisement, IsNeighbor;
    StepIsSafe(net, s, Advertise(src, dst, hosts));
    var r := net.owner[src];
    var st := s.routers[r];
    assert RouterOk(net, r, st) && TableExact(net, r, st.table, p, k);
    ExactTableHasNothingWrong(net, r, st.neighbors, st.table, p, k);
    AdvertisementIsExact(net, r, dst, st.table, hosts, p, k);
  }

  /** Right tables stay right under any step but a timeout: responses in any order, lost or duplicated. */
  lemma StepKeepsExact(net: Network, s: State, event: Event, p: Prefix, k: nat)
    requires WellFormed(net) && Exact(net, s, p, k) && Enabled(net, s, event) && !event.Timeout?
    ensures Exact(net, Next(net, s, event), p, k)
  {
    hide Within, ToPrefix, Safe, TableExact, HostsExact, IsAdvertisement, Announced, IsNeighbor;
    match event
    case Advertise(src, dst, hosts) => AdvertiseKeepsExact(net, s, src, dst, hosts, p, k);
    case Deliver(pk, out) => DeliverKeepsExact(net, s, pk, out, p, k);
    case Ask(src, dst) =>
      StepIsSafe(net, s, event);
      NoHosts(net, net.owner[src], net.owner[dst], p, k);
    case _ => StepIsSafe(net, s, event);
  }

  lemma NoHosts(net: Network, src: RouterId, dst: RouterId, p: Prefix, k: nat)
    ensures HostsExact(net, src, dst, [], p, k)
  {
  }

  // ---------------------------------------------------------------------------------------------------
  // A round
  // ---------------------------------------------------------------------------------------------------

  /** All prefixes that some router is attached to. */
  ghost function AllPrefixes(net: Network): set<Prefix> {
    set r, p | r in net.local && p in net.local[r] :: p
  }

  lemma {:induction false} WithinIsKnown(net: Network, r: RouterId, p: Prefix, k: nat)
    requires Within(net, r, p, k)
    ensures p in AllPrefixes(net)
    decreases k
  {
    if !Attached(net, r, p) {
      var s :| Adjacent(net, r, s) && Within(net, s, p, k - 1);
      WithinIsKnown(net, s, p, k - 1);
    }
  }

  /** All that router r can ever have in its table. */
  ghost function Ball(net: Network, r: RouterId): set<Prefix> {
    set p | p in AllPrefixes(net) && Within(net, r, p, 15)
  }

  ghost predicate BallFits(net: Network, r: RouterId) {
    |Ball(net, r)| <= MAX_ENTRIES
  }

  lemma TableIsInBall(net: Network, r: RouterId, neighbors: seq<Addr>, m: RoutingTable)
    requires TableOk(net, r, neighbors, m)
    ensures m.Keys <= Ball(net, r) && |m| <= |Ball(net, r)|
  {
    hide Within, Adjacent, AllPrefixes;
    TableCosts(net, r, neighbors, m);
    forall p | p in m.Keys
      ensures p in Ball(net, r)
    {
      WithinIsKnown(net, r, p, m[p].cost);
      WithinMonotone(net, r, p, m[p].cost, 15);
    }
    SubsetIsSmaller(m.Keys, Ball(net, r));
  }

  lemma {:induction false} SubsetIsSmaller(a: set<Prefix>, b: set<Prefix>)
    requires a <= b
    ensures |a| <= |b|
  {
    if a != {} {
      var x :| x in a;
      SubsetIsSmaller(a - {x}, b - {x});
    }
  }

  /** A response with the right cost k for p is on its way over the link. */
  ghost predicate Pending(s: State, src: Addr, dst: Addr, p: Prefix, k: nat) {
    exists pk, h :: pk in s.channel && h in pk.header.hosts
      && pk.src == src && pk.dst == dst && pk.header.command == RESPONSE && ToPrefix(h) == p && h.cost == k
  }

  /**
   The link has served p: it leads from distance k to distance k + 1, and the far end is right about p or about to
   be.
   */
  ghost predicate Served(net: Network, s: State, src: Addr, dst: Addr, p: Prefix, k: nat) {
    && Link(net, src, dst) && net.owner[dst] in s.routers
    && (AtDistance(net, net.owner[src], p, k) && AtDistance(net, net.owner[dst], p, k + 1) ==>
          ExactAt(net, s.routers[net.owner[dst]].table, p, k + 1) || Pending(s, src, dst, p, k))
  }

  /** Advertising serves a link, if the table fits. */
  lemma AdvertiseServes(net: Network, s: State, src: Addr, dst: Addr, hosts: seq<Route>, p: Prefix, k: nat)
    requires WellFormed(net) && Exact(net, s, p, k) && Enabled(net, s, Advertise(src, dst, hosts))
    requires BallFits(net, net.owner[src])
    ensures Served(net, Next(net, s, Advertise(src, dst, hosts)), src, dst, p, k)
  {
    hide Within, ToPrefix, ToRoute, PacketOk, TableOk, PacketExact, Ball, Adjacent, AtDistance, IsNeighbor;
    var r := net.owner[src];
    var st := s.routers[r];
    var s' := Next(net, s, Advertise(src, dst, hosts));
    if AtDistance(net, r, p, k) && AtDistance(net, net.owner[dst], p, k + 1) {
      assert TableExact(net, r, st.table, p, k) && RouterOk(net, r, st);
      TableIsInBall(net, r, st.neighbors, st.table);
      assert ExactAt(net, st.table, p, k);
      if st.table[p].addr == dst {
        OwnerIsNotAddressee(net, r, st.neighbors, st.table, dst, p, k);
      }
      var h := ToRoute(p, k);
      PrefixRoundTrip(p, k);
      assert h in hosts;
      var pk := Response(src, dst, hosts);
      assert pk in s'.channel && h in pk.header.hosts;
    }
  }

  /** Poisoned reverse does not hide a right cost from a router that needs it. */
  lemma OwnerIsNotAddressee(
      net: Network, r: RouterId, neighbors: seq<Addr>, m: RoutingTable, dst: Addr, p: Prefix, k: nat)
    requires WellFormed(net) && TableOk(net, r, neighbors, m) && ExactAt(net, m, p, k) && AtDistance(net, r, p, k)
    requires dst in net.owner && net.owner[dst] != r && AtDistance(net, net.owner[dst], p, k + 1)
    ensures m[p].addr != dst
  {
    hide Within, Adjacent;
    if k == 0 {
      WithinZero(net, r, p);
    } else if m[p].addr == dst {
      DistanceIsUnique(net, net.owner[dst], p, k - 1, k + 1);
      assert false;
    }
  }

  /** A step of a round keeps what is served. */
  lemma DeliverKeepsServed(
      net: Network, s: State, pk: Packet, out: seq<Packet>, src: Addr, dst: Addr, p: Prefix, k: nat)
    requires WellFormed(net) && Exact(net, s, p, k) && Enabled(net, s, Deliver(pk, out)) && k + 1 < INFINITY
    requires Served(net, s, src, dst, p, k)
    ensures Served(net, Next(net, s, Deliver(pk, out)), src, dst, p, k)
  {
    hide Within, ToPrefix, PacketOk, PacketExact, TableOk, RouterOk, Adjacent;
    hide AtDistance, ExactAt, Announced, UpdateAll, HostOk, RoutersExact;
    var r := net.owner[dst];
    var s' := Next(net, s, Deliver(pk, out));
    if AtDistance(net, net.owner[src], p, k) && AtDistance(net, r, p, k + 1) {
      var here := net.owner[pk.dst] == r && pk.header.command == RESPONSE;
      if ExactAt(net, s.routers[r].table, p, k + 1) {
        if here {
          ResponseKeepsRightEntry(net, s, pk, p, k + 1, k);
        }
      } else {
        var pk', h :| pk' in s.channel && h in pk'.header.hosts && pk'.src == src && pk'.dst == dst
                      && pk'.header.command == RESPONSE && ToPrefix(h) == p && h.cost == k;
        if pk' == pk {
          DeliverTeaches(net, s, pk, h, k);
        } else {
          assert pk' in s'.channel;
        }
      }
    }
  }

  lemma DeliverTeaches(net: Network, s: State, pk: Packet, h: Route, k: nat)
    requires WellFormed(net) && Exact(net, s, ToPrefix(h), k) && pk in s.channel && k + 1 < INFINITY
    requires pk.src in net.owner && pk.dst in net.owner && net.owner[pk.dst] in s.routers
    requires h in pk.header.hosts && h.cost == k
    requires AtDistance(net, net.owner[pk.src], ToPrefix(h), k)
    requires AtDistance(net, net.owner[pk.dst], ToPrefix(h), k + 1)
    ensures ExactAt(net, Updated(net, s, pk).table, ToPrefix(h), k + 1)
  {
    hide Within, ToPrefix, TableOk, RouterOk, Adjacent, AtDistance;
    hide ExactAt, UpdateAll, HostOk, RoutersExact, PacketExact;
    var r := net.owner[pk.dst];
    PacketEnds(net, s, pk);
    HostsAreOk(net, s, pk, ToPrefix(h), k);
    NothingCosts(net, r);
    var ts := Tables(s.routers[r].table, map[]);
    RightCostsAreLearned(net, r, Receiver(net, s, pk).neighbors, ts, pk.src, pk.header.hosts, h, k);
  }

  predicate InRound(event: Event) {
    !event.Lose? && !event.Timeout?
  }

  lemma StepKeepsServed(net: Network, s: State, event: Event, src: Addr, dst: Addr, p: Prefix, k: nat)
    requires WellFormed(net) && Exact(net, s, p, k) && Enabled(net, s, event) && InRound(event) && k + 1 < INFINITY
    requires Served(net, s, src, dst, p, k)
    ensures Served(net, Next(net, s, event), src, dst, p, k)
  {
    if event.Deliver? {
      DeliverKeepsServed(net, s, event.packet, event.out, src, dst, p, k);
    } else {
      hide AtDistance, ExactAt, Exact, ToPrefix, IsAdvertisement, IsNeighbor;
      var s' := Next(net, s, event);
      assert forall pk :: pk in s.channel ==> pk in s'.channel;
    }
  }

  /** `Rip` of router r visits its neighbour b. */
  predicate Advertises(net: Network, event: Event, r: RouterId, b: Addr) {
    event.Advertise? && event.dst == b && event.src in net.owner && net.owner[event.src] == r
  }

  /**
   Both ends drained, no packet lost, no timeout, and each router has sent its table to every neighbour it had at
   the start of the round. Announcements of changes may be lost.
   */
  ghost predicate IsRound(net: Network, states: seq<State>, events: seq<Event>) {
    && IsRun(net, states, events)
    && states[0].channel == multiset{} && states[|events|].channel == multiset{}
    && (forall i :: 0 <= i < |events| ==> InRound(events[i]))
    && forall r, b :: r in states[0].routers && b in states[0].routers[r].neighbors ==>
         exists i :: 0 <= i < |events| && Advertises(net, events[i], r, b)
  }

  /** Some router at distance k whose table fits has router r among its neighbours. */
  ghost predicate Heard(net: Network, s: State, r: RouterId, p: Prefix, k: nat) {
    exists a, b :: Link(net, a, b) && net.owner[b] == r && net.owner[a] in s.routers
      && AtDistance(net, net.owner[a], p, k) && BallFits(net, net.owner[a])
      && b in s.routers[net.owner[a]].neighbors
  }

  /** Everybody k + 1 hops from p is heard of by somebody k hops from it. */
  ghost predicate AllHeard(net: Network, s: State, p: Prefix, k: nat) {
    forall r :: r in s.routers && AtDistance(net, r, p, k + 1) ==> Heard(net, s, r, p, k)
  }

  lemma {:induction false} RoundServes(
    net: Network, states: seq<State>, events: seq<Event>, n: nat, p: Prefix, k: nat)
    requires WellFormed(net) && k + 1 < INFINITY
    requires IsRun(net, states, events) && n <= |events| && Exact(net, states[0], p, k)
    requires forall i :: 0 <= i < |events| ==> InRound(events[i])
    ensures Exact(net, states[n], p, k)
    ensures forall i :: 0 <= i < n ==> EventServed(net, states[n], events[i], p, k)
  {
    if n > 0 {
      hide Exact, Enabled, Next, Served, BallFits, WellFormed;
      RoundServes(net, states, events, n - 1, p, k);
      var s, event := states[n - 1], events[n - 1];
      assert Enabled(net, s, event) && states[n] == Next(net, s, event);
      StepKeepsExact(net, s, event, p, k);
      forall i | 0 <= i < n
        ensures EventServed(net, states[n], events[i], p, k)
      {
        if ServesLink(net, events[i]) {
          if i < n - 1 {
            StepKeepsServed(net, s, event, events[i].src, events[i].dst, p, k);
          } else {
            AdvertiseServes(net, s, event.src, event.dst, event.hosts, p, k);
          }
        }
      }
    }
  }

  /** A table that fits is sent. */
  ghost predicate ServesLink(net: Network, event: Event) {
    event.Advertise? && event.src in net.owner && BallFits(net, net.owner[event.src])
  }

  ghost predicate EventServed(net: Network, s: State, event: Event, p: Prefix, k: nat) {
    ServesLink(net, event) ==> Served(net, s, event.src, event.dst, p, k)
  }

  /** A link that leads to router r from distance k has served p. */
  ghost predicate ServedAt(net: Network, s: State, r: RouterId, p: Prefix, k: nat) {
    exists src, dst :: Served(net, s, src, dst, p, k) && net.owner[dst] == r && AtDistance(net, net.owner[src], p, k)
  }

  /** With nothing in flight and every router k + 1 hops away served, these routers are right. */
  lemma ServedMeansExact(net: Network, s: State, p: Prefix, k: nat)
    requires WellFormed(net) && Exact(net, s, p, k) && s.channel == multiset{}
    requires forall r :: r in s.routers && AtDistance(net, r, p, k + 1) ==> ServedAt(net, s, r, p, k)
    ensures Exact(net, s, p, k + 1)
  {
    hide Within, ExactAt, Safe, AtDistance;
    forall r, d: nat | r in s.routers && d <= k + 1 && AtDistance(net, r, p, d)
      ensures ExactAt(net, s.routers[r].table, p, d)
    {
      if d == k + 1 {
        assert ServedAt(net, s, r, p, k);
      } else {
        assert TableExact(net, r, s.routers[r].table, p, k);
      }
    }
  }

  /** One round: everybody who is heard of one hop closer becomes right. */
  lemma RoundAdvances(net: Network, states: seq<State>, events: seq<Event>, p: Prefix, k: nat)
    requires WellFormed(net) && k + 1 < INFINITY
    requires IsRound(net, states, events) && Exact(net, states[0], p, k) && AllHeard(net, states[0], p, k)
    ensures Exact(net, states[|events|], p, k + 1)
  {
    hide Exact, Served, BallFits, WellFormed, Enabled, Next, AtDistance;
    RoundServes(net, states, events, |events|, p, k);
    var last := states[|events|];
    RoutersStay(net, states, events);
    forall r | r in last.routers && AtDistance(net, r, p, k + 1)
      ensures ServedAt(net, last, r, p, k)
    {
      assert Heard(net, states[0], r, p, k);
      HeardIsServed(net, states, events, r, p, k);
    }
    ServedMeansExact(net, last, p, k);
  }

  lemma HeardIsServed(net: Network, states: seq<State>, events: seq<Event>, r: RouterId, p: Prefix, k: nat)
    requires IsRound(net, states, events) && Heard(net, states[0], r, p, k)
    requires forall i :: 0 <= i < |events| ==> EventServed(net, states[|events|], events[i], p, k)
    ensures ServedAt(net, states[|events|], r, p, k)
  {
    hide Served, BallFits, Enabled, Next, AtDistance;
    var a, b :| Link(net, a, b) && net.owner[b] == r && net.owner[a] in states[0].routers
      && AtDistance(net, net.owner[a], p, k) && BallFits(net, net.owner[a])
      && b in states[0].routers[net.owner[a]].neighbors;
    var i :| 0 <= i < |events| && Advertises(net, events[i], net.owner[a], b);
    assert EventServed(net, states[|events|], events[i], p, k);
    assert Served(net, states[|events|], events[i].src, b, p, k);
  }

  // ---------------------------------------------------------------------------------------------------
  // Lists of neighbours only grow within a round
  // ---------------------------------------------------------------------------------------------------

  predicate ListsGrow(s: State, s': State) {
    && s'.routers.Keys == s.routers.Keys
    && forall r, b :: r in s.routers && b in s.routers[r].neighbors ==> b in s'.routers[r].neighbors
  }

  lemma StepGrowsLists(net: Network, s: State, event: Event)
    requires Enabled(net, s, event) && !event.Timeout?
    ensures ListsGrow(s, Next(net, s, event))
  {
    hide UpdateAll, Announced, IsAdvertisement;
  }

  lemma {:induction false} RunGrowsLists(net: Network, states: seq<State>, events: seq<Event>)
    requires IsRun(net, states, events) && forall i :: 0 <= i < |events| ==> !events[i].Timeout?
    ensures ListsGrow(states[0], states[|events|])
  {
    if events != [] {
      hide Enabled, Next;
      var n := |events| - 1;
      RunGrowsLists(net, states[..n + 1], events[..n]);
      StepGrowsLists(net, states[n], events[n]);
    }
  }

  lemma RoutersStay(net: Network, states: seq<State>, events: seq<Event>)
    requires IsRound(net, states, events)
    ensures ListsGrow(states[0], states[|events|])
  {
    hide Enabled, Next, ListsGrow;
    RunGrowsLists(net, states, events);
  }

  // ---------------------------------------------------------------------------------------------------
  // Convergence
  // ---------------------------------------------------------------------------------------------------

  ghost predicate Reachable(net: Network, s: State) {
    exists states, events :: IsRun(net, states, events) && Start(net, states[0]) && states[|events|] == s
  }

  lemma ReachableIsSafe(net: Network, s: State)
    requires WellFormed(net) && Reachable(net, s)
    ensures Safe(net, s)
  {
    var states, events :| IsRun(net, states, events) && Start(net, states[0]) && states[|events|] == s;
    RunIsSafe(net, states, events);
  }

  datatype Trace = Trace(states: seq<State>, events: seq<Event>)

  ghost predicate AreRounds(net: Network, from: State, rounds: seq<Trace>, to: State) {
    if rounds == [] then from == to
    else
      var last := rounds[|rounds| - 1];
      && IsRound(net, last.states, last.events)
      && last.states[|last.events|] == to
      && AreRounds(net, from, rounds[..|rounds| - 1], last.states[0])
  }

  /** Own prefixes are always right. */
  lemma SafeIsExactAtZero(net: Network, s: State, p: Prefix)
    requires Safe(net, s) && s.channel == multiset{}
    ensures Exact(net, s, p, 0)
  {
    hide Adjacent, IsNeighbor;
    forall r, d: nat | r in s.routers && d <= 0 && AtDistance(net, r, p, d)
      ensures ExactAt(net, s.routers[r].table, p, d)
    {
      assert RouterOk(net, r, s.routers[r]);
      WithinZero(net, r, p);
    }
  }

  lemma HeardMoreLater(net: Network, s: State, s': State, p: Prefix, k: nat)
    requires AllHeard(net, s, p, k) && ListsGrow(s, s')
    ensures AllHeard(net, s', p, k)
  {
    hide AtDistance, BallFits;
    forall r | r in s'.routers && AtDistance(net, r, p, k + 1)
      ensures Heard(net, s', r, p, k)
    {
      assert Heard(net, s, r, p, k);
    }
  }

  lemma {:induction false} RoundsGrowLists(net: Network, from: State, rounds: seq<Trace>, to: State)
    requires AreRounds(net, from, rounds, to)
    ensures ListsGrow(from, to)
  {
    hide Enabled, Next;
    if rounds != [] {
      var n := |rounds| - 1;
      RoundsGrowLists(net, from, rounds[..n], rounds[n].states[0]);
      RoutersStay(net, rounds[n].states, rounds[n].events);
    }
  }

  lemma {:induction false} RoundsAdvance(net: Network, from: State, rounds: seq<Trace>, to: State, p: Prefix)
    requires WellFormed(net) && |rounds| < INFINITY
    requires Safe(net, from) && from.channel == multiset{} && AreRounds(net, from, rounds, to)
    requires forall k: nat :: k < |rounds| ==> AllHeard(net, from, p, k)
    ensures Exact(net, to, p, |rounds|)
  {
    hide Exact, Safe, AllHeard, WellFormed, Enabled, Next, ListsGrow;
    if rounds == [] {
      SafeIsExactAtZero(net, from, p);
    } else {
      var n := |rounds| - 1;
      var last := rounds[n];
      RoundsAdvance(net, from, rounds[..n], last.states[0], p);
      RoundsGrowLists(net, from, rounds[..n], last.states[0]);
      HeardMoreLater(net, from, last.states[0], p, n);
      RoundAdvances(net, last.states, last.events, p, n);
    }
  }

  /**
   From any state that any run can reach, once it has drained, k rounds (k <= 15) make every router within k
   hops of p hold exactly its distance, via a router one hop closer, if each such router is heard of by a
   router one hop closer whose table fits into a packet.
   */
  lemma Converges(net: Network, from: State, rounds: seq<Trace>, to: State, p: Prefix)
    requires WellFormed(net) && Reachable(net, from) && from.channel == multiset{}
    requires |rounds| < INFINITY && AreRounds(net, from, rounds, to)
    requires forall k: nat :: k < |rounds| ==> AllHeard(net, from, p, k)
    ensures Safe(net, to)
    ensures forall r, d: nat :: r in to.routers && d <= |rounds| && AtDistance(net, r, p, d) ==>
              ExactAt(net, to.routers[r].table, p, d)
  {
    ReachableIsSafe(net, from);
    hide Safe, WellFormed, AreRounds, ExactAt, AtDistance, PacketExact, AllHeard, Reachable;
    RoundsAdvance(net, from, rounds, to, p);
    forall r, d: nat | r in to.routers && d <= |rounds| && AtDistance(net, r, p, d)
      ensures ExactAt(net, to.routers[r].table, p, d)
    {
      assert TableExact(net, r, to.routers[r].table, p, |rounds|);
    }
  }

  ghost predicate EntryConverged(net: Network, r: RouterId, m: RoutingTable, p: Prefix)
    requires p in m
  {
    var hop := m[p];
    && AtDistance(net, r, p, hop.cost) && hop.cost < INFINITY
    && (hop.cost > 0 ==>
          && hop.addr in net.owner && IsNeighbor(net, r, hop.addr) && Adjacent(net, r, net.owner[hop.addr])
          && AtDistance(net, net.owner[hop.addr], p, hop.cost - 1))
  }

  /** The tables hold exactly the prefixes at most 15 hops away, at their distances, via routers one hop closer. */
  ghost predicate Converged(net: Network, routers: map<RouterId, RouterState>) {
    && routers.Keys == net.local.Keys
    && (forall r, p :: r in routers && Attached(net, r, p) ==>
          p in routers[r].table && routers[r].table[p] == Hop(net.local[r][p], 0))
    && (forall r, p :: r in routers && p in routers[r].table ==> EntryConverged(net, r, routers[r].table, p))
    && (forall r, p, d: nat :: r in routers && d < INFINITY && AtDistance(net, r, p, d) ==> p in routers[r].table)
  }

  /** Converged tables are exact. */
  lemma ConvergedIsExact(net: Network, routers: map<RouterId, RouterState>, r: RouterId, p: Prefix, d: nat)
    requires Converged(net, routers) && r in routers && AtDistance(net, r, p, d) && d < INFINITY
    ensures ExactAt(net, routers[r].table, p, d)
  {
    hide AtDistance, Adjacent, IsNeighbor;
    assert EntryConverged(net, r, routers[r].table, p);
    DistanceIsUnique(net, r, p, d, routers[r].table[p].cost);
  }

  /** Everybody within 15 hops of any prefix is heard of one hop closer. */
  ghost predicate HeardEverywhere(net: Network, s: State) {
    forall p: Prefix, k: nat :: k + 1 < INFINITY ==> AllHeard(net, s, p, k)
  }

  /** Fifteen rounds converge. */
  lemma FifteenRoundsConverge(net: Network, from: State, rounds: seq<Trace>, to: State)
    requires WellFormed(net) && Reachable(net, from) && from.channel == multiset{} && HeardEverywhere(net, from)
    requires |rounds| == 15 && AreRounds(net, from, rounds, to)
    ensures Converged(net, to.routers)
  {
    hide Exact, Safe, WellFormed, AreRounds, Converged, Reachable, AllHeard;
    ReachableIsSafe(net, from);
    forall p: Prefix
      ensures Exact(net, to, p, 15)
    {
      RoundsAdvance(net, from, rounds, to, p);
    }
    ExactMeansConverged(net, to);
  }

  lemma ExactIsSafe(net: Network, s: State, p: Prefix, k: nat)
    requires Exact(net, s, p, k)
    ensures Safe(net, s) && RoutersExact(net, s, p, k)
  {
  }

  lemma ExactMeansConverged(net: Network, s: State)
    requires forall p: Prefix :: Exact(net, s, p, 15)
    ensures Converged(net, s.routers)
  {
    hide AtDistance, ExactAt, RouterOk, Adjacent, Exact;
    ExactIsSafe(net, s, Prefix(0, 0), 15);
    forall r, p: Prefix | r in s.routers
      ensures TableExact(net, r, s.routers[r].table, p, 15)
    {
      ExactIsSafe(net, s, p, 15);
    }
    forall r, p | r in s.routers && Attached(net, r, p)
      ensures p in s.routers[r].table && s.routers[r].table[p] == Hop(net.local[r][p], 0)
    {
      OwnEntry(net, r, s.routers[r], p);
    }
    forall r, p | r in s.routers && p in s.routers[r].table
      ensures EntryConverged(net, r, s.routers[r].table, p)
    {
      EntryIsExact(net, r, s.routers[r], p);
    }
    forall r, p, d: nat | r in s.routers && d < INFINITY && AtDistance(net, r, p, d)
      ensures p in s.routers[r].table
    {
      assert TableExact(net, r, s.routers[r].table, p, 15);
      ExactIsThere(net, s.routers[r].table, p, d);
    }
  }

  lemma OwnEntry(net: Network, r: RouterId, st: RouterState, p: Prefix)
    requires RouterOk(net, r, st) && Attached(net, r, p)
    ensures p in st.table && st.table[p] == Hop(net.local[r][p], 0)
  {
    hide LearnedOk, IsNeighbor;
  }

  lemma ExactIsThere(net: Network, m: RoutingTable, p: Prefix, d: nat)
    requires ExactAt(net, m, p, d)
    ensures p in m && m[p].cost == d
  {
  }

  lemma EntryIsExact(net: Network, r: RouterId, st: RouterState, p: Prefix)
    requires RouterOk(net, r, st) && TableExact(net, r, st.table, p, 15) && p in st.table
    ensures EntryConverged(net, r, st.table, p)
  {
    hide AtDistance, Within, Adjacent, IsNeighbor;
    TableCosts(net, r, st.neighbors, st.table);
    var d := DistanceExists(net, r, p, st.table[p].cost);
    assert ExactAt(net, st.table, p, d);
  }

}
