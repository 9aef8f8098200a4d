/**
 The routing protocol as a whole: a fixed graph of routers, packets in flight that may be lost, duplicated and
 reordered, timeouts, and the true hop distances that the tables are judged by.
 */
module RipNetwork {
  import opened RipWire
  import opened RipRouter

  type RouterId = nat

  /**
   `links` pairs interface addresses that can reach each other, `owner` is the router that has an address, and
   `local` gives the prefixes a router is attached to with its own address there.
   */
  datatype Network = Network(
    links: set<(Addr, Addr)>, owner: map<Addr, RouterId>, local: map<RouterId, map<Prefix, Addr>>)

  ghost predicate WellFormed(net: Network) {
    && (forall l :: l in net.links ==>
          && (l.1, l.0) in net.links
          && l.0 in net.owner && l.1 in net.owner
          && net.owner[l.0] in net.local && net.owner[l.1] in net.local
          && net.owner[l.0] != net.owner[l.1])
    && (forall r, p :: r in net.local && p in net.local[r] ==>
          net.local[r][p] in net.owner && net.owner[net.local[r][p]] == r)
  }

  predicate Link(net: Network, src: Addr, dst: Addr) {
    (src, dst) in net.links && src in net.owner && dst in net.owner
  }

  // ---------------------------------------------------------------------------------------------------
  // Distances
  // ---------------------------------------------------------------------------------------------------

  predicate Attached(net: Network, r: RouterId, p: Prefix) {
    r in net.local && p in net.local[r]
  }

  ghost predicate Adjacent(net: Network, r: RouterId, s: RouterId) {
    exists a, b :: Link(net, a, b) && net.owner[a] == s && net.owner[b] == r
  }

  /** Router r is at most k hops from a router attached to p. */
  ghost predicate Within(net: Network, r: RouterId, p: Prefix, k: nat)
    decreases k
  {
    Attached(net, r, p) || (k > 0 && exists s :: Adjacent(net, r, s) && Within(net, s, p, k - 1))
  }

  ghost predicate AtDistance(net: Network, r: RouterId, p: Prefix, d: nat) {
    Within(net, r, p, d) && (d == 0 || !Within(net, r, p, d - 1))
  }

  ghost predicate IsWalk(net: Network, walk: seq<RouterId>) {
    forall i :: 0 <= i < |walk| - 1 ==> Adjacent(net, walk[i], walk[i + 1])
  }

  /** `Within` is what it says: there is a walk of at most k hops. */
  lemma {:induction false} WithinIsWalk(net: Network, r: RouterId, p: Prefix, k: nat)
    ensures Within(net, r, p, k) <==>
              exists walk: seq<RouterId> ::
                0 < |walk| <= k + 1 && walk[0] == r && Attached(net, walk[|walk| - 1], p) && IsWalk(net, walk)
    decreases k
  {
    if Attached(net, r, p) {
      assert IsWalk(net, [r]) && [r][0] == r;
    } else {
      if Within(net, r, p, k) {
        var s :| Adjacent(net, r, s) && Within(net, s, p, k - 1);
        WithinIsWalk(net, s, p, k - 1);
        var walk: seq<RouterId> :|
          0 < |walk| <= k && walk[0] == s && Attached(net, walk[|walk| - 1], p) && IsWalk(net, walk);
        var longer := [r] + walk;
        assert forall i :: 1 <= i < |longer| ==> longer[i] == walk[i - 1];
        assert IsWalk(net, longer) && longer[0] == r;
      }
      if walk: seq<RouterId> :|
        0 < |walk| <= k + 1 && walk[0] == r && Attached(net, walk[|walk| - 1], p) && IsWalk(net, walk)
      {
        var rest := walk[1..];
        assert Adjacent(net, walk[0], walk[1]);
        forall i | 0 <= i < |rest| - 1
          ensures Adjacent(net, rest[i], rest[i + 1])
        {
          var j := i + 1;
          assert Adjacent(net, walk[j], walk[j + 1]);
        }
        WithinIsWalk(net, rest[0], p, k - 1);
      }
    }
  }

  lemma {:induction false} WithinMonotone(net: Network, r: RouterId, p: Prefix, k: nat, k': nat)
    requires Within(net, r, p, k) && k <= k'
    ensures Within(net, r, p, k')
    decreases k
  {
    if !Attached(net, r, p) {
      var s :| Adjacent(net, r, s) && Within(net, s, p, k - 1);
      WithinMonotone(net, s, p, k - 1, k' - 1);
    }
  }

  /** Something within reach lies at some distance. */
  lemma {:induction false} DistanceExists(net: Network, r: RouterId, p: Prefix, k: nat) returns (d: nat)
    requires Within(net, r, p, k)
    ensures d <= k && AtDistance(net, r, p, d)
  {
    if k > 0 && Within(net, r, p, k - 1) {
      d := DistanceExists(net, r, p, k - 1);
    } else {
      d := k;
    }
  }

  lemma DistanceIsLeast(net: Network, r: RouterId, p: Prefix, d: nat, k: nat)
    requires AtDistance(net, r, p, d) && Within(net, r, p, k)
    ensures d <= k
  {
    if k < d {
      WithinMonotone(net, r, p, k, d - 1);
    }
  }

  lemma DistanceIsUnique(net: Network, r: RouterId, p: Prefix, d: nat, e: nat)
    requires AtDistance(net, r, p, d) && AtDistance(net, r, p, e)
    ensures d == e
  {
    DistanceIsLeast(net, r, p, d, e);
    DistanceIsLeast(net, r, p, e, d);
  }

  // ---------------------------------------------------------------------------------------------------
  // States and steps
  // ---------------------------------------------------------------------------------------------------

  datatype RouterState = RouterState(table: RoutingTable, neighbors: seq<Addr>)

  datatype Packet = Packet(src: Addr, dst: Addr, header: RipHeader)

  datatype State = State(routers: map<RouterId, RouterState>, channel: multiset<Packet>)

  datatype Event =
    | Advertise(src: Addr, dst: Addr, hosts: seq<Route>)
    | Ask(src: Addr, dst: Addr)
    | Deliver(packet: Packet, out: seq<Packet>)
    | Duplicate(packet: Packet)
    | Lose(packet: Packet)
    | Timeout(router: RouterId, index: nat, out: seq<Packet>)

  predicate Fits(table: RoutingTable) {
    0 < |table| <= MAX_ENTRIES
  }

  function Response(src: Addr, dst: Addr, hosts: seq<Route>): Packet
    requires |hosts| <= MAX_ENTRIES
  {
    Packet(src, dst, RipHeader(RESPONSE, |hosts|, hosts))
  }

  /** An announcement of `table` by router r to one of `neighbors`. */
  predicate IsAnnouncement(net: Network, r: RouterId, neighbors: seq<Addr>, table: RoutingTable, o: Packet) {
    && Link(net, o.src, o.dst) && net.owner[o.src] == r && o.dst in neighbors
    && Fits(table) && IsAdvertisement(table, o.dst, o.header.hosts)
    && o == Response(o.src, o.dst, o.header.hosts)
  }

  /** Any number of announcements, as the network may lose and duplicate. */
  predicate Announced(net: Network, r: RouterId, neighbors: seq<Addr>, table: RoutingTable, out: seq<Packet>) {
    forall o :: o in out ==> IsAnnouncement(net, r, neighbors, table, o)
  }

  /** What `SendToAll` hands over may go out as packets over links of the router. */
  lemma SendingsAreAnnounced(
    net: Network, r: RouterId, neighbors: seq<Addr>, table: RoutingTable, sent: seq<Sending>, out: seq<Packet>)
    requires AnnouncesToAll(sent, neighbors, table) && |out| == |sent|
    requires forall i :: 0 <= i < |out| ==>
               && out[i].dst == sent[i].router && out[i].header == sent[i].header
               && Link(net, out[i].src, out[i].dst) && net.owner[out[i].src] == r
    ensures Announced(net, r, neighbors, table, out)
  {
    hide ToRoute, ToPrefix, Distinct, IsAdvertisement;
    forall i | 0 <= i < |out|
      ensures IsAnnouncement(net, r, neighbors, table, out[i])
    {
      assert Announces([sent[i]], neighbors[i], table);
      AdvertisementSize(table, out[i].dst, out[i].header.hosts);
    }
  }

  /** The router that a packet reaches, after it has added the sender to its neighbours. */
  function Receiver(net: Network, s: State, pk: Packet): RouterState
    requires pk.dst in net.owner && net.owner[pk.dst] in s.routers
  {
    var st := s.routers[net.owner[pk.dst]];
    st.(neighbors := WithNeighbor(st.neighbors, pk.src))
  }

  function Updated(net: Network, s: State, pk: Packet): Tables
    requires pk.dst in net.owner && net.owner[pk.dst] in s.routers
  {
    UpdateAll(Tables(s.routers[net.owner[pk.dst]].table, map[]), pk.src, pk.header.hosts)
  }

  predicate Enabled(net: Network, s: State, event: Event) {
    match event
    case Advertise(src, dst, hosts) =>
      && Link(net, src, dst) && net.owner[src] in s.routers
      && var st := s.routers[net.owner[src]];
         dst in st.neighbors && IsAdvertisement(st.table, dst, hosts)
    case Ask(src, dst) =>
      Link(net, src, dst) && net.owner[src] in s.routers && dst in s.routers[net.owner[src]].neighbors
    case Deliver(pk, out) =>
      && pk in s.channel && pk.dst in net.owner && net.owner[pk.dst] in s.routers
      && var r := net.owner[pk.dst];
         var st := Receiver(net, s, pk);
         if pk.header.command == RESPONSE then Announced(net, r, st.neighbors, Updated(net, s, pk).triggered, out)
         else Announced(net, r, [pk.src], st.table, out)
    case Duplicate(pk) => pk in s.channel
    case Lose(pk) => pk in s.channel
    case Timeout(r, i, out) =>
      && r in s.routers && i < |s.routers[r].neighbors|
      && var st := s.routers[r];
         Announced(net, r, Remove(st.neighbors, i), Farewell(st.table, st.neighbors[i]), out)
  }

  function Next(net: Network, s: State, event: Event): State
    requires Enabled(net, s, event)
  {
    match event
    case Advertise(src, dst, hosts) =>
      if Fits(s.routers[net.owner[src]].table) then s.(channel := s.channel + multiset{Response(src, dst, hosts)})
      else s
    case Ask(src, dst) =>
      s.(channel := s.channel + multiset{Packet(src, dst, RipHeader(REQUEST, 0, []))})
    case Deliver(pk, out) =>
      var st := Receiver(net, s, pk);
      var st' := if pk.header.command == RESPONSE then st.(table := Updated(net, s, pk).table) else st;
      State(s.routers[net.owner[pk.dst] := st'], s.channel - multiset{pk} + multiset(out))
    case Duplicate(pk) => s.(channel := s.channel + multiset{pk})
    case Lose(pk) => s.(channel := s.channel - multiset{pk})
    case Timeout(r, i, out) =>
      var st := s.routers[r];
      State(s.routers[r := RouterState(Purged(st.table, st.neighbors[i]), Remove(st.neighbors, i))],
            s.channel + multiset(out))
  }

  ghost predicate IsRun(net: Network, states: seq<State>, events: seq<Event>) {
    && |states| == |events| + 1
    && forall i :: 0 <= i < |events| ==>
         Enabled(net, states[i], events[i]) && states[i + 1] == Next(net, states[i], events[i])
  }

  predicate IsNeighbor(net: Network, r: RouterId, b: Addr) {
    b in net.owner && exists l :: l in net.links && l.1 == b && l.0 in net.owner && net.owner[l.0] == r
  }

  /** The tables that `Initialize` sets up, without static routes; any neighbours may be configured. */
  ghost predicate Start(net: Network, s: State) {
    && s.channel == multiset{} && s.routers.Keys == net.local.Keys
    && forall r :: r in s.routers ==>
         && s.routers[r].table == (map p | p in net.local[r] :: Hop(net.local[r][p], 0))
         && forall b :: b in s.routers[r].neighbors ==> IsNeighbor(net, r, b)
  }

  // ---------------------------------------------------------------------------------------------------
  // Safety
  // ---------------------------------------------------------------------------------------------------

  /** Costs below infinity are not below the true distance. */
  ghost predicate CostsOk(net: Network, r: RouterId, m: RoutingTable) {
    forall p :: p in m && m[p].cost < INFINITY ==> Within(net, r, p, m[p].cost)
  }

  ghost predicate LearnedOk(net: Network, r: RouterId, neighbors: seq<Addr>, p: Prefix, hop: Hop) {
    && 1 <= hop.cost < INFINITY
    && hop.addr in neighbors && hop.addr in net.owner && Adjacent(net, r, net.owner[hop.addr])
    && Within(net, net.owner[hop.addr], p, hop.cost - 1)
  }

  /**
   Own prefixes stay at cost 0; what was learned via h costs 1..15, at least 1 + the distance from h, and h is a
   current neighbour.
   */
  ghost predicate TableOk(net: Network, r: RouterId, neighbors: seq<Addr>, m: RoutingTable) {
    && r in net.local
    && (forall p :: p in net.local[r] ==> p in m && m[p] == Hop(net.local[r][p], 0))
    && (forall p :: p in m && p !in net.local[r] ==> LearnedOk(net, r, neighbors, p, m[p]))
  }

  ghost predicate RouterOk(net: Network, r: RouterId, st: RouterState) {
    && TableOk(net, r, st.neighbors, st.table)
    && (forall b :: b in st.neighbors ==> IsNeighbor(net, r, b))
  }

  ghost predicate PacketOk(net: Network, pk: Packet) {
    && Link(net, pk.src, pk.dst)
    && forall h :: h in pk.header.hosts && h.cost < INFINITY ==> Within(net, net.owner[pk.src], ToPrefix(h), h.cost)
  }

  ghost predicate Safe(net: Network, s: State) {
    && s.routers.Keys == net.local.Keys
    && (forall r :: r in s.routers ==> RouterOk(net, r, s.routers[r]))
    && (forall pk :: pk in s.channel ==> PacketOk(net, pk))
  }

  lemma TableCosts(net: Network, r: RouterId, neighbors: seq<Addr>, m: RoutingTable)
    requires TableOk(net, r, neighbors, m)
    ensures CostsOk(net, r, m)
  {
  }

  /** The update rule on one entry of a response from an adjacent router. */
  lemma EntryKeepsTableOk(net: Network, r: RouterId, neighbors: seq<Addr>, ts: Tables, src: Addr, h: Route)
    requires TableOk(net, r, neighbors, ts.table) && CostsOk(net, r, ts.triggered)
    requires src in neighbors && src in net.owner && Adjacent(net, r, net.owner[src])
    requires forall p :: p in net.local[r] ==> net.local[r][p] != src
    requires h.cost < INFINITY ==> Within(net, net.owner[src], ToPrefix(h), h.cost)
    ensures var ts' := UpdateEntry(ts, src, h); TableOk(net, r, neighbors, ts'.table) && CostsOk(net, r, ts'.triggered)
  {
    hide Adjacent, ToPrefix;
    var p, c := ToPrefix(h), LearnedCost(h.cost);
    if c < INFINITY {
      assert Within(net, r, p, c);
      assert LearnedOk(net, r, neighbors, p, Hop(src, c));
    }
  }

  lemma {:induction false} ResponseKeepsTableOk(
      net: Network, r: RouterId, neighbors: seq<Addr>, ts: Tables, src: Addr, hosts: seq<Route>)
    requires TableOk(net, r, neighbors, ts.table) && CostsOk(net, r, ts.triggered)
    requires src in neighbors && src in net.owner && Adjacent(net, r, net.owner[src])
    requires forall p :: p in net.local[r] ==> net.local[r][p] != src
    requires forall h :: h in hosts && h.cost < INFINITY ==> Within(net, net.owner[src], ToPrefix(h), h.cost)
    ensures var ts' := UpdateAll(ts, src, hosts);
            TableOk(net, r, neighbors, ts'.table) && CostsOk(net, r, ts'.triggered)
  {
    hide Adjacent, ToPrefix, Within, TableOk, CostsOk, UpdateEntry;
    if hosts != [] {
      var n := |hosts| - 1;
      ResponseKeepsTableOk(net, r, neighbors, ts, src, hosts[..n]);
      assert hosts[n] in hosts;
      EntryKeepsTableOk(net, r, neighbors, UpdateAll(ts, src, hosts[..n]), src, hosts[n]);
    }
  }

  lemma AnnouncedIsOk(net: Network, r: RouterId, neighbors: seq<Addr>, table: RoutingTable, out: seq<Packet>)
    requires CostsOk(net, r, table) && Announced(net, r, neighbors, table, out)
    ensures forall pk :: pk in out ==> PacketOk(net, pk)
  {
    hide Within, ToPrefix, ToRoute;
    forall pk | pk in out
      ensures PacketOk(net, pk)
    {
      AdvertisementIsOk(net, r, pk.src, pk.dst, table, pk.header.hosts);
    }
  }

  lemma AdvertisementIsOk(net: Network, r: RouterId, src: Addr, dst: Addr, table: RoutingTable, hosts: seq<Route>)
    requires CostsOk(net, r, table) && IsAdvertisement(table, dst, hosts)
    ensures forall h :: h in hosts && h.cost < INFINITY ==> Within(net, r, ToPrefix(h), h.cost)
  {
    hide Within, ToPrefix;
  }

  lemma OwnAddressIsNot(net: Network, r: RouterId, src: Addr)
    requires WellFormed(net) && r in net.local && src in net.owner && net.owner[src] != r
    ensures forall p :: p in net.local[r] ==> net.local[r][p] != src
  {
  }

  /** What a delivery needs to know about its packet. */
  lemma PacketEnds(net: Network, s: State, pk: Packet)
    requires WellFormed(net) && Safe(net, s) && pk in s.channel
    ensures pk.src in net.owner && pk.dst in net.owner
    ensures var r := net.owner[pk.dst];
            && r in s.routers && r in net.local && net.owner[pk.src] != r
            && Adjacent(net, r, net.owner[pk.src]) && IsNeighbor(net, r, pk.src)
            && (forall p :: p in net.local[r] ==> net.local[r][p] != pk.src)
            && TableOk(net, r, Receiver(net, s, pk).neighbors, s.routers[r].table)
  {
    hide Within, ToPrefix;
    assert PacketOk(net, pk);
    assert (pk.src, pk.dst) in net.links && (pk.dst, pk.src) in net.links;
    OwnAddressIsNot(net, net.owner[pk.dst], pk.src);
    assert RouterOk(net, net.owner[pk.dst], s.routers[net.owner[pk.dst]]);
  }

  lemma DeliverIsSafe(net: Network, s: State, pk: Packet, out: seq<Packet>)
    requires WellFormed(net) && Safe(net, s) && Enabled(net, s, Deliver(pk, out))
    ensures Safe(net, Next(net, s, Deliver(pk, out)))
  {
    hide Within, ToPrefix, Adjacent, TableOk, CostsOk, UpdateAll, Announced, IsNeighbor;
    PacketEnds(net, s, pk);
    var r := net.owner[pk.dst];
    var st := Receiver(net, s, pk);
    assert PacketOk(net, pk) && RouterOk(net, r, s.routers[r]);
    if pk.header.command == RESPONSE {
      NothingCosts(net, r);
      ResponseKeepsTableOk(net, r, st.neighbors, Tables(st.table, map[]), pk.src, pk.header.hosts);
      AnnouncedIsOk(net, r, st.neighbors, Updated(net, s, pk).triggered, out);
    } else {
      TableCosts(net, r, st.neighbors, st.table);
      AnnouncedIsOk(net, r, [pk.src], st.table, out);
    }
  }

  lemma NothingCosts(net: Network, r: RouterId)
    ensures CostsOk(net, r, map[])
  {
  }

  lemma TimeoutIsSafe(net: Network, s: State, r: RouterId, i: nat, out: seq<Packet>)
    requires WellFormed(net) && Safe(net, s) && Enabled(net, s, Timeout(r, i, out))
    ensures Safe(net, Next(net, s, Timeout(r, i, out)))
  {
    hide Within, ToPrefix, Adjacent, Announced;
    var st := s.routers[r];
    assert RouterOk(net, r, st);
    var ip := st.neighbors[i];
    assert IsNeighbor(net, r, ip);
    RemoveKeepsOthers(st.neighbors, i);
    PurgeKeepsTableOk(net, r, st.neighbors, Remove(st.neighbors, i), st.table, ip);
    AnnouncedIsOk(net, r, Remove(st.neighbors, i), Farewell(st.table, ip), out);
  }

  lemma RemoveKeepsOthers(s: seq<Addr>, i: nat)
    requires i < |s|
    ensures forall a :: a in Remove(s, i) ==> a in s
    ensures forall a :: a in s && a != s[i] ==> a in Remove(s, i)
  {
    var r := Remove(s, i);
    assert forall a :: a in r <==> a in multiset(r);
    assert forall a :: a in s <==> a in multiset(s);
  }

  lemma PurgeKeepsTableOk(net: Network, r: RouterId, neighbors: seq<Addr>, fewer: seq<Addr>, m: RoutingTable, ip: Addr)
    requires WellFormed(net) && TableOk(net, r, neighbors, m) && IsNeighbor(net, r, ip)
    requires forall a :: a in neighbors && a != ip ==> a in fewer
    ensures TableOk(net, r, fewer, Purged(m, ip)) && CostsOk(net, r, Farewell(m, ip))
  {
    hide Within, ToPrefix, Adjacent;
    TableCosts(net, r, neighbors, m);
  }

  lemma StepIsSafe(net: Network, s: State, event: Event)
    requires WellFormed(net) && Safe(net, s) && Enabled(net, s, event)
    ensures Safe(net, Next(net, s, event))
  {
    hide Within, ToPrefix, Adjacent, TableOk, CostsOk, UpdateAll, IsNeighbor, IsAdvertisement;
    match event
    case Advertise(src, dst, hosts) =>
      var st := s.routers[net.owner[src]];
      assert RouterOk(net, net.owner[src], st);
      TableCosts(net, net.owner[src], st.neighbors, st.table);
      AdvertisementIsOk(net, net.owner[src], src, dst, st.table, hosts);
    case Deliver(pk, out) => DeliverIsSafe(net, s, pk, out);
    case Timeout(r, i, out) => TimeoutIsSafe(net, s, r, i, out);
    case _ =>
  }

  lemma StartIsSafe(net: Network, s: State)
    requires WellFormed(net) && Start(net, s)
    ensures Safe(net, s)
  {
    hide Within, Adjacent, IsNeighbor;
  }

  /** Every reachable state is safe, whatever is lost, duplicated, reordered or timed out. */
  lemma {:induction false} RunIsSafe(net: Network, states: seq<State>, events: seq<Event>)
    requires WellFormed(net) && IsRun(net, states, events) && Start(net, states[0])
    ensures Safe(net, states[|events|])
  {
    if events == [] {
      StartIsSafe(net, states[0]);
    } else {
      var n := |events| - 1;
      hide Safe, Enabled, Next, Start;
      RunIsSafe(net, states[..n + 1], events[..n]);
      StepIsSafe(net, states[n], events[n]);
      assert states[n + 1] == Next(net, states[n], events[n]);
    }
  }

  /**
   In the terms of distance: no cost below the true one, a cost via h at least one more than from h, nothing 16 or
   more hops away.
   */
  ghost predicate NotBelowDistance(net: Network, r: RouterId, p: Prefix, hop: Hop) {
    && hop.cost < INFINITY
    && (forall d: nat :: AtDistance(net, r, p, d) ==> d <= hop.cost)
    && (exists d: nat :: d < INFINITY && AtDistance(net, r, p, d))
    && (!Attached(net, r, p) ==>
          hop.addr in net.owner && forall d: nat :: AtDistance(net, net.owner[hop.addr], p, d) ==> 1 + d <= hop.cost)
  }

  lemma EntryNotBelowDistance(net: Network, r: RouterId, st: RouterState, p: Prefix)
    requires RouterOk(net, r, st) && p in st.table
    ensures NotBelowDistance(net, r, p, st.table[p])
  {
    hide Within, Adjacent, IsNeighbor;
    TableCosts(net, r, st.neighbors, st.table);
    var hop := st.table[p];
    assert Within(net, r, p, hop.cost);
    var e := DistanceExists(net, r, p, hop.cost);
    hide AtDistance;
    forall d: nat | AtDistance(net, r, p, d)
      ensures d <= hop.cost
    {
      DistanceIsLeast(net, r, p, d, hop.cost);
    }
    if !Attached(net, r, p) {
      forall d: nat | AtDistance(net, net.owner[hop.addr], p, d)
        ensures 1 + d <= hop.cost
      {
        DistanceIsLeast(net, net.owner[hop.addr], p, d, hop.cost - 1);
      }
    }
  }

  lemma CostsAreNotBelowDistance(net: Network, states: seq<State>, events: seq<Event>, r: RouterId, p: Prefix)
    requires WellFormed(net) && IsRun(net, states, events) && Start(net, states[0])
    requires r in states[|events|].routers && p in states[|events|].routers[r].table
    ensures NotBelowDistance(net, r, p, states[|events|].routers[r].table[p])
  {
    RunIsSafe(net, states, events);
    hide RouterOk, NotBelowDistance;
    EntryNotBelowDistance(net, r, states[|events|].routers[r], p);
  }
}
