/**
 One router's side of the routing protocol: the update rule for a response, advertisements with split horizon
 and poisoned reverse, and the purge of a neighbour that has timed out.
 */
module RipRouter {
  import opened Words
  import opened RipWire

  type Addr = uint32

  datatype Hop = Hop(addr: Addr, cost: uint32)

  type RoutingTable = map<Prefix, Hop>

  /** The table, and the part of it that changed and is to be announced. */
  datatype Tables = Tables(table: RoutingTable, triggered: RoutingTable)

  // ---------------------------------------------------------------------------------------------------
  // The update rule
  // ---------------------------------------------------------------------------------------------------

  function LearnedCost(cost: uint32): uint32 {
    if cost > INFINITY then INFINITY else if cost < INFINITY then cost + 1 else cost
  }

  datatype Verdict = Keep | Learn(hop: Hop) | Purge(hop: Hop)

  /** What one advertised cost does to one entry. */
  function Judge(table: RoutingTable, src: Addr, prefix: Prefix, advertised: uint32): Verdict {
    var hop := Hop(src, LearnedCost(advertised));
    if prefix !in table then
      if hop.cost < INFINITY then Learn(hop) else Keep
    else
      var curr := table[prefix];
      if hop.cost < INFINITY then
        if hop.cost < curr.cost || (hop.cost > curr.cost && curr.addr == src) then Learn(hop) else Keep
      else if curr.cost > 0 && curr.addr == src then Purge(hop)
      else Keep
  }

  function UpdateEntry(ts: Tables, src: Addr, route: Route): Tables {
    var prefix := ToPrefix(route);
    match Judge(ts.table, src, prefix, route.cost)
    case Keep => ts
    case Learn(hop) => Tables(ts.table[prefix := hop], ts.triggered[prefix := hop])
    case Purge(hop) => Tables(ts.table - {prefix}, ts.triggered[prefix := hop])
  }

  function UpdateAll(ts: Tables, src: Addr, hosts: seq<Route>): Tables {
    if hosts == [] then ts else UpdateEntry(UpdateAll(ts, src, hosts[..|hosts| - 1]), src, hosts[|hosts| - 1])
  }

  predicate Distinct(hosts: seq<Route>) {
    forall i, j :: 0 <= i < j < |hosts| ==> ToPrefix(hosts[i]) != ToPrefix(hosts[j])
  }

  predicate SameAt(m: RoutingTable, m': RoutingTable, p: Prefix) {
    if p in m then p in m' && m[p] == m'[p] else p !in m'
  }

  predicate TablesSameAt(ts: Tables, ts': Tables, p: Prefix) {
    SameAt(ts.table, ts'.table, p) && SameAt(ts.triggered, ts'.triggered, p)
  }

  /** A response that does not mention a prefix leaves it alone. */
  lemma {:induction false} UnmentionedStays(ts: Tables, src: Addr, hosts: seq<Route>, p: Prefix)
    requires forall i :: 0 <= i < |hosts| ==> ToPrefix(hosts[i]) != p
    ensures TablesSameAt(UpdateAll(ts, src, hosts), ts, p)
  {
    if hosts != [] {
      UnmentionedStays(ts, src, hosts[..|hosts| - 1], p);
    }
  }

  /** No other entry is about the prefix of entry k. */
  predicate MentionsOnce(hosts: seq<Route>, k: nat) {
    k < |hosts| && forall i :: 0 <= i < |hosts| && i != k ==> ToPrefix(hosts[i]) != ToPrefix(hosts[k])
  }

  /** A response that mentions a prefix once treats it by that entry alone. */
  lemma {:induction false} MentionedOnce(ts: Tables, src: Addr, hosts: seq<Route>, k: nat)
    requires MentionsOnce(hosts, k)
    ensures TablesSameAt(UpdateAll(ts, src, hosts), UpdateEntry(ts, src, hosts[k]), ToPrefix(hosts[k]))
  {
    var n := |hosts| - 1;
    var init := hosts[..n];
    if k < n {
      MentionedOnce(ts, src, init, k);
      assert init[k] == hosts[k];
    } else {
      UnmentionedStays(ts, src, init, ToPrefix(hosts[k]));
    }
  }

  /**
   What a response of src with cost a makes of an entry: one via src follows src, rises included, and is gone at
   infinity; one via another router changes only to a strictly lower cost; a new one is taken below infinity.
   */
  predicate RouteAfter(before: RoutingTable, after: RoutingTable, src: Addr, p: Prefix, a: uint32) {
    if p in before && before[p].addr == src then
      if a < 15 then p in after && after[p] == Hop(src, a + 1)
      else if before[p].cost > 0 then p !in after
      else p in after && after[p] == before[p]
    else if p in before then
      p in after && after[p] == if a < 15 && a + 1 < before[p].cost then Hop(src, a + 1) else before[p]
    else if a < 15 then p in after && after[p] == Hop(src, a + 1)
    else p !in after
  }

  /** Exactly a change of the entry is to be announced, with its new cost or, if the entry is gone, 16. */
  predicate ChangeAnnounced(before: RoutingTable, after: RoutingTable, triggered: RoutingTable, src: Addr, p: Prefix) {
    if SameAt(before, after, p) then p !in triggered
    else p in triggered && triggered[p] == if p in after then after[p] else Hop(src, 16)
  }

  lemma RouteFollowsResponse(table: RoutingTable, src: Addr, hosts: seq<Route>, k: nat)
    requires MentionsOnce(hosts, k)
    ensures var ts, p := UpdateAll(Tables(table, map[]), src, hosts), ToPrefix(hosts[k]);
            RouteAfter(table, ts.table, src, p, hosts[k].cost) && ChangeAnnounced(table, ts.table, ts.triggered, src, p)
  {
    hide ToPrefix;
    MentionedOnce(Tables(table, map[]), src, hosts, k);
  }

  /** The order of the entries, which is that of a Go map, does not matter. */
  lemma OrderIsIrrelevant(ts: Tables, src: Addr, hosts: seq<Route>, hosts': seq<Route>)
    requires Distinct(hosts) && Distinct(hosts') && forall r :: r in hosts <==> r in hosts'
    ensures UpdateAll(ts, src, hosts) == UpdateAll(ts, src, hosts')
  {
    var a, b := UpdateAll(ts, src, hosts), UpdateAll(ts, src, hosts');
    forall p: Prefix
      ensures SameAt(a.table, b.table, p) && SameAt(a.triggered, b.triggered, p)
    {
      if k :| 0 <= k < |hosts| && ToPrefix(hosts[k]) == p {
        assert hosts[k] in hosts';
        var k' :| 0 <= k' < |hosts'| && hosts'[k'] == hosts[k];
        MentionedOnce(ts, src, hosts, k);
        MentionedOnce(ts, src, hosts', k');
      } else {
        forall i | 0 <= i < |hosts'|
          ensures ToPrefix(hosts'[i]) != p
        {
          assert hosts'[i] in hosts;
        }
        UnmentionedStays(ts, src, hosts, p);
        UnmentionedStays(ts, src, hosts', p);
      }
    }
    SameMaps(a.table, b.table);
    SameMaps(a.triggered, b.triggered);
  }

  lemma SameMaps(m: RoutingTable, m': RoutingTable)
    requires forall p: Prefix :: SameAt(m, m', p)
    ensures m == m'
  {
    forall p: Prefix
      ensures p in m <==> p in m'
      ensures p in m ==> m[p] == m'[p]
    {
      assert SameAt(m, m', p);
    }
  }

  // ---------------------------------------------------------------------------------------------------
  // Advertisements
  // ---------------------------------------------------------------------------------------------------

  /** Split horizon with poisoned reverse. */
  function AdvertisedCost(hop: Hop, dst: Addr): uint32 {
    if hop.addr == dst then INFINITY else hop.cost
  }

  /** The entries of an advertisement of `table` to `dst`, in any order. */
  predicate IsAdvertisement(table: RoutingTable, dst: Addr, hosts: seq<Route>) {
    && Distinct(hosts) && |hosts| == |table|
    && (forall p :: p in table ==> ToRoute(p, AdvertisedCost(table[p], dst)) in hosts)
    && (forall r :: r in hosts ==>
          ToPrefix(r) in table && r == ToRoute(ToPrefix(r), AdvertisedCost(table[ToPrefix(r)], dst)))
  }

  function Rebuilt(hosts: seq<Route>): map<Prefix, uint32> {
    if hosts == [] then map[]
    else Rebuilt(hosts[..|hosts| - 1])[ToPrefix(hosts[|hosts| - 1]) := hosts[|hosts| - 1].cost]
  }

  lemma {:induction false} RebuiltAt(hosts: seq<Route>, p: Prefix)
    requires Distinct(hosts)
    ensures p in Rebuilt(hosts) <==> exists i :: 0 <= i < |hosts| && ToPrefix(hosts[i]) == p
    ensures forall i :: 0 <= i < |hosts| && ToPrefix(hosts[i]) == p ==>
              p in Rebuilt(hosts) && Rebuilt(hosts)[p] == hosts[i].cost
  {
    if hosts != [] {
      var n := |hosts| - 1;
      var init := hosts[..n];
      RebuiltAt(init, p);
      if i :| 0 <= i < |hosts| && ToPrefix(hosts[i]) == p {
        if i < n { assert ToPrefix(init[i]) == p; }
      }
      assert forall i :: 0 <= i < n ==> init[i] == hosts[i];
    }
  }

  /**
   What the addressee of an advertisement makes of the bytes on the wire is the table, with 16 exactly where
   the next hop is the addressee itself.
   */
  lemma AdvertisementRoundTrip(table: RoutingTable, dst: Addr, hosts: seq<Route>, rest: seq<byte>, h: RipHeader)
    requires IsAdvertisement(table, dst, hosts) && |table| <= MAX_ENTRIES
    requires var bytes := Encoding(RipHeader(RESPONSE, |hosts|, hosts)); Parses(Slice(bytes + rest, |bytes|), h)
    requires forall p :: p in table ==> table[p].cost < INFINITY
    ensures Consistent(RipHeader(RESPONSE, |hosts|, hosts)) && h == RipHeader(RESPONSE, |hosts|, hosts)
    ensures Rebuilt(h.hosts).Keys == table.Keys
    ensures forall p :: p in table ==>
              Rebuilt(h.hosts)[p] == AdvertisedCost(table[p], dst)
              && (Rebuilt(h.hosts)[p] == 16 <==> table[p].addr == dst)
  {
    EncodingIsInjective(Encoding(RipHeader(RESPONSE, |hosts|, hosts)) + rest, h, RipHeader(RESPONSE, |hosts|, hosts));
    RebuiltIsAdvertised(table, dst, hosts);
  }

  lemma RebuiltIsAdvertised(table: RoutingTable, dst: Addr, hosts: seq<Route>)
    requires IsAdvertisement(table, dst, hosts)
    ensures Rebuilt(hosts).Keys == table.Keys
    ensures forall p :: p in table ==> Rebuilt(hosts)[p] == AdvertisedCost(table[p], dst)
  {
    forall p: Prefix
      ensures p in Rebuilt(hosts) <==> p in table
      ensures p in table ==> Rebuilt(hosts)[p] == AdvertisedCost(table[p], dst)
    {
      RebuiltAt(hosts, p);
      if p in table {
        var r := ToRoute(p, AdvertisedCost(table[p], dst));
        PrefixRoundTrip(p, AdvertisedCost(table[p], dst));
        var i :| 0 <= i < |hosts| && hosts[i] == r;
        assert ToPrefix(hosts[i]) == p;
      } else {
        assert forall i :: 0 <= i < |hosts| ==> hosts[i] in hosts;
      }
    }
  }

  // ---------------------------------------------------------------------------------------------------
  // Neighbours
  // ---------------------------------------------------------------------------------------------------

  /** `addNeighboursIfStale`. */
  function WithNeighbor(neighbors: seq<Addr>, src: Addr): seq<Addr> {
    if src in neighbors then neighbors else neighbors + [src]
  }

  /** `remove`: the last element moves into the hole. */
  function Remove(s: seq<Addr>, i: nat): (r: seq<Addr>)
    requires i < |s|
    ensures multiset(r) == multiset(s) - multiset{s[i]}
  {
    var n := |s| - 1;
    assert s == s[..n] + [s[n]];
    if i < n then
      assert s[..n] == s[..i] + [s[i]] + s[i + 1..n];
      assert s[i := s[n]][..n] == s[..i] + [s[n]] + s[i + 1..n];
      s[i := s[n]][..n]
    else
      assert s[i := s[n]][..n] == s[..n];
      s[i := s[n]][..n]
  }

  function Purged(table: RoutingTable, ip: Addr): RoutingTable {
    map p | p in table && table[p].addr != ip :: table[p]
  }

  /** What the other neighbours are told when `ip` times out. */
  function Farewell(table: RoutingTable, ip: Addr): RoutingTable {
    map p | p in table :: if table[p].addr == ip then Hop(ip, INFINITY) else table[p]
  }

  /**
   What another neighbour makes of the announcement after `ip` has timed out: 16 exactly for what went via `ip`, or
   via that neighbour itself, and the old cost for the rest.
   */
  lemma FarewellTells(table: RoutingTable, ip: Addr, dst: Addr, hosts: seq<Route>)
    requires IsAdvertisement(Farewell(table, ip), dst, hosts) && forall p :: p in table ==> table[p].cost < 16
    ensures Rebuilt(hosts).Keys == table.Keys
    ensures forall p :: p in table ==>
              Rebuilt(hosts)[p] == if table[p].addr == ip || table[p].addr == dst then 16 else table[p].cost
  {
    RebuiltIsAdvertised(Farewell(table, ip), dst, hosts);
  }

  // ---------------------------------------------------------------------------------------------------
  // The device
  // ---------------------------------------------------------------------------------------------------

  /** What the link, a UDP socket, can carry; sending more is an error, and the packet is lost. */
  const MAX_DATAGRAM: nat := 65507
  const IP_HEADER: nat := 20

  /** A packet handed to the IP layer. */
  datatype Sending = Sending(router: Addr, header: RipHeader)

  /** What `SendRip` hands over: nothing for an empty table or one that does not fit into a packet. */
  predicate Announces(out: seq<Sending>, router: Addr, table: RoutingTable) {
    if 0 < |table| <= MAX_ENTRIES then
      |out| == 1 && out[0].router == router
      && out[0].header == RipHeader(RESPONSE, |table|, out[0].header.hosts)
      && IsAdvertisement(table, router, out[0].header.hosts)
    else out == []
  }

  predicate AnnouncesToAll(out: seq<Sending>, routers: seq<Addr>, table: RoutingTable) {
    if 0 < |table| <= MAX_ENTRIES then
      |out| == |routers| && forall k :: 0 <= k < |routers| ==> Announces([out[k]], routers[k], table)
    else out == []
  }

  /** Every neighbour is told what the table says about p now; 16 if nothing, or if the route goes via itself. */
  predicate ChangeTold(out: seq<Sending>, routers: seq<Addr>, table: RoutingTable, p: Prefix) {
    && |out| == |routers|
    && forall j :: 0 <= j < |out| ==>
         && out[j].router == routers[j]
         && var cost := if p in table && table[p].addr != routers[j] then table[p].cost else 16;
            ToRoute(p, cost) in out[j].header.hosts
  }

  lemma EntryTold(table: RoutingTable, src: Addr, hosts: seq<Route>, out: seq<Sending>, routers: seq<Addr>, k: nat)
    requires MentionsOnce(hosts, k)
    requires var ts := UpdateAll(Tables(table, map[]), src, hosts);
             AnnouncesToAll(out, routers, ts.triggered) && |ts.triggered| <= MAX_ENTRIES
    ensures var ts, p := UpdateAll(Tables(table, map[]), src, hosts), ToPrefix(hosts[k]);
            && RouteAfter(table, ts.table, src, p, hosts[k].cost)
            && (!SameAt(table, ts.table, p) ==> ChangeTold(out, routers, ts.table, p))
  {
    hide ToPrefix, ToRoute, UpdateAll, Distinct;
    RouteFollowsResponse(table, src, hosts, k);
    var ts, p := UpdateAll(Tables(table, map[]), src, hosts), ToPrefix(hosts[k]);
    if !SameAt(table, ts.table, p) {
      assert p in ts.triggered && |ts.triggered| > 0;
      forall j | 0 <= j < |out|
        ensures out[j].router == routers[j]
        ensures ToRoute(p, if p in ts.table && ts.table[p].addr != routers[j] then ts.table[p].cost else 16)
                in out[j].header.hosts
      {
        assert Announces([out[j]], routers[j], ts.triggered);
      }
    }
  }

  lemma AllEntriesTold(table: RoutingTable, src: Addr, hosts: seq<Route>, out: seq<Sending>, routers: seq<Addr>)
    requires var ts := UpdateAll(Tables(table, map[]), src, hosts);
             AnnouncesToAll(out, routers, ts.triggered) && |ts.triggered| <= MAX_ENTRIES
    ensures var ts := UpdateAll(Tables(table, map[]), src, hosts);
            forall k: nat :: MentionsOnce(hosts, k) ==>
              var p := ToPrefix(hosts[k]);
              && RouteAfter(table, ts.table, src, p, hosts[k].cost)
              && (!SameAt(table, ts.table, p) ==> ChangeTold(out, routers, ts.table, p))
  {
    hide UpdateAll, RouteAfter, SameAt, ChangeTold, AnnouncesToAll, ToPrefix;
    forall k: nat | MentionsOnce(hosts, k)
      ensures var ts, p := UpdateAll(Tables(table, map[]), src, hosts), ToPrefix(hosts[k]);
              && RouteAfter(table, ts.table, src, p, hosts[k].cost)
              && (!SameAt(table, ts.table, p) ==> ChangeTold(out, routers, ts.table, p))
    {
      EntryTold(table, src, hosts, out, routers, k);
    }
  }

  lemma ParsesIsConsistent(b: Slice, h: RipHeader)
    requires Parses(b, h)
    ensures Consistent(h) && !Panics(b)
  {
    HeaderDetermined(b.cells, h);
  }

  /** The empty response that claims one entry installs a default route at cost 1. */
  lemma EmptyResponseAddsDefaultRoute(ts: Tables, src: Addr, h: RipHeader)
    requires Parses(Received([0, 2, 0, 1]), h) && Prefix(0, 0) !in ts.table
    ensures h.command == RESPONSE
    ensures UpdateAll(ts, src, h.hosts).table == ts.table[Prefix(0, 0) := Hop(src, 1)]
  {
    var b := Received([0, 2, 0, 1]);
    EmptyResponseParses();
    EncodingIsInjective(b.cells, h, RipHeader(RESPONSE, 1, [Route(0, 0, 0)]));
    assert h.hosts[..0] == [];
    assert ToPrefix(Route(0, 0, 0)) == Prefix(0, 0);
  }

  lemma AdvertisementSize(table: RoutingTable, dst: Addr, hosts: seq<Route>)
    requires IsAdvertisement(table, dst, hosts)
    ensures |hosts| == |table|
  {
  }

  /** A count that wraps to at most 64 belongs to a packet that is far too long. */
  lemma FitsIff(n: nat)
    ensures n % 0x1_0000 <= MAX_ENTRIES && IP_HEADER + 4 + 12 * n <= MAX_DATAGRAM <==> n <= MAX_ENTRIES
    ensures n <= MAX_ENTRIES ==> n % 0x1_0000 == n
  {
  }

  class Device {
    var table: RoutingTable
    var ripNeighbors: seq<Addr>
    var sent: seq<Sending>

    /** The entry loop of `CreateRipPacket`; the order in which Go visits the map is arbitrary. */
    method CreateRipResponse(dst: Addr, routes: RoutingTable) returns (h: RipHeader)
      ensures h == RipHeader(RESPONSE, |routes| % 0x1_0000, h.hosts) && IsAdvertisement(routes, dst, h.hosts)
    {
      var hosts: seq<Route> := [];
      var remaining := routes.Keys;
      while remaining != {}
        invariant remaining <= routes.Keys && |hosts| + |remaining| == |routes|
        invariant Distinct(hosts)
        invariant forall p :: p in routes && p !in remaining ==> ToRoute(p, AdvertisedCost(routes[p], dst)) in hosts
        invariant forall r :: r in hosts ==> ToPrefix(r) in routes && ToPrefix(r) !in remaining
        invariant forall r :: r in hosts ==> r == ToRoute(ToPrefix(r), AdvertisedCost(routes[ToPrefix(r)], dst))
        decreases |remaining|
      {
        var prefix :| prefix in remaining;
        var hop := routes[prefix];
        var cost := hop.cost;
        if hop.addr == dst {
          cost := INFINITY;
        }
        var mask := Bits2Mask(prefix.bits);
        PrefixRoundTrip(prefix, cost);
        hosts := hosts + [Route(cost, prefix.address, mask)];
        remaining := remaining - {prefix};
      }
      h := RipHeader(RESPONSE, |hosts| % 0x1_0000, hosts);
    }

    method SendRip(router: Addr, routes: RoutingTable)
      modifies `sent
      ensures old(sent) <= sent && Announces(sent[|old(sent)|..], router, routes)
    {
      hide IsAdvertisement, Encoding;
      if |routes| == 0 {
        return;
      }
      var h := CreateRipResponse(router, routes);
      AdvertisementSize(routes, router, h.hosts);
      FitsIff(|routes|);
      var bytes := Marshal(h);
      if bytes.Ok? && IP_HEADER + |bytes.value| <= MAX_DATAGRAM {
        sent := sent + [Sending(router, h)];
      }
    }

    method SendToAll(routes: RoutingTable)
      modifies `sent
      ensures old(sent) <= sent && AnnouncesToAll(sent[|old(sent)|..], ripNeighbors, routes)
    {
      ghost var n := |sent|;
      for i := 0 to |ripNeighbors|
        invariant n <= |sent| && old(sent) == sent[..n]
        invariant AnnouncesToAll(sent[n..], ripNeighbors[..i], routes)
      {
        ghost var before := sent;
        SendRip(ripNeighbors[i], routes);
        assert sent[n..] == before[n..] + sent[|before|..];
      }
      assert ripNeighbors[..|ripNeighbors|] == ripNeighbors;
    }

    /** The entry loop of `RipHandler`. */
    method ProcessResponse(src: Addr, hosts: seq<Route>) returns (triggered: RoutingTable)
      modifies `table
      ensures Tables(table, triggered) == UpdateAll(Tables(old(table), map[]), src, hosts)
      ensures |triggered| <= |hosts|
    {
      hide UpdateEntry;
      triggered := map[];
      for i := 0 to |hosts|
        invariant Tables(table, triggered) == UpdateAll(Tables(old(table), map[]), src, hosts[..i])
        invariant |triggered| <= i
      {
        assert hosts[..i + 1][..i] == hosts[..i];
        triggered := ProcessEntry(src, hosts[i], triggered);
      }
      assert hosts[..|hosts|] == hosts;
    }

    method ProcessEntry(src: Addr, host: Route, before: RoutingTable) returns (triggered: RoutingTable)
      modifies `table
      ensures Tables(table, triggered) == UpdateEntry(Tables(old(table), before), src, host)
      ensures |triggered| <= |before| + 1
    {
      hide ToPrefix;
      triggered := before;
      var prefix := ToPrefix(host);
      var cost := host.cost;
      if cost > INFINITY {
        cost := INFINITY;
      } else if cost < INFINITY {
        cost := cost + 1;
      }
      if prefix !in table {
        if cost < INFINITY {
          table := table[prefix := Hop(src, cost)];
          triggered := triggered[prefix := Hop(src, cost)];
        }
      } else {
        var currHop := table[prefix];
        if cost < INFINITY {
          if cost < currHop.cost {
            table := table[prefix := Hop(src, cost)];
            triggered := triggered[prefix := Hop(src, cost)];
          } else if cost > currHop.cost && currHop.addr == src {
            table := table[prefix := Hop(src, cost)];
            triggered := triggered[prefix := Hop(src, cost)];
          }
        } else {
          if currHop.cost > 0 && currHop.addr == src {
            table := table - {prefix};
            triggered := triggered[prefix := Hop(src, cost)];
          }
        }
      }
    }

    /**
     `RipHandler` on a packet from `src`: it panics exactly when the parser does; what parses to nothing changes
     nothing; a response updates the table and announces what changed to every neighbour; a request is answered
     with the whole table.
     */
    method RipHandler(src: Addr, data: Slice) returns (panicked: bool)
      requires ValidSlice(data)
      modifies this
      ensures panicked <==> Panics(data)
      ensures old(sent) <= sent
      ensures (forall h: RipHeader :: !Parses(data, h)) ==>
                table == old(table) && ripNeighbors == old(ripNeighbors) && sent == old(sent)
      ensures forall h: RipHeader :: Parses(data, h) ==>
                var out := sent[|old(sent)|..];
                && !panicked && ripNeighbors == WithNeighbor(old(ripNeighbors), src)
                && if h.command == RESPONSE then
                     var ts := UpdateAll(Tables(old(table), map[]), src, h.hosts);
                     table == ts.table && AnnouncesToAll(out, ripNeighbors, ts.triggered)
                   else
                     table == old(table) && Announces(out, src, table)
      ensures forall h: RipHeader, k: nat ::
                Parses(data, h) && h.command == RESPONSE && MentionsOnce(h.hosts, k) ==>
                  var p := ToPrefix(h.hosts[k]);
                  && RouteAfter(old(table), table, src, p, h.hosts[k].cost)
                  && (!SameAt(old(table), table, p) ==> ChangeTold(sent[|old(sent)|..], ripNeighbors, table, p))
    {
      hide Panics, Parses, MentionsOnce, RouteAfter, ChangeTold, SameAt, AnnouncesToAll, Announces, ToPrefix, UpdateAll;
      var parsed := Parse(data);
      if !parsed.Ok? {
        return parsed == Panic;
      }
      panicked := false;
      var h := parsed.value;
      ParsesIsConsistent(data, h);
      AddNeighbourIfStale(src);
      if h.command == RESPONSE {
        ghost var before := table;
        ghost var n := |sent|;
        var triggered := ProcessResponse(src, h.hosts);
        SendToAll(triggered);
        AllEntriesTold(before, src, h.hosts, sent[n..], ripNeighbors);
      } else if h.command == REQUEST {
        SendRip(src, table);
      }
    }

    method AddNeighbourIfStale(src: Addr)
      modifies `ripNeighbors
      ensures ripNeighbors == WithNeighbor(old(ripNeighbors), src)
    {
      var found := false;
      for i := 0 to |ripNeighbors|
        invariant !found && src !in ripNeighbors[..i]
      {
        if ripNeighbors[i] == src {
          found := true;
          break;
        }
      }
      if !found {
        ripNeighbors := ripNeighbors + [src];
      }
    }

    /** Everything learned from `ip` is collected, to be announced as unreachable and deleted. */
    method CollectRoutes(ip: Addr) returns (farewell: RoutingTable, toDelete: seq<Prefix>)
      ensures farewell == Farewell(table, ip)
      ensures forall p :: p in toDelete <==> p in table && table[p].addr == ip
    {
      farewell, toDelete := map[], [];
      var remaining := table.Keys;
      while remaining != {}
        invariant remaining <= table.Keys && farewell.Keys == table.Keys - remaining
        invariant forall p :: p in farewell ==> farewell[p] == Farewell(table, ip)[p]
        invariant forall p :: p in toDelete <==> p in farewell && table[p].addr == ip
        decreases |remaining|
      {
        var prefix :| prefix in remaining;
        var hop := table[prefix];
        if hop.addr == ip {
          toDelete := toDelete + [prefix];
          farewell := farewell[prefix := Hop(hop.addr, INFINITY)];
        } else {
          farewell := farewell[prefix := Hop(hop.addr, hop.cost)];
        }
        remaining := remaining - {prefix};
      }
    }

    method DeleteRoutes(toDelete: seq<Prefix>)
      modifies `table
      ensures table == map p | p in old(table) && p !in toDelete :: old(table)[p]
    {
      for i := 0 to |toDelete|
        invariant forall p :: p in table <==> p in old(table) && p !in toDelete[..i]
        invariant forall p :: p in table ==> table[p] == old(table)[p]
      {
        assert toDelete[..i + 1] == toDelete[..i] + [toDelete[i]];
        table := table - {toDelete[i]};
      }
      assert toDelete[..|toDelete|] == toDelete;
    }

    method PurgeRoutes(ip: Addr) returns (farewell: RoutingTable)
      modifies `table
      ensures table == Purged(old(table), ip)
      ensures farewell == Farewell(old(table), ip) && |farewell| == |old(table)|
    {
      var toDelete;
      farewell, toDelete := CollectRoutes(ip);
      assert farewell.Keys == table.Keys;
      assert |farewell| == |farewell.Keys| == |table.Keys|;
      DeleteRoutes(toDelete);
    }

    /** A neighbour has been silent for twelve seconds. */
    method Timeout(ip: Addr)
      modifies this
      ensures old(sent) <= sent
      ensures ip !in old(ripNeighbors) ==> table == old(table) && ripNeighbors == old(ripNeighbors) && sent == old(sent)
      ensures ip in old(ripNeighbors) ==>
                && (forall p :: p in table <==> p in old(table) && old(table)[p].addr != ip)
                && (forall p :: p in table ==> table[p] == old(table)[p])
                && multiset(ripNeighbors) == multiset(old(ripNeighbors)) - multiset{ip}
                && AnnouncesToAll(sent[|old(sent)|..], ripNeighbors, Farewell(old(table), ip))
    {
      var index, found := 0, false;
      for i := 0 to |ripNeighbors|
        invariant !found && forall k :: 0 <= k < i ==> ripNeighbors[k] != ip
      {
        if ripNeighbors[i] == ip {
          index, found := i, true;
          break;
        }
      }
      if found {
        ripNeighbors := Remove(ripNeighbors, index);
        var farewell := PurgeRoutes(ip);
        SendToAll(farewell);
      }
    }
  }
}
