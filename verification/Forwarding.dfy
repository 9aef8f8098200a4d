/** Longest-prefix match, the choice of the next hop, and where packets end up once the tables have converged. */
module Forwarding {
  import opened Words
  import opened RipWire
  import opened RipRouter
  import opened RipNetwork
  import opened RipConvergence

  // ---------------------------------------------------------------------------------------------------
  // Prefixes
  // ---------------------------------------------------------------------------------------------------

  function BlockSize(p: Prefix): (size: nat)
    ensures size >= 1
  {
    OnesOfAllOnes(32 - p.bits);
    Pow2(32 - p.bits)
  }

  lemma LowBits(x: nat, size: nat)
    requires size >= 1
    ensures x % size <= x && (x - x % size) / size == x / size && (x - x % size) % size == 0
  {
    var q := x / size;
    assert x - x % size == q * size;
    MultipleOf(q, size);
  }

  lemma MultipleOf(q: nat, size: nat)
    requires size >= 1
    ensures (q * size) / size == q && (q * size) % size == 0
  {
    var x := q * size;
    var d, m := x / size, x % size;
    assert x == d * size + m;
    assert (q - d) * size == m;
    if q - d >= 1 {
      Times(q - d, size);
    } else if d - q >= 1 {
      Times(d - q, size);
    }
  }

  lemma Times(n: nat, size: nat)
    requires n >= 1
    ensures n * size >= size
  {
  }

  lemma SameQuotient(x: nat, y: nat, size: nat)
    requires size >= 1 && x % size == 0 && y % size == 0 && x / size == y / size
    ensures x == y
  {
    assert x == x / size * size && y == y / size * size;
  }

  predicate Contains(p: Prefix, ip: Addr) {
    ip / BlockSize(p) == p.address / BlockSize(p)
  }

  function Masked(p: Prefix): Prefix {
    LowBits(p.address, BlockSize(p));
    p.(address := p.address - p.address % BlockSize(p))
  }

  /** A prefix contains the block of addresses from its masked address on; its mask complements the size. */
  lemma ContainsIsRange(p: Prefix, ip: Addr)
    ensures Contains(p, ip) <==> Masked(p).address <= ip < Masked(p).address + BlockSize(p)
    ensures BlockSize(p) == TWO32 - Bits2Mask(p.bits)
  {
    MaskIsLeadingOnes(p.bits);
    var size := BlockSize(p);
    hide Pow2, Bits2Mask;
    InBlockIff(ip, p.address, size);
  }

  lemma InBlockIff(x: nat, y: nat, size: nat)
    requires size >= 1
    ensures x / size == y / size <==> y - y % size <= x < y - y % size + size
  {
    var q := y / size;
    assert y == q * size + y % size && x == (x / size) * size + x % size;
    if x / size > q {
      Scaled(q + 1, x / size, size);
    } else if x / size < q {
      Scaled(x / size + 1, q, size);
    }
  }

  lemma Scaled(a: nat, b: nat, size: nat)
    requires a <= b
    ensures a * size <= b * size
  {
  }

  predicate IsMasked(p: Prefix) {
    Masked(p) == p
  }

  predicate IsLongestMatch(table: RoutingTable, ip: Addr, p: Prefix) {
    && p in table && Contains(p, ip)
    && forall q :: q in table && Contains(q, ip) ==> q.bits <= p.bits
  }

  /** Two longest matches are the same prefix once masked, so the order in which Go visits the map cannot matter. */
  lemma LongestMatchIsUnique(table: RoutingTable, ip: Addr, p: Prefix, q: Prefix)
    requires IsLongestMatch(table, ip, p) && IsLongestMatch(table, ip, q)
    ensures Masked(p) == Masked(q)
  {
    hide Pow2;
    var size := BlockSize(p);
    assert BlockSize(q) == size;
    LowBits(p.address, size);
    LowBits(q.address, size);
    SameQuotient(Masked(p).address, Masked(q).address, size);
  }

  // ---------------------------------------------------------------------------------------------------
  // Lookup
  // ---------------------------------------------------------------------------------------------------

  datatype Neighbour = Neighbour(interfaceName: string, ip: Addr, udpPort: nat)

  datatype Lookup = NoRoute | NoInterface | Via(udpPort: nat, interfaceName: string)

  /** The first neighbour with address `a` decides: its port and interface, or none if it has no interface name. */
  ghost predicate IsFirst(neighbours: seq<Neighbour>, a: Addr, r: Lookup) {
    if forall n :: n in neighbours ==> n.ip != a then
      r == NoInterface
    else
      exists i :: 0 <= i < |neighbours| && neighbours[i].ip == a && (forall j :: 0 <= j < i ==> neighbours[j].ip != a)
        && r == if neighbours[i].interfaceName == "" then NoInterface
                else Via(neighbours[i].udpPort, neighbours[i].interfaceName)
  }

  /**
   What looking an address up comes to, for any table: without a match there is no route; an entry with a cost, or
   for everything, leads to its hop; an entry of cost 0 to the destination itself. (A longest match that is not
   masked misses the table, and Go finds a hop of cost 0 without an address.)
   */
  ghost predicate IsLookup(table: RoutingTable, neighbours: seq<Neighbour>, dst: Addr, r: Lookup) {
    && (r == NoRoute <==> forall p :: p in table ==> !Contains(p, dst))
    && (forall p :: IsLongestMatch(table, dst, p) && Masked(p) in table ==>
          var hop := table[Masked(p)];
          IsFirst(neighbours, if p.bits == 0 || hop.cost > 0 then hop.addr else dst, r))
    && (forall p :: IsLongestMatch(table, dst, p) && Masked(p) !in table ==>
          if p.bits == 0 then r == NoInterface else IsFirst(neighbours, dst, r))
  }

  /** `getDstPrefix`, with the keys visited in an arbitrary order. */
  method GetDstPrefix(table: RoutingTable, dst: Addr) returns (prefix: Prefix, found: bool)
    ensures found <==> exists p :: p in table && Contains(p, dst)
    ensures found ==> exists p :: IsLongestMatch(table, dst, p)
    ensures forall p :: IsLongestMatch(table, dst, p) ==> prefix == Masked(p)
  {
    hide Contains, Masked, BlockSize;
    var prefixSize := 0;
    prefix := Prefix(0, 0);
    found := false;
    ghost var best: Prefix := prefix;
    var remaining := table.Keys;
    while remaining != {}
      invariant remaining <= table.Keys
      invariant !found ==> prefixSize == 0 && forall p :: p in table && p !in remaining ==> !Contains(p, dst)
      invariant found ==> best in table && Contains(best, dst) && prefix == Masked(best) && prefixSize == best.bits
      invariant found ==> forall p :: p in table && p !in remaining && Contains(p, dst) ==> p.bits <= best.bits
      decreases |remaining|
    {
      var pre :| pre in remaining;
      if Contains(pre, dst) && prefixSize <= pre.bits {
        prefix := Masked(pre);
        prefixSize := pre.bits;
        found := true;
        best := pre;
      }
      remaining := remaining - {pre};
    }
    if found {
      assert IsLongestMatch(table, dst, best);
      forall p | IsLongestMatch(table, dst, p)
        ensures prefix == Masked(p)
      {
        LongestMatchIsUnique(table, dst, p, best);
      }
    }
  }

  /** `findIp`. */
  method FindIp(table: RoutingTable, neighbours: seq<Neighbour>, dst: Addr) returns (r: Lookup)
    ensures IsLookup(table, neighbours, dst, r)
  {
    hide Contains, Masked, BlockSize, IsLongestMatch, IsLookup, IsFirst;
    var prefix, ok := GetDstPrefix(table, dst);
    if !ok {
      NoMatchIsNoRoute(table, neighbours, dst);
      return NoRoute;
    }
    var next := None;
    if prefix in table {
      var hop := table[prefix];
      next := if prefix.bits == 0 || hop.cost > 0 then Some(hop.addr) else Some(dst);
    } else if prefix.bits != 0 {
      next := Some(dst);
    }
    r := FindNeighbour(neighbours, next);
    FoundIsLookup(table, neighbours, dst, prefix, next, r);
  }

  lemma NoMatchIsNoRoute(table: RoutingTable, neighbours: seq<Neighbour>, dst: Addr)
    requires forall p :: p in table ==> !Contains(p, dst)
    ensures IsLookup(table, neighbours, dst, NoRoute)
  {
    hide Contains, Masked, IsFirst;
  }

  lemma FoundIsLookup(
    table: RoutingTable, neighbours: seq<Neighbour>, dst: Addr, prefix: Prefix, next: Option<Addr>, r: Lookup)
    requires exists p :: p in table && Contains(p, dst)
    requires forall p :: IsLongestMatch(table, dst, p) ==> prefix == Masked(p)
    requires prefix in table ==>
               next == if prefix.bits == 0 || table[prefix].cost > 0 then Some(table[prefix].addr) else Some(dst)
    requires prefix !in table ==> next == if prefix.bits == 0 then None else Some(dst)
    requires (next.Some? ==> IsFirst(neighbours, next.value, r)) && (next == None ==> r == NoInterface) && r != NoRoute
    ensures IsLookup(table, neighbours, dst, r)
  {
    hide Contains, Masked, IsFirst;
    forall p | IsLongestMatch(table, dst, p)
      ensures prefix == Masked(p) && prefix.bits == p.bits
    {
      MaskedBits(p);
    }
  }

  lemma MaskedBits(p: Prefix)
    ensures Masked(p).bits == p.bits
  {
  }

  /** The loop over the neighbours. */
  method FindNeighbour(neighbours: seq<Neighbour>, next: Option<Addr>) returns (r: Lookup)
    ensures next.Some? ==> IsFirst(neighbours, next.value, r)
    ensures next == None ==> r == NoInterface
    ensures r != NoRoute
  {
    r := NoInterface;
    var i := 0;
    while i < |neighbours|
      invariant i <= |neighbours| && r == NoInterface
      invariant forall j :: 0 <= j < i ==> Some(neighbours[j].ip) != next
    {
      if Some(neighbours[i].ip) == next {
        if neighbours[i].interfaceName != "" {
          r := Via(neighbours[i].udpPort, neighbours[i].interfaceName);
        }
        return;
      }
      i := i + 1;
    }
  }

  // ---------------------------------------------------------------------------------------------------
  // The routers and their wires
  // ---------------------------------------------------------------------------------------------------

  /** The configured neighbours of each router, and the address behind each UDP port. */
  datatype Wiring = Wiring(lists: map<RouterId, seq<Neighbour>>, ports: map<nat, Addr>)

  ghost predicate Knows(w: Wiring, r: RouterId, a: Addr) {
    r in w.lists && exists n :: n in w.lists[r] && n.ip == a
  }

  ghost predicate WellListed(net: Network, w: Wiring, r: RouterId, n: Neighbour) {
    && n.interfaceName != "" && n.udpPort in w.ports && w.ports[n.udpPort] == n.ip
    && (n.ip in net.owner ==> net.owner[n.ip] != r)
  }

  /** Every router has its link partners configured, behind the right ports. */
  ghost predicate Wired(net: Network, w: Wiring) {
    && (forall r :: r in net.local ==> r in w.lists && forall n :: n in w.lists[r] ==> WellListed(net, w, r, n))
    && forall l :: l in net.links && l.0 in net.owner ==> Knows(w, net.owner[l.0], l.1)
  }

  /** Prefixes are masked and disjoint, and every address lies in a prefix of its router. */
  ghost predicate WellAddressed(net: Network) {
    && (forall p :: p in AllPrefixes(net) ==> IsMasked(p))
    && (forall p, q, ip: Addr ::
          p in AllPrefixes(net) && q in AllPrefixes(net) && Contains(p, ip) && Contains(q, ip) ==> p == q)
    && forall a :: a in net.owner ==> exists p :: Attached(net, net.owner[a], p) && Contains(p, a)
  }

  ghost predicate Owns(net: Network, r: RouterId, a: Addr) {
    a in net.owner && net.owner[a] == r
  }

  /** Router r, at which the packet for dst is not at home, looks it up and sends it to a port of router s. */
  ghost predicate Forwards(
      net: Network, w: Wiring, routers: map<RouterId, RouterState>, r: RouterId, dst: Addr, s: RouterId) {
    && r in routers && r in w.lists && !Owns(net, r, dst)
    && exists lookup: Lookup ::
         && IsLookup(routers[r].table, w.lists[r], dst, lookup) && lookup.Via?
         && lookup.udpPort in w.ports && Owns(net, s, w.ports[lookup.udpPort])
  }

  ghost predicate IsRoute(
      net: Network, w: Wiring, routers: map<RouterId, RouterState>, dst: Addr, route: seq<RouterId>) {
    forall i :: 0 <= i < |route| - 1 ==> Forwards(net, w, routers, route[i], dst, route[i + 1])
  }

  /** The network that the forwarding theorems are about. */
  ghost predicate Settled(net: Network, w: Wiring, routers: map<RouterId, RouterState>) {
    WellFormed(net) && WellAddressed(net) && Wired(net, w) && Converged(net, routers)
  }

  // ---------------------------------------------------------------------------------------------------
  // What a lookup finds over converged tables
  // ---------------------------------------------------------------------------------------------------

  lemma FirstHasAddress(net: Network, w: Wiring, r: RouterId, neighbours: seq<Neighbour>, a: Addr, found: Lookup)
    requires IsFirst(neighbours, a, found)
    requires forall n :: n in neighbours ==> WellListed(net, w, r, n)
    ensures found.Via? ==> found.udpPort in w.ports && w.ports[found.udpPort] == a
    ensures found.Via? <==> exists n :: n in neighbours && n.ip == a
  {
    hide WellListed;
    if n :| n in neighbours && n.ip == a {
      var i :| 0 <= i < |neighbours| && neighbours[i].ip == a && (forall j :: 0 <= j < i ==> neighbours[j].ip != a)
        && found == if neighbours[i].interfaceName == "" then NoInterface
                    else Via(neighbours[i].udpPort, neighbours[i].interfaceName);
      assert neighbours[i] in neighbours;
      WellListedFacts(net, w, r, neighbours[i]);
    }
  }

  lemma WellListedFacts(net: Network, w: Wiring, r: RouterId, n: Neighbour)
    requires WellListed(net, w, r, n)
    ensures n.interfaceName != "" && n.udpPort in w.ports && w.ports[n.udpPort] == n.ip
    ensures n.ip in net.owner ==> net.owner[n.ip] != r
  {
  }

  /** A prefix that contains the address is the only one, and the longest match. */
  lemma OnlyMatch(net: Network, routers: map<RouterId, RouterState>, r: RouterId, dst: Addr, p: Prefix)
    requires Converged(net, routers) && WellAddressed(net) && r in routers
    requires p in routers[r].table && Contains(p, dst)
    ensures IsLongestMatch(routers[r].table, dst, p) && Masked(p) == p && p in AllPrefixes(net)
  {
    hide AllPrefixes, Contains, Adjacent, Within, BlockSize;
    forall q | q in routers[r].table
      ensures q in AllPrefixes(net)
    {
      assert EntryConverged(net, r, routers[r].table, q);
      WithinIsKnown(net, r, q, routers[r].table[q].cost);
    }
    forall q | q in routers[r].table && Contains(q, dst)
      ensures q == p
    {
    }
  }

  /** Whom `findIp` finds: the next hop of the entry while its cost is positive, and then the destination itself. */
  lemma LookupFollowsTable(
    net: Network, w: Wiring, routers: map<RouterId, RouterState>, r: RouterId, dst: Addr, p: Prefix, found: Lookup)
    requires Settled(net, w, routers) && r in routers && p in routers[r].table && Contains(p, dst)
    requires IsLookup(routers[r].table, w.lists[r], dst, found)
    ensures var hop := routers[r].table[p];
            if hop.cost > 0 then found.Via? && found.udpPort in w.ports && w.ports[found.udpPort] == hop.addr
            else if p.bits > 0 then (found.Via? <==> Knows(w, r, dst))
                                    && (found.Via? ==> found.udpPort in w.ports && w.ports[found.udpPort] == dst)
            else !found.Via?
  {
    hide WellFormed, WellAddressed, Contains, Masked, BlockSize, WellListed, Adjacent, AtDistance, IsLongestMatch;
    OnlyMatch(net, routers, r, dst, p);
    var hop := routers[r].table[p];
    var next := if p.bits == 0 || hop.cost > 0 then hop.addr else dst;
    assert IsFirst(w.lists[r], next, found);
    FirstHasAddress(net, w, r, w.lists[r], next, found);
    if hop.cost > 0 {
      NextHopIsKnown(net, w, routers, r, p);
    } else if p.bits == 0 {
      OwnAddressIsUnknown(net, w, routers, r, p);
    }
  }

  lemma NextHopIsKnown(net: Network, w: Wiring, routers: map<RouterId, RouterState>, r: RouterId, p: Prefix)
    requires WellFormed(net) && Wired(net, w) && Converged(net, routers) && r in routers && p in routers[r].table
    requires routers[r].table[p].cost > 0
    ensures Knows(w, r, routers[r].table[p].addr)
  {
    hide AtDistance, WellListed;
    assert EntryConverged(net, r, routers[r].table, p);
    var h := routers[r].table[p].addr;
    assert IsNeighbor(net, r, h);
    var l :| l in net.links && l.1 == h && l.0 in net.owner && net.owner[l.0] == r;
    assert Knows(w, net.owner[l.0], l.1);
  }

  lemma OwnAddressIsUnknown(net: Network, w: Wiring, routers: map<RouterId, RouterState>, r: RouterId, p: Prefix)
    requires WellFormed(net) && Wired(net, w) && Converged(net, routers) && r in routers && p in routers[r].table
    requires routers[r].table[p].cost == 0
    ensures !Knows(w, r, routers[r].table[p].addr)
  {
    hide AtDistance;
    assert EntryConverged(net, r, routers[r].table, p);
    CostZeroIsAttached(net, routers, r, p);
    assert routers[r].table[p] == Hop(net.local[r][p], 0);
    assert r in net.local && net.owner[net.local[r][p]] == r;
  }

  lemma CostZeroIsAttached(net: Network, routers: map<RouterId, RouterState>, r: RouterId, p: Prefix)
    requires Converged(net, routers) && r in routers && p in routers[r].table
    ensures routers[r].table[p].cost == 0 <==> Attached(net, r, p)
  {
    hide Adjacent, IsNeighbor;
    assert EntryConverged(net, r, routers[r].table, p);
    WithinZero(net, r, p);
  }

  // ---------------------------------------------------------------------------------------------------
  // Following findIp
  // ---------------------------------------------------------------------------------------------------

  /** The next hop is a router that is one hop closer. */
  lemma NextHopIsCloser(net: Network, routers: map<RouterId, RouterState>, r: RouterId, p: Prefix, s: RouterId)
    requires WellFormed(net) && Converged(net, routers) && r in routers && p in routers[r].table
    requires routers[r].table[p].cost > 0 && Owns(net, s, routers[r].table[p].addr)
    ensures s in routers && p in routers[s].table && routers[s].table[p].cost == routers[r].table[p].cost - 1
  {
    hide AtDistance, Adjacent, IsNeighbor, WellFormed;
    var cost := routers[r].table[p].cost;
    assert EntryConverged(net, r, routers[r].table, p);
    AdjacentRouters(net, r, s);
    ConvergedIsExact(net, routers, s, p, cost - 1);
  }

  lemma AdjacentRouters(net: Network, r: RouterId, s: RouterId)
    requires WellFormed(net) && Adjacent(net, r, s)
    ensures r != s && s in net.local
  {
  }

  /**
   One hop of a packet: while the cost is positive it goes to a router one hop closer, from an attached router
   to the destination itself.
   */
  lemma HopDecreasesCost(
    net: Network, w: Wiring, routers: map<RouterId, RouterState>, r: RouterId, dst: Addr, p: Prefix, s: RouterId)
    requires Settled(net, w, routers) && r in routers && p in routers[r].table && Contains(p, dst)
    requires Forwards(net, w, routers, r, dst, s)
    ensures if routers[r].table[p].cost == 0 then Owns(net, s, dst)
            else s in routers && p in routers[s].table && routers[s].table[p].cost == routers[r].table[p].cost - 1
  {
    hide WellFormed, WellAddressed, Wired, Converged, Contains, IsLookup;
    var found: Lookup :| IsLookup(routers[r].table, w.lists[r], dst, found) && found.Via?
      && found.udpPort in w.ports && Owns(net, s, w.ports[found.udpPort]);
    LookupFollowsTable(net, w, routers, r, dst, p, found);
    if routers[r].table[p].cost > 0 {
      NextHopIsCloser(net, routers, r, p, s);
    }
  }

  /** A router that has the address is attached to its prefix. */
  lemma OwnerIsAttached(net: Network, routers: map<RouterId, RouterState>, r: RouterId, dst: Addr, p: Prefix)
    requires WellAddressed(net) && Converged(net, routers) && r in routers && p in routers[r].table
    requires Contains(p, dst) && Owns(net, r, dst)
    ensures routers[r].table[p].cost == 0
  {
    hide Contains, IsMasked, AllPrefixes;
    OnlyMatch(net, routers, r, dst, p);
    var q :| Attached(net, r, q) && Contains(q, dst);
    WithinZero(net, r, q);
    WithinIsKnown(net, r, q, 0);
    assert q == p;
    CostZeroIsAttached(net, routers, r, p);
  }

  /** There is a lookup for any table. */
  lemma LookupExists(table: RoutingTable, neighbours: seq<Neighbour>, dst: Addr, p: Prefix) returns (r: Lookup)
    requires IsLongestMatch(table, dst, p)
    ensures IsLookup(table, neighbours, dst, r)
  {
    hide Contains, Masked, BlockSize;
    MaskedBits(p);
    if Masked(p) in table {
      var hop := table[Masked(p)];
      r := FirstExists(neighbours, if p.bits == 0 || hop.cost > 0 then hop.addr else dst);
    } else if p.bits == 0 {
      r := NoInterface;
    } else {
      r := FirstExists(neighbours, dst);
    }
    forall q | IsLongestMatch(table, dst, q)
      ensures Masked(q) == Masked(p) && q.bits == p.bits
    {
      LongestMatchIsUnique(table, dst, p, q);
    }
  }

  lemma FirstExists(neighbours: seq<Neighbour>, a: Addr) returns (r: Lookup)
    ensures IsFirst(neighbours, a, r) && r != NoRoute
  {
    var i := 0;
    while i < |neighbours| && neighbours[i].ip != a
      invariant i <= |neighbours| && forall j :: 0 <= j < i ==> neighbours[j].ip != a
    {
      i := i + 1;
    }
    if i == |neighbours| {
      r := NoInterface;
    } else {
      assert neighbours[i] in neighbours;
      r := if neighbours[i].interfaceName == "" then NoInterface
           else Via(neighbours[i].udpPort, neighbours[i].interfaceName);
    }
  }

  /** While the cost is positive there is a hop. */
  lemma HopExists(net: Network, w: Wiring, routers: map<RouterId, RouterState>, r: RouterId, dst: Addr, p: Prefix)
    returns (s: RouterId)
    requires Settled(net, w, routers) && r in routers && p in routers[r].table && Contains(p, dst)
    requires routers[r].table[p].cost > 0
    ensures Forwards(net, w, routers, r, dst, s)
  {
    hide WellFormed, WellAddressed, Contains, IsLookup, WellListed, AtDistance;
    OnlyMatch(net, routers, r, dst, p);
    var found := LookupExists(routers[r].table, w.lists[r], dst, p);
    LookupFollowsTable(net, w, routers, r, dst, p, found);
    if Owns(net, r, dst) {
      OwnerIsAttached(net, routers, r, dst, p);
    }
    assert EntryConverged(net, r, routers[r].table, p);
    s := net.owner[routers[r].table[p].addr];
  }

  /** From an attached router that has the destination among its neighbours, one hop reaches it. */
  lemma LastHop(net: Network, w: Wiring, routers: map<RouterId, RouterState>, r: RouterId, dst: Addr, p: Prefix)
    requires Settled(net, w, routers) && r in routers && p in routers[r].table && Contains(p, dst)
    requires routers[r].table[p].cost == 0 && p.bits > 0 && dst in net.owner && Knows(w, r, dst)
    ensures Forwards(net, w, routers, r, dst, net.owner[dst])
  {
    hide WellFormed, WellAddressed, Contains, IsLookup, Converged;
    OnlyMatch(net, routers, r, dst, p);
    var found := LookupExists(routers[r].table, w.lists[r], dst, p);
    LookupFollowsTable(net, w, routers, r, dst, p, found);
    SettledLists(net, w, routers, r);
  }

  lemma SettledLists(net: Network, w: Wiring, routers: map<RouterId, RouterState>, r: RouterId)
    requires Settled(net, w, routers) && r in routers
    ensures forall n :: n in w.lists[r] && n.ip in net.owner ==> !Owns(net, r, n.ip)
  {
    hide WellFormed, WellAddressed;
    forall n | n in w.lists[r] && n.ip in net.owner
      ensures !Owns(net, r, n.ip)
    {
      assert WellListed(net, w, r, n);
    }
  }

  /** No loops: a packet takes at most as many hops as the first router's cost, and one more to the destination. */
  lemma {:induction false} RoutesAreShort(
    net: Network, w: Wiring, routers: map<RouterId, RouterState>, dst: Addr, p: Prefix, route: seq<RouterId>)
    requires Settled(net, w, routers) && route != [] && IsRoute(net, w, routers, dst, route)
    requires route[0] in routers && p in routers[route[0]].table && Contains(p, dst)
    ensures var cost := routers[route[0]].table[p].cost;
            && |route| - 1 <= cost + 1
            && (|route| > cost ==> Attached(net, route[cost], p))
            && (|route| - 1 == cost + 1 ==> Owns(net, route[|route| - 1], dst))
    decreases |route|
  {
    hide Settled, Contains, Forwards;
    var cost := routers[route[0]].table[p].cost;
    SettledIsConverged(net, w, routers);
    CostZeroIsAttached(net, routers, route[0], p);
    if |route| > 1 {
      assert Forwards(net, w, routers, route[0], dst, route[1]);
      HopDecreasesCost(net, w, routers, route[0], dst, p, route[1]);
      var rest := route[1..];
      forall i | 0 <= i < |rest| - 1
        ensures Forwards(net, w, routers, rest[i], dst, rest[i + 1])
      {
        var j := i + 1;
        assert Forwards(net, w, routers, route[j], dst, route[j + 1]);
      }
      if cost > 0 {
        RoutesAreShort(net, w, routers, dst, p, rest);
      } else if |route| > 2 {
        assert Forwards(net, w, routers, rest[0], dst, rest[1]);
        OwnerDoesNotForward(net, w, routers, rest[0], dst, rest[1]);
        assert false;
      }
    }
  }

  lemma SettledIsConverged(net: Network, w: Wiring, routers: map<RouterId, RouterState>)
    requires Settled(net, w, routers)
    ensures Converged(net, routers)
  {
  }

  lemma OwnerDoesNotForward(
      net: Network, w: Wiring, routers: map<RouterId, RouterState>, r: RouterId, dst: Addr, s: RouterId)
    requires Forwards(net, w, routers, r, dst, s)
    ensures !Owns(net, r, dst)
  {
    hide IsLookup;
  }

  /**
   From every router that knows the prefix, following `findIp` reaches a router attached to it in exactly the
   table's cost in hops; and that router is the destination, or is one hop from it if it has it as a neighbour.
   */
  lemma {:induction false} ForwardingDelivers(
    net: Network, w: Wiring, routers: map<RouterId, RouterState>, r: RouterId, dst: Addr, p: Prefix)
    returns (route: seq<RouterId>)
    requires Settled(net, w, routers) && r in routers && p in routers[r].table && Contains(p, dst)
    ensures IsRoute(net, w, routers, dst, route) && |route| == routers[r].table[p].cost + 1
    ensures route[0] == r && Attached(net, route[|route| - 1], p)
    ensures var last := route[|route| - 1];
            p.bits > 0 && dst in net.owner && Knows(w, last, dst) ==>
              Forwards(net, w, routers, last, dst, net.owner[dst])
    decreases routers[r].table[p].cost
  {
    hide Settled, Contains, Forwards;
    if routers[r].table[p].cost == 0 {
      SettledIsConverged(net, w, routers);
      CostZeroIsAttached(net, routers, r, p);
      route := [r];
      if p.bits > 0 && dst in net.owner && Knows(w, r, dst) {
        LastHop(net, w, routers, r, dst, p);
      }
    } else {
      var s := HopExists(net, w, routers, r, dst, p);
      HopDecreasesCost(net, w, routers, r, dst, p, s);
      var rest := ForwardingDelivers(net, w, routers, s, dst, p);
      route := [r] + rest;
      forall i | 0 <= i < |route| - 1
        ensures Forwards(net, w, routers, route[i], dst, route[i + 1])
      {
        if i > 0 {
          var j := i - 1;
          assert Forwards(net, w, routers, rest[j], dst, rest[j + 1]);
        }
      }
    }
  }

  // ---------------------------------------------------------------------------------------------------
  // Hosts
  // ---------------------------------------------------------------------------------------------------

  const EVERYTHING: Prefix := Prefix(0, 0)

  /** A host: prefixes of its own, and a static default route, which is installed at cost 0. */
  datatype Host = Host(table: RoutingTable, own: set<Prefix>, gateway: Addr, neighbours: seq<Neighbour>)

  ghost predicate WellConfigured(host: Host) {
    && EVERYTHING !in host.own && host.table.Keys == host.own + {EVERYTHING}
    && (forall p :: p in host.own ==> IsMasked(p) && host.table[p].cost == 0)
    && host.table[EVERYTHING] == Hop(host.gateway, 0)
  }

  lemma OnlyOneForEverything(p: Prefix)
    requires IsMasked(p) && p.bits == 0
    ensures p == EVERYTHING
  {
    Pow2Of32();
    assert BlockSize(p) == TWO32;
  }

  lemma EverythingContainsAll(ip: Addr)
    ensures Contains(EVERYTHING, ip) && Masked(EVERYTHING) == EVERYTHING
  {
    Pow2Of32();
    assert BlockSize(EVERYTHING) == TWO32;
  }

  lemma {:induction false} LongestExists(table: RoutingTable, ip: Addr, keys: set<Prefix>) returns (p: Prefix)
    requires keys <= table.Keys && exists q :: q in keys && Contains(q, ip)
    ensures p in keys && Contains(p, ip) && forall q :: q in keys && Contains(q, ip) ==> q.bits <= p.bits
    decreases |keys|
  {
    hide Contains;
    p :| p in keys && Contains(p, ip);
    var rest := set q | q in keys && q.bits > p.bits;
    assert p !in rest && rest < keys;
    Smaller(rest, keys);
    if exists q :: q in rest && Contains(q, ip) {
      p := LongestExists(table, ip, rest);
    }
  }

  lemma Smaller(a: set<Prefix>, b: set<Prefix>)
    requires a < b
    ensures |a| < |b|
  {
    var x :| x in b && x !in a;
    SubsetIsSmaller(a, b - {x});
  }

  /** A host sends to the destination itself within its own prefixes, and to its gateway for everything else. */
  lemma HostLookup(host: Host, dst: Addr, found: Lookup)
    requires WellConfigured(host) && IsLookup(host.table, host.neighbours, dst, found)
    ensures if exists p :: p in host.own && Contains(p, dst) then IsFirst(host.neighbours, dst, found)
            else IsFirst(host.neighbours, host.gateway, found)
  {
    hide Contains, Masked, BlockSize, IsFirst;
    EverythingContainsAll(dst);
    var p := LongestExists(host.table, dst, host.table.Keys);
    assert IsLongestMatch(host.table, dst, p);
    if q :| q in host.own && Contains(q, dst) {
      if q.bits == 0 {
        OnlyOneForEverything(q);
      }
      assert p.bits > 0 && p in host.own;
    } else {
      assert p == EVERYTHING;
    }
  }

  ghost predicate HostWired(net: Network, w: Wiring, host: Host) {
    && (forall n :: n in host.neighbours ==>
          n.interfaceName != "" && n.udpPort in w.ports && w.ports[n.udpPort] == n.ip)
    && (exists n :: n in host.neighbours && n.ip == host.gateway) && host.gateway in net.owner
  }

  lemma HostFirstHasAddress(net: Network, w: Wiring, host: Host, found: Lookup)
    requires HostWired(net, w, host) && IsFirst(host.neighbours, host.gateway, found)
    ensures found.Via? && found.udpPort in w.ports && w.ports[found.udpPort] == host.gateway
  {
    var i :| 0 <= i < |host.neighbours| && host.neighbours[i].ip == host.gateway
      && found == if host.neighbours[i].interfaceName == "" then NoInterface
                  else Via(host.neighbours[i].udpPort, host.neighbours[i].interfaceName);
    assert host.neighbours[i] in host.neighbours;
  }

  /**
   From a host, a packet for an address outside its own prefixes goes to its gateway, and if the gateway knows the
   prefix, from there to a router attached to it in exactly the cost of the gateway's table.
   */
  lemma HostDelivers(
    net: Network, w: Wiring, routers: map<RouterId, RouterState>, host: Host, dst: Addr, p: Prefix)
    returns (found: Lookup, route: seq<RouterId>)
    requires Settled(net, w, routers) && WellConfigured(host) && HostWired(net, w, host)
    requires forall q :: q in host.own ==> !Contains(q, dst)
    requires var g := net.owner[host.gateway]; g in routers && p in routers[g].table && Contains(p, dst)
    ensures IsLookup(host.table, host.neighbours, dst, found)
    ensures found.Via? && found.udpPort in w.ports && w.ports[found.udpPort] == host.gateway
    ensures var g := net.owner[host.gateway];
            && IsRoute(net, w, routers, dst, route) && |route| == routers[g].table[p].cost + 1
            && route[0] == g && Attached(net, route[|route| - 1], p)
  {
    hide Settled, Contains, IsLookup, IsFirst, Masked, BlockSize, Forwards;
    EverythingContainsAll(dst);
    var q := LongestExists(host.table, dst, host.table.Keys);
    found := LookupExists(host.table, host.neighbours, dst, q);
    HostLookup(host, dst, found);
    HostFirstHasAddress(net, w, host, found);
    route := ForwardingDelivers(net, w, routers, net.owner[host.gateway], dst, p);
  }
}
