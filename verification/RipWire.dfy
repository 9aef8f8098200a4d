/** The wire format of the routing protocol: a header of four bytes and entries of twelve, big-endian. */
module RipWire {
  import opened Words

  const INFINITY: uint32 := 16
  const MAX_ENTRIES: nat := 64
  const REQUEST: uint16 := 1
  const RESPONSE: uint16 := 2

  datatype Route = Route(cost: uint32, address: uint32, mask: uint32)

  datatype RipHeader = RipHeader(command: uint16, numEntries: uint16, hosts: seq<Route>)

  datatype Error = InvalidCommand | EntriesTooLong | EntriesRequest | NilHeader | HeaderTooShort

  /** `Panic` is the run-time panic of a slice past the capacity of its buffer. */
  datatype Result<+T> = Ok(value: T) | Err(error: Error) | Panic

  /**
   A Go slice: all cells from its start to the end of its capacity, of which the first `len` are its contents.
   Slicing it again is bounded by the capacity, not by the length.
   */
  datatype Slice = Nil | Slice(cells: seq<byte>, len: nat)

  type Bits = b: int | 0 <= b <= 32

  datatype Prefix = Prefix(address: uint32, bits: Bits)

  // ---------------------------------------------------------------------------------------------------
  // Masks
  // ---------------------------------------------------------------------------------------------------

  /** The all-ones word shifted left: the bits shifted out are lost. */
  function Bits2Mask(bits: Bits): uint32 {
    ((TWO32 - 1) * Pow2(32 - bits)) % TWO32
  }

  function Ones(x: nat): nat {
    if x == 0 then 0 else x % 2 + Ones(x / 2)
  }

  function Mask2Bits(mask: uint32): (bits: Bits) {
    Pow2Of32();
    OnesAtMost(mask, 32);
    Ones(mask)
  }

  lemma {:induction false} OnesAtMost(x: nat, n: nat)
    requires x < Pow2(n)
    ensures Ones(x) <= n
  {
    if x != 0 {
      OnesAtMost(x / 2, n - 1);
    }
  }

  lemma OnesOfNext(y: nat)
    ensures Ones(2 * y) == Ones(y) && Ones(2 * y + 1) == Ones(y) + 1
  {
    assert (2 * y) / 2 == y && (2 * y) % 2 == 0;
    assert (2 * y + 1) / 2 == y && (2 * y + 1) % 2 == 1;
  }

  lemma TimesPow2(x: nat, n: nat)
    ensures Pow2(n) >= 1
    ensures x * Pow2(n) == if n == 0 then x else 2 * (x * Pow2(n - 1))
    decreases n
  {
    if n != 0 {
      TimesPow2(x, n - 1);
      Pow2Doubles(n);
      Reassociate(x, Pow2(n - 1));
    }
  }

  lemma Pow2Doubles(n: nat)
    requires n != 0
    ensures Pow2(n) == 2 * Pow2(n - 1)
  {
  }

  lemma Reassociate(x: nat, y: nat)
    ensures x * (2 * y) == 2 * (x * y)
  {
  }

  lemma {:induction false} OnesOfShifted(x: nat, n: nat)
    ensures Ones(x * Pow2(n)) == Ones(x)
  {
    hide Ones, Pow2;
    TimesPow2(x, n);
    if n != 0 {
      OnesOfShifted(x, n - 1);
      OnesOfNext(x * Pow2(n - 1));
    }
  }

  lemma {:induction false} OnesOfAllOnes(n: nat)
    ensures Pow2(n) >= 1 && Ones(Pow2(n) - 1) == n
  {
    if n != 0 {
      hide Ones, Pow2;
      OnesOfAllOnes(n - 1);
      Pow2Doubles(n);
      OnesOfNext(Pow2(n - 1) - 1);
    }
  }

  lemma {:induction false} Pow2Splits(m: nat, n: nat)
    ensures Pow2(m + n) == Pow2(m) * Pow2(n)
  {
    if m != 0 {
      Pow2Splits(m - 1, n);
    }
  }

  lemma Pow2Of32()
    ensures Pow2(32) == TWO32
  {
    assert Pow2(4) == 16;
    Pow2Splits(4, 4);
    Pow2Splits(8, 8);
    Pow2Splits(16, 16);
  }

  /** A mask of n leading ones. */
  lemma MaskIsLeadingOnes(bits: Bits)
    ensures Bits2Mask(bits) == (Pow2(bits) - 1) * Pow2(32 - bits) == TWO32 - Pow2(32 - bits)
  {
    hide Ones;
    Pow2Splits(bits, 32 - bits);
    OnesOfAllOnes(bits);
    OnesOfAllOnes(32 - bits);
    Pow2Of32();
    hide Pow2;
    LeadingOnes(Pow2(bits), Pow2(32 - bits));
  }

  lemma LeadingOnes(high: nat, low: nat)
    requires high * low == TWO32 && high >= 1 && low >= 1
    ensures ((TWO32 - 1) * low) % TWO32 == (high - 1) * low == TWO32 - low
  {
    assert (high - 1) * low == high * low - low;
    assert low <= TWO32;
    var r := TWO32 - low;
    assert (TWO32 - 1) * low == (low - 1) * TWO32 + r;
    ModOfMultiple(low - 1, r);
  }

  lemma ModOfMultiple(q: nat, r: nat)
    ensures (q * TWO32 + r) % TWO32 == r % TWO32
  {
  }

  lemma MaskRoundTrip(bits: Bits)
    ensures Mask2Bits(Bits2Mask(bits)) == bits
  {
    MaskIsLeadingOnes(bits);
    OnesOfShifted(Pow2(bits) - 1, 32 - bits);
    OnesOfAllOnes(bits);
  }

  function ToRoute(prefix: Prefix, cost: uint32): Route {
    Route(cost, prefix.address, Bits2Mask(prefix.bits))
  }

  function ToPrefix(route: Route): Prefix {
    Prefix(route.address, Mask2Bits(route.mask))
  }

  lemma PrefixRoundTrip(prefix: Prefix, cost: uint32)
    ensures ToPrefix(ToRoute(prefix, cost)) == prefix && ToRoute(prefix, cost).cost == cost
  {
    MaskRoundTrip(prefix.bits);
  }

  // ---------------------------------------------------------------------------------------------------
  // Marshal and Parse
  // ---------------------------------------------------------------------------------------------------

  function Bytes16(x: uint16): seq<byte> {
    [x / 0x100, x % 0x100]
  }

  function Bytes32(x: uint32): seq<byte> {
    [x / 0x100_0000, x / 0x1_0000 % 0x100, x / 0x100 % 0x100, x % 0x100]
  }

  function Word16(b: seq<byte>, i: nat): uint16
    requires i + 2 <= |b|
  {
    (b[i] as int) * 0x100 + b[i + 1]
  }

  function Word32(b: seq<byte>, i: nat): uint32
    requires i + 4 <= |b|
  {
    (b[i] as int) * 0x100_0000 + (b[i + 1] as int) * 0x1_0000 + (b[i + 2] as int) * 0x100 + b[i + 3]
  }

  function RouteBytes(r: Route): (b: seq<byte>)
    ensures |b| == 12
  {
    Bytes32(r.cost) + Bytes32(r.address) + Bytes32(r.mask)
  }

  function RoutesBytes(hosts: seq<Route>): (b: seq<byte>)
    ensures |b| == 12 * |hosts|
  {
    if hosts == [] then [] else RoutesBytes(hosts[..|hosts| - 1]) + RouteBytes(hosts[|hosts| - 1])
  }

  function RouteAt(b: seq<byte>, start: nat): Route
    requires start + 12 <= |b|
  {
    Route(Word32(b, start), Word32(b, start + 4), Word32(b, start + 8))
  }

  function Encoding(h: RipHeader): (b: seq<byte>)
    ensures |b| == 4 + 12 * |h.hosts|
  {
    Bytes16(h.command) + Bytes16(h.numEntries) + RoutesBytes(h.hosts)
  }

  predicate Sendable(h: RipHeader) {
    && (h.command == REQUEST || h.command == RESPONSE)
    && (h.command == REQUEST ==> h.numEntries == 0)
    && h.numEntries <= MAX_ENTRIES
  }

  /** The number of entries tells the truth. */
  predicate Consistent(h: RipHeader) {
    Sendable(h) && |h.hosts| == h.numEntries
  }

  method Marshal(h: RipHeader) returns (r: Result<seq<byte>>)
    ensures r.Ok? <==> Sendable(h)
    ensures r.Ok? ==> r.value == Encoding(h)
    ensures r.Err? ==> r.error == (if h.command != REQUEST && h.command != RESPONSE then InvalidCommand
                                   else if h.command == REQUEST && h.numEntries != 0 then EntriesRequest
                                   else EntriesTooLong)
  {
    if h.command != REQUEST && h.command != RESPONSE {
      return Err(InvalidCommand);
    }
    if h.command == REQUEST && h.numEntries != 0 {
      return Err(EntriesRequest);
    }
    if h.numEntries > MAX_ENTRIES {
      return Err(EntriesTooLong);
    }
    var b := [];
    b := b + Bytes16(h.command);
    b := b + Bytes16(h.numEntries);
    for i := 0 to |h.hosts|
      invariant b == Bytes16(h.command) + Bytes16(h.numEntries) + RoutesBytes(h.hosts[..i])
    {
      assert h.hosts[..i + 1][..i] == h.hosts[..i];
      var host := h.hosts[i];
      b := b + Bytes32(host.cost);
      b := b + Bytes32(host.address);
      b := b + Bytes32(host.mask);
      assert b == Bytes16(h.command) + Bytes16(h.numEntries) + (RoutesBytes(h.hosts[..i]) + RouteBytes(host));
    }
    assert h.hosts[..|h.hosts|] == h.hosts;
    r := Ok(b);
  }

  predicate ValidSlice(b: Slice) {
    b.Slice? ==> b.len <= |b.cells|
  }

  /** The header is read from the cells, and so are as many entries as it claims: short of either, Go panics. */
  predicate Panics(b: Slice) {
    b.Slice? && (|b.cells| < 4
                 || (b.len >= 4 && Word16(b.cells, 0) == RESPONSE && |b.cells| < 4 + 12 * Word16(b.cells, 2)))
  }

  /**
   There are four bytes of contents, and the cells, contents or not, start with the encoding of a consistent
   header.
   */
  predicate Parses(b: Slice, h: RipHeader) {
    b.Slice? && b.len >= 4 && Consistent(h) && Encoding(h) <= b.cells
  }

  /** `ParseHeader`: exactly when it returns a header, each error, or panics. */
  method Parse(b: Slice) returns (r: Result<RipHeader>)
    requires ValidSlice(b)
    ensures forall h: RipHeader :: r == Ok(h) <==> Parses(b, h)
    ensures r == Panic <==> Panics(b)
    ensures r == Err(NilHeader) <==> b == Nil
    ensures r == Err(HeaderTooShort) <==> b.Slice? && |b.cells| >= 4 && b.len < 4
    ensures b.Slice? && b.len >= 4 ==>
              var command, numEntries := Word16(b.cells, 0), Word16(b.cells, 2);
              && (r == Err(InvalidCommand) <==> command != REQUEST && command != RESPONSE)
              && (r == Err(EntriesRequest) <==> command == REQUEST && numEntries != 0)
              && (r == Err(EntriesTooLong) <==> command == RESPONSE && numEntries > MAX_ENTRIES && !Panics(b))
  {
    if b == Nil {
      return Err(NilHeader);
    }
    var cells := b.cells;
    if |cells| < 4 {
      return Panic;
    }
    var command := Word16(cells, 0);
    var numEntries := Word16(cells, 2);
    if b.len < 4 {
      return Err(HeaderTooShort);
    }
    OnlyThisHeader(cells, command, numEntries);
    if command != REQUEST && command != RESPONSE {
      return Err(InvalidCommand);
    }
    if command == REQUEST && numEntries != 0 {
      return Err(EntriesRequest);
    }
    r := ParseEntries(cells, command, numEntries);
  }

  /** The entry loop. */
  method ParseEntries(cells: seq<byte>, command: uint16, numEntries: uint16) returns (r: Result<RipHeader>)
    requires |cells| >= 4 && command == Word16(cells, 0) && numEntries == Word16(cells, 2)
    requires command == RESPONSE || (command == REQUEST && numEntries == 0)
    ensures r == if |cells| < 4 + 12 * numEntries then Panic
                 else if numEntries > MAX_ENTRIES then Err(EntriesTooLong)
                 else Ok(RipHeader(command, numEntries, if r.Ok? then r.value.hosts else []))
    ensures r.Ok? ==> Consistent(r.value) && Encoding(r.value) <= cells
    ensures forall h: RipHeader :: Consistent(h) && Encoding(h) <= cells ==> r == Ok(h)
  {
    hide Encoding, RouteBytes, RoutesBytes, RouteAt, Word16;
    OnlyThisHeader(cells, command, numEntries);
    var hosts: seq<Route> := [];
    NoRoutesBytes(cells);
    for i := 0 to numEntries
      invariant |hosts| == i && 4 + 12 * i <= |cells|
      invariant cells[4..4 + 12 * i] == RoutesBytes(hosts)
    {
      var start := 4 + 12 * i;
      if start + 12 > |cells| {
        return Panic;
      }
      OneMoreRead(cells, hosts);
      hosts := hosts + [RouteAt(cells, start)];
    }
    if numEntries > MAX_ENTRIES || |hosts| > MAX_ENTRIES {
      return Err(EntriesTooLong);
    }
    var h := RipHeader(command, numEntries, hosts);
    EncodingOfParsed(cells, h);
    forall h': RipHeader | Consistent(h') && Encoding(h') <= cells
      ensures h' == h
    {
      EncodingIsInjective(cells, h, h');
    }
    r := Ok(h);
  }

  lemma NoRoutesBytes(cells: seq<byte>)
    requires |cells| >= 4
    ensures cells[4..4] == RoutesBytes([])
  {
  }

  lemma OneMoreRead(cells: seq<byte>, hosts: seq<Route>)
    requires 4 + 12 * |hosts| + 12 <= |cells| && cells[4..4 + 12 * |hosts|] == RoutesBytes(hosts)
    ensures cells[4..4 + 12 * |hosts| + 12] == RoutesBytes(hosts + [RouteAt(cells, 4 + 12 * |hosts|)])
  {
    hide RouteAt, RouteBytes, RoutesBytes;
    var start := 4 + 12 * |hosts|;
    RouteBytesInverse(cells, start);
    RoutesBytesOneMore(hosts, RouteAt(cells, start));
    SplitAt(cells, 4, start, start + 12);
  }

  lemma RoutesBytesOneMore(hosts: seq<Route>, host: Route)
    ensures RoutesBytes(hosts + [host]) == RoutesBytes(hosts) + RouteBytes(host)
  {
    hide RouteBytes;
    assert (hosts + [host])[..|hosts|] == hosts;
  }

  lemma SplitAt(cells: seq<byte>, i: nat, j: nat, k: nat)
    requires i <= j <= k <= |cells|
    ensures cells[i..k] == cells[i..j] + cells[j..k]
  {
  }

  lemma OnlyThisHeader(cells: seq<byte>, command: uint16, numEntries: uint16)
    requires |cells| >= 4 && command == Word16(cells, 0) && numEntries == Word16(cells, 2)
    ensures forall h: RipHeader :: Consistent(h) && Encoding(h) <= cells ==>
              h.command == command && h.numEntries == numEntries && 4 + 12 * numEntries <= |cells|
  {
    hide Encoding, Word16;
    forall h: RipHeader | Consistent(h) && Encoding(h) <= cells
      ensures h.command == command && h.numEntries == numEntries && 4 + 12 * numEntries <= |cells|
    {
      HeaderDetermined(cells, h);
    }
  }

  /** The same contents, whatever lies behind them. */
  predicate SameContents(b: Slice, b': Slice) {
    b.Slice? && b'.Slice? && b'.len == b.len <= |b.cells| == |b'.cells| && b'.cells[..b.len] == b.cells[..b.len]
  }

  /**
   The header that is parsed depends on the contents alone exactly when the contents are as long as the header
   says; otherwise entries come from what lies behind them.
   */
  lemma EntriesAreContentsIff(b: Slice, h: RipHeader)
    requires Parses(b, h) && ValidSlice(b)
    ensures (forall b': Slice :: SameContents(b, b') ==> Parses(b', h)) <==> 4 + 12 * h.numEntries <= b.len
  {
    var e := Encoding(h);
    if |e| <= b.len {
      forall b': Slice | SameContents(b, b')
        ensures Parses(b', h)
      {
        assert b.cells[..b.len][..|e|] == e && b'.cells[..b.len][..|e|] == e;
        assert b'.cells[..|e|] == e;
      }
    } else {
      var other: byte := if b.cells[b.len] == 0 then 1 else 0;
      var b' := b.(cells := b.cells[b.len := other]);
      assert SameContents(b, b') && b'.cells[b.len] != e[b.len];
    }
  }

  /** Entry i lies 4 + 12 * i bytes in: its cost, then its address, then its mask. */
  lemma {:induction false} RoutesBytesAt(hosts: seq<Route>, i: nat)
    requires i < |hosts|
    ensures RoutesBytes(hosts)[12 * i..12 * i + 12] == RouteBytes(hosts[i])
  {
    hide RouteBytes;
    var n := |hosts| - 1;
    LastRouteBytes(hosts);
    hide RoutesBytes;
    var all, init := RoutesBytes(hosts), RoutesBytes(hosts[..n]);
    assert |all| == 12 * n + 12;
    if i < n {
      RoutesBytesAt(hosts[..n], i);
      PartOfPart(all, 0, 12 * n, 12 * i, 12 * i + 12);
      assert all[0..12 * n] == init;
    } else {
      assert all[12 * n..12 * n + 12] == all[12 * n..];
    }
  }

  /** The header and entry i on the wire: cost, address and mask, in that order. */
  lemma WireLayout(h: RipHeader, i: nat)
    requires i < |h.hosts|
    ensures var b, at := Encoding(h), 4 + 12 * i;
            && Word16(b, 0) == h.command && Word16(b, 2) == h.numEntries
            && Word32(b, at) == h.hosts[i].cost && Word32(b, at + 4) == h.hosts[i].address
            && Word32(b, at + 8) == h.hosts[i].mask
  {
    var b, at, r := Encoding(h), 4 + 12 * i, h.hosts[i];
    RoutesBytesAt(h.hosts, i);
    EntryOnWire(b, at, h);
    hide Encoding, RoutesBytes, RouteBytes;
    WordOnWire(b, at, r.cost);
    WordOnWire(b, at + 4, r.address);
    WordOnWire(b, at + 8, r.mask);
  }

  lemma WordOnWire(b: seq<byte>, at: nat, x: uint32)
    requires at + 4 <= |b| && b[at..at + 4] == Bytes32(x)
    ensures Word32(b, at) == x
  {
    Word32OfBytes(x);
    assert b[at..at + 4][0] == b[at] && b[at..at + 4][1] == b[at + 1];
    assert b[at..at + 4][2] == b[at + 2] && b[at..at + 4][3] == b[at + 3];
  }

  lemma EntryOnWire(b: seq<byte>, at: nat, h: RipHeader)
    requires b == Encoding(h) && at >= 4 && at + 12 <= |b|
    ensures Word16(b, 0) == h.command && Word16(b, 2) == h.numEntries
    ensures forall r: Route :: RoutesBytes(h.hosts)[at - 4..at + 8] == RouteBytes(r) ==>
              && b[at..at + 4] == Bytes32(r.cost) && b[at + 4..at + 8] == Bytes32(r.address)
              && b[at + 8..at + 12] == Bytes32(r.mask)
  {
    hide RoutesBytes;
    forall r: Route | RoutesBytes(h.hosts)[at - 4..at + 8] == RouteBytes(r)
      ensures b[at..at + 4] == Bytes32(r.cost) && b[at + 4..at + 8] == Bytes32(r.address)
      ensures b[at + 8..at + 12] == Bytes32(r.mask)
    {
      assert b[at..at + 12] == RoutesBytes(h.hosts)[at - 4..at + 8];
      EntryParts(b, at, r);
    }
  }

  lemma EntryParts(b: seq<byte>, at: nat, r: Route)
    requires at + 12 <= |b| && b[at..at + 12] == RouteBytes(r)
    ensures b[at..at + 4] == Bytes32(r.cost) && b[at + 4..at + 8] == Bytes32(r.address)
    ensures b[at + 8..at + 12] == Bytes32(r.mask)
  {
    var e := RouteBytes(r);
    assert e[0..4] == Bytes32(r.cost) && e[4..8] == Bytes32(r.address) && e[8..12] == Bytes32(r.mask);
    PartOfPart(b, at, at + 12, 0, 4);
    PartOfPart(b, at, at + 12, 4, 8);
    PartOfPart(b, at, at + 12, 8, 12);
  }

  lemma PartOfPart(b: seq<byte>, i: nat, j: nat, k: nat, l: nat)
    requires i <= j <= |b| && k <= l <= j - i
    ensures b[i..j][k..l] == b[i + k..i + l]
  {
    var part, whole := b[i..j][k..l], b[i + k..i + l];
    forall x | 0 <= x < l - k
      ensures part[x] == whole[x]
    {
      assert part[x] == b[i..j][k + x];
    }
  }

  /** A response with the route 10.1.2.0/24 at cost 7, byte by byte. */
  lemma EncodingOfOneRoute()
    ensures Encoding(RipHeader(RESPONSE, 1, [ToRoute(Prefix(0x0A01_0200, 24), 7)]))
            == [0, 2] + [0, 1] + ([0, 0, 0, 7] + [10, 1, 2, 0] + [255, 255, 255, 0])
  {
    MaskOf24();
    OneRouteBytes(Route(7, 0x0A01_0200, 0xFFFF_FF00));
    WordsOfRoute();
    hide RoutesBytes, Bytes32, Bytes16, Bits2Mask;
  }

  lemma OneRouteBytes(r: Route)
    ensures RoutesBytes([r]) == RouteBytes(r)
  {
    assert [r][..0] == [] && RoutesBytes([r][..0]) == [];
  }

  lemma WordsOfRoute()
    ensures Bytes16(RESPONSE) == [0, 2] && Bytes16(1) == [0, 1]
    ensures Bytes32(7) == [0, 0, 0, 7] && Bytes32(0x0A01_0200) == [10, 1, 2, 0]
    ensures Bytes32(0xFFFF_FF00) == [255, 255, 255, 0]
  {
  }

  lemma MaskOf24()
    ensures Bits2Mask(24) == 0xFFFF_FF00
  {
    MaskIsLeadingOnes(24);
    assert Pow2(8) == 256;
  }

  /** What follows an IP header of 20 bytes in a receive buffer of 1400: the contents, and zeros behind them. */
  const RECEIVED_CELLS: nat := 1380

  function Received(contents: seq<byte>): Slice
    requires |contents| <= RECEIVED_CELLS
  {
    Slice(contents + seq(RECEIVED_CELLS - |contents|, _ => 0), |contents|)
  }

  /** A response of four bytes that claims one entry parses: to a route to 0.0.0.0/0 at cost 0. */
  lemma EmptyResponseParses()
    ensures var b := Received([0, 2, 0, 1]);
            var h := RipHeader(RESPONSE, 1, [Route(0, 0, 0)]);
            Parses(b, h)
  {
    var h := RipHeader(RESPONSE, 1, [Route(0, 0, 0)]);
    assert RoutesBytes(h.hosts[..0]) == [];
    assert h.hosts[..|h.hosts| - 1] == [];
    assert RoutesBytes(h.hosts) == RouteBytes(Route(0, 0, 0)) == seq(12, _ => 0);
    assert Encoding(h) == [0, 2, 0, 1] + seq(12, _ => 0);
  }

  /** One that claims 65535 entries panics. */
  lemma LongResponsePanics()
    ensures Panics(Received([0, 2, 0xFF, 0xFF]))
  {
    var b := Received([0, 2, 0xFF, 0xFF]);
    assert Word16(b.cells, 0) == RESPONSE && Word16(b.cells, 2) == 0xFFFF;
  }

  lemma RouteBytesInverse(b: seq<byte>, start: nat)
    requires start + 12 <= |b|
    ensures RouteBytes(RouteAt(b, start)) == b[start..start + 12]
  {
    Bytes32Inverse(b, start);
    Bytes32Inverse(b, start + 4);
    Bytes32Inverse(b, start + 8);
    assert b[start..start + 12] == b[start..start + 4] + b[start + 4..start + 8] + b[start + 8..start + 12];
  }

  lemma Shift8(q: nat, r: byte)
    ensures (q * 0x100 + r) / 0x100 == q && (q * 0x100 + r) % 0x100 == r
  {
  }

  lemma ShiftTwice(x: nat)
    ensures x / 0x1_0000 == x / 0x100 / 0x100 && x / 0x100_0000 == x / 0x100 / 0x100 / 0x100
  {
  }

  lemma Bytes32Inverse(b: seq<byte>, i: nat)
    requires i + 4 <= |b|
    ensures Bytes32(Word32(b, i)) == b[i..i + 4]
  {
    var x := Word32(b, i);
    var high: nat := (b[i] as int) * 0x100 + b[i + 1];
    ShiftTwice(x);
    Shift8(high * 0x100 + b[i + 2], b[i + 3]);
    Shift8(high, b[i + 2]);
    Shift8(b[i], b[i + 1]);
  }

  lemma EncodingOfParsed(b: seq<byte>, h: RipHeader)
    requires 4 + 12 * |h.hosts| <= |b| && h.command == Word16(b, 0) && h.numEntries == Word16(b, 2)
    requires b[4..4 + 12 * |h.hosts|] == RoutesBytes(h.hosts)
    ensures Encoding(h) <= b
  {
    assert Bytes16(h.command) == b[0..2] && Bytes16(h.numEntries) == b[2..4];
    assert Encoding(h) == b[..4 + 12 * |h.hosts|];
  }

  lemma HeaderDetermined(b: seq<byte>, h: RipHeader)
    requires Consistent(h) && Encoding(h) <= b
    ensures |b| >= 4 + 12 * h.numEntries && Word16(b, 0) == h.command && Word16(b, 2) == h.numEntries
    ensures b[4..4 + 12 * h.numEntries] == RoutesBytes(h.hosts)
  {
    var e := Encoding(h);
    assert e[0..2] == Bytes16(h.command) && e[2..4] == Bytes16(h.numEntries) && e[4..] == RoutesBytes(h.hosts);
    assert b[0..2] == e[0..2] && b[2..4] == e[2..4] && b[4..|e|] == e[4..];
  }

  lemma EncodingIsInjective(b: seq<byte>, h: RipHeader, h': RipHeader)
    requires Consistent(h) && Encoding(h) <= b && Consistent(h') && Encoding(h') <= b
    ensures h == h'
  {
    HeaderDetermined(b, h);
    HeaderDetermined(b, h');
    RoutesBytesInjective(h.hosts, h'.hosts);
  }

  lemma {:induction false} RoutesBytesInjective(hosts: seq<Route>, hosts': seq<Route>)
    requires |hosts| == |hosts'| && RoutesBytes(hosts) == RoutesBytes(hosts')
    ensures hosts == hosts'
  {
    if hosts != [] {
      hide RouteBytes;
      var n := |hosts| - 1;
      LastRouteBytes(hosts);
      LastRouteBytes(hosts');
      hide RoutesBytes;
      RoutesBytesInjective(hosts[..n], hosts'[..n]);
      RouteBytesInjective(hosts[n], hosts'[n]);
      assert hosts == hosts[..n] + [hosts[n]] && hosts' == hosts'[..n] + [hosts'[n]];
    }
  }

  lemma LastRouteBytes(hosts: seq<Route>)
    requires hosts != []
    ensures var n := |hosts| - 1;
            RoutesBytes(hosts)[..12 * n] == RoutesBytes(hosts[..n])
            && RoutesBytes(hosts)[12 * n..] == RouteBytes(hosts[n])
  {
  }

  lemma RouteBytesInjective(r: Route, r': Route)
    requires RouteBytes(r) == RouteBytes(r')
    ensures r == r'
  {
    var b, b' := RouteBytes(r), RouteBytes(r');
    assert b[0..4] == Bytes32(r.cost) && b[4..8] == Bytes32(r.address) && b[8..12] == Bytes32(r.mask);
    assert b'[0..4] == Bytes32(r'.cost) && b'[4..8] == Bytes32(r'.address) && b'[8..12] == Bytes32(r'.mask);
    Bytes32Injective(r.cost, r'.cost);
    Bytes32Injective(r.address, r'.address);
    Bytes32Injective(r.mask, r'.mask);
  }

  lemma Bytes32Injective(x: uint32, x': uint32)
    requires Bytes32(x) == Bytes32(x')
    ensures x == x'
  {
    Word32OfBytes(x);
    Word32OfBytes(x');
  }

  lemma Word32OfBytes(x: uint32)
    ensures Word32(Bytes32(x), 0) == x
  {
    var q1, q2 := x / 0x100, x / 0x1_0000;
    assert q1 / 0x100 == q2 && q2 / 0x100 == x / 0x100_0000;
    assert x == q1 * 0x100 + x % 0x100;
    assert q1 == q2 * 0x100 + q1 % 0x100;
    assert q2 == (q2 / 0x100) * 0x100 + q2 % 0x100;
  }
}
