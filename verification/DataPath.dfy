/**
 Two established endpoints joined by a channel that keeps the order of segments and may also carry
 retransmitted copies. Data flows both ways and every segment acknowledges.

 Each flight records the stream pointers behind its two 32-bit numbers; the endpoints only see the numbers.
 */
module DataPath {
  import opened Words
  import opened Sequence
  import opened Segments
  import opened RetransmitQueue
  import opened Tcb
  import opened ConnectionModel

  /** A segment in flight, with the pointer of its first byte and the pointer that it acknowledges. */
  datatype Flight = Flight(seg: Segment, at: nat, ackAt: nat)

  /** An endpoint, all that its application wrote and all that its application read. */
  datatype Side = Side(conn: Conn, written: seq<byte>, read: seq<byte>)

  datatype System = System(a: Side, b: Side, ab: seq<Flight>, ba: seq<Flight>)

  datatype Action =
    | Write(data: seq<byte>)
    | ReadApp(count: nat)
    | Resend(at: nat, length: nat)
    | Deliver

  function Flip(s: System): System {
    System(s.b, s.a, s.ba, s.ab)
  }

  /** How old a copy may be: its start is less than 2^32 - 65535 behind. */
  const MAX_AGE: int := TWO32 - TCB_SIZE - 1

  /**
   What endpoint `a` can do: one turn of VWrite that finds the send window open, VRead, resend something sent
   before, or handle the next segment. A new payload arrives only if it fits the window (flow control), and the
   read controller waits for room.
   */
  predicate Enabled(s: System, act: Action) {
    var c := s.a.conn;
    && c.tcb.Shaped()
    && match act
       case Write(data) =>
         && c.tcb.sendLbr == c.tcb.sendNxt && 0 < |data| <= MSS && |data| <= SendCapacity(c.tcb)
         && c.tcb.sendWnd > 0
       case ReadApp(_) => c.tcb.rcvWnd != TCB_SIZE
       case Resend(at, length) =>
         1 <= at && 0 < length && at + length <= c.tcb.sendNxt <= at + MAX_AGE && at - 1 + length <= |s.a.written|
       case Deliver =>
         s.ba != [] && Fits(c, s.ba[0].seg) && (s.ba[0].at == c.tcb.rcvNxt ==> |s.ba[0].seg.payload| <= c.tcb.rcvWnd)
  }

  function Departing(c: Conn, out: seq<Segment>): seq<Flight> {
    seq(|out|, i requires 0 <= i < |out| => Flight(out[i], c.tcb.sendNxt, c.tcb.rcvNxt))
  }

  function Copy(x: Side, at: nat, length: nat): Flight
    requires 1 <= at && at - 1 + length <= |x.written|
  {
    var c := x.conn;
    Flight(Packet(c, Wrap(c.tcb.iss, at), c.tcb.WrappedRcvNxt(), ACK, x.written[at - 1..at - 1 + length]),
           at, c.tcb.rcvNxt)
  }

  function Act(s: System, act: Action): System
    requires Enabled(s, act)
  {
    var c := s.a.conn;
    match act
    case Write(data) =>
      var (c', seg) := WriteSegment(c, data);
      s.(a := Side(c', s.a.written + data, s.a.read), ab := s.ab + [Flight(seg, c.tcb.sendNxt, c.tcb.rcvNxt)])
    case ReadApp(count) =>
      var (t, data) := ReadRecv(c.tcb, count);
      s.(a := Side(c.(tcb := t), s.a.written, s.a.read + data))
    case Resend(at, length) =>
      s.(ab := s.ab + [Copy(s.a, at, length)])
    case Deliver =>
      var r := Handle(c, s.ba[0].seg);
      s.(a := s.a.(conn := r.conn), ba := s.ba[1..], ab := s.ab + Departing(r.conn, r.out))
  }

  // ---------------------------------------------------------------------------------------------------
  // The invariant, one direction at a time: x sends, y receives
  // ---------------------------------------------------------------------------------------------------

  predicate Sends(x: Side) {
    var t := x.conn.tcb;
    && x.conn.status == Established && t.Shaped()
    && t.sendUna <= t.sendNxt <= t.sendUna + TCB_SIZE
    && t.sendNxt == 1 + |x.written|
  }

  predicate Receives(x: Side, y: Side) {
    var t := y.conn.tcb;
    && t.irs == x.conn.tcb.iss
    && ReceiveSideOk(t) && 1 <= t.rcvLbr
    && t.rcvNxt <= 1 + |x.written|
    && y.read + t.Buffered() == x.written[..t.rcvNxt - 1]
  }

  /** The payload of a flight is what was written at its pointer. */
  predicate Carries(x: Side, f: Flight) {
    && f.seg.seqNum == Wrap(x.conn.tcb.iss, f.at) && f.seg.flags == ACK
    && (f.seg.payload != [] ==> 1 <= f.at && f.at - 1 + |f.seg.payload| <= |x.written|
                                && f.seg.payload == x.written[f.at - 1..f.at - 1 + |f.seg.payload|])
  }

  /** New payloads continue the stream from `pos` up to `end`; between them only copies of what came before. */
  predicate InOrder(fl: seq<Flight>, pos: nat, end: nat) {
    if fl == [] then
      pos == end
    else
      var f := fl[0];
      var length := |f.seg.payload|;
      if length == 0 then InOrder(fl[1..], pos, end)
      else if f.at == pos then InOrder(fl[1..], pos + length, end)
      else f.at + length <= pos <= f.at + MAX_AGE && InOrder(fl[1..], pos, end)
  }

  /** The window reaches 2^32: the receiver accepts nothing any more. */
  predicate Stalled(t: TcbState) {
    t.WrappedRcvNxt() + t.rcvWnd >= TWO32
  }

  /** Acknowledgments in flight lie between what was acknowledged and what was received, and never go back. */
  predicate AcksInFlight(iss: uint32, fl: seq<Flight>, una: nat, rcvNxt: nat) {
    && (forall i :: 0 <= i < |fl| ==> una <= fl[i].ackAt <= rcvNxt && fl[i].seg.ackNum == Wrap(iss, fl[i].ackAt))
    && (forall i, j :: 0 <= i < j < |fl| ==> fl[i].ackAt <= fl[j].ackAt)
  }

  /**
   The send interval crosses 2^32, and whatever is or will be in flight acknowledges more than SND.UNA: the
   acknowledgment handler refuses every segment, and its payload with it.
   */
  predicate Deaf(t: TcbState, fl: seq<Flight>, peerRcvNxt: nat) {
    && t.WrappedUna() > t.WrappedSendNxt()
    && t.sendUna < peerRcvNxt
    && forall i :: 0 <= i < |fl| ==> t.sendUna < fl[i].ackAt
  }

  predicate Direction(x: Side, y: Side, xy: seq<Flight>, yx: seq<Flight>) {
    && Sends(x) && Receives(x, y)
    && x.conn.tcb.sendUna <= y.conn.tcb.rcvNxt
    && x.conn.tcb.WrappedUna() <= y.conn.tcb.WrappedRcvNxt()
    && (forall i :: 0 <= i < |xy| ==> Carries(x, xy[i]))
    && (|| Stalled(y.conn.tcb)
        || Deaf(y.conn.tcb, xy, x.conn.tcb.rcvNxt)
        || InOrder(xy, y.conn.tcb.rcvNxt, x.conn.tcb.sendNxt))
    && AcksInFlight(x.conn.tcb.iss, yx, x.conn.tcb.sendUna, y.conn.tcb.rcvNxt)
  }

  predicate Inv(s: System) {
    Direction(s.a, s.b, s.ab, s.ba) && Direction(s.b, s.a, s.ba, s.ab)
  }

  // ---------------------------------------------------------------------------------------------------
  // Flights
  // ---------------------------------------------------------------------------------------------------

  lemma {:induction false} InOrderAppend(fl: seq<Flight>, pos: nat, end: nat, f: Flight)
    requires InOrder(fl, pos, end)
    ensures f.seg.payload == [] ==> InOrder(fl + [f], pos, end)
    ensures f.at == end ==> InOrder(fl + [f], pos, end + |f.seg.payload|)
    ensures f.at + |f.seg.payload| <= end <= f.at + MAX_AGE ==> InOrder(fl + [f], pos, end)
  {
    if fl == [] {
      assert (fl + [f])[1..] == [];
    } else {
      var g := fl[0];
      var next := if |g.seg.payload| > 0 && g.at == pos then pos + |g.seg.payload| else pos;
      InOrderAppend(fl[1..], next, end, f);
      assert (fl + [f])[1..] == fl[1..] + [f];
    }
  }

  lemma AcksAppend(iss: uint32, fl: seq<Flight>, una: nat, rcvNxt: nat, f: Flight)
    requires AcksInFlight(iss, fl, una, rcvNxt) && una <= rcvNxt
    requires f.ackAt == rcvNxt && f.seg.ackNum == Wrap(iss, rcvNxt)
    ensures AcksInFlight(iss, fl + [f], una, rcvNxt)
  {
    hide Wrap;
  }

  // ---------------------------------------------------------------------------------------------------
  // What arrives
  // ---------------------------------------------------------------------------------------------------

  /** A stalled receiver accepts no segment at all. */
  lemma StalledRejects(c: Conn, seg: Segment)
    requires Stalled(c.tcb)
    ensures !InWindow(c, seg)
  {
  }

  /** A new payload that fits is accepted unless the receiver is stalled. */
  lemma NewPayloadAccepted(c: Conn, seg: Segment)
    requires seg.seqNum == c.tcb.WrappedRcvNxt() && 0 < |seg.payload| <= c.tcb.rcvWnd
    ensures InWindow(c, seg) || Stalled(c.tcb)
  {
    hide Wrap;
  }

  /** A copy is never accepted, however the numbers wrap. */
  lemma CopyRejected(c: Conn, seg: Segment, at: nat)
    requires seg.seqNum == Wrap(c.tcb.irs, at) && seg.payload != []
    requires at + |seg.payload| <= c.tcb.rcvNxt <= at + MAX_AGE
    ensures !InWindow(c, seg)
  {
    var t := c.tcb;
    var length := |seg.payload|;
    if InWindow(c, seg) {
      SegmentTestIsSound(t.WrappedRcvNxt(), t.rcvWnd, seg.seqNum, length);
      WrapAdd(t.irs, at, length - 1);
      BehindIsFarAhead(t.irs, at, t.rcvNxt);
      BehindIsFarAhead(t.irs, at + length - 1, t.rcvNxt);
      assert false;
    }
  }

  lemma BehindIsFarAhead(base: uint32, p: nat, nxt: nat)
    requires p < nxt <= p + MAX_AGE
    ensures Ahead(Wrap(base, nxt), Wrap(base, p)) > TCB_SIZE
  {
    AheadOfPointers(base, p, nxt);
  }

  lemma WrapAdd(base: uint32, p: nat, n: nat)
    ensures (Wrap(base, p) + n) % TWO32 == Wrap(base, p + n)
  {
    var q := (base + p) / TWO32;
    assert base + p == q * TWO32 + Wrap(base, p);
    assert (Wrap(base, p) + n + q * TWO32) % TWO32 == (Wrap(base, p) + n) % TWO32;
  }

  /** What an established endpoint does with a plain acknowledging segment. */
  lemma HandleEstablished(c: Conn, seg: Segment)
    requires c.status == Established && c.tcb.Shaped() && seg.flags == ACK && Fits(c, seg)
    ensures var r := Handle(c, seg);
            var plain := [Packet(c, c.tcb.WrappedSendNxt(), c.tcb.WrappedRcvNxt(), ACK, [])];
            if !InWindow(c, seg) || AckRefused(c.tcb, seg.ackNum) then
              r.conn == c && r.out == plain
            else
              var c1 := HandleAck(c, seg).conn;
              c1.status == Established && OnlyAcknowledges(c.tcb, c1.tcb)
              && if seg.payload == [] then r.conn == c1 && r.out == [] else
                 r.conn == c1.(tcb := AddRead(c1.tcb, seg.payload))
                 && r.out == [Packet(r.conn, c.tcb.WrappedSendNxt(), (seg.seqNum + |seg.payload|) % TWO32, ACK, [])]
  {
    hide Wrap, SegmentAcceptable, HandleAck, AckRefused, Process, TcbState.Shaped;
    RefusedIff(c, seg);
    if InWindow(c, seg) && !AckRefused(c.tcb, seg.ackNum) {
      ProcessPlain(HandleAck(c, seg).conn, seg);
    }
  }

  lemma ProcessPlain(c: Conn, seg: Segment)
    requires c.status == Established && c.tcb.Shaped() && seg.flags == ACK && |seg.payload| <= c.tcb.rcvWnd
    ensures var r := Process(c, [], seg);
            if seg.payload == [] then r.conn == c && r.out == [] else
              r.conn == c.(tcb := AddRead(c.tcb, seg.payload))
              && r.out == [Packet(r.conn, c.tcb.WrappedSendNxt(), (seg.seqNum + |seg.payload|) % TWO32, ACK, [])]
  {
    hide Wrap, Store;
  }

  /**
   The acknowledgment part, for a system in which the peer acknowledges what it received: SND.UNA moves to exactly
   there or stays.
   */
  lemma AckMovesExactly(c: Conn, seg: Segment, ackAt: nat)
    requires c.tcb.sendUna <= ackAt <= c.tcb.sendNxt <= c.tcb.sendUna + TCB_SIZE
    requires seg.ackNum == Wrap(c.tcb.iss, ackAt)
    ensures HandleAck(c, seg).conn.tcb.sendUna in {c.tcb.sendUna, ackAt}
  {
    hide Kept, Wrap, WrappedDist;
    var t := c.tcb;
    if AckAcceptable(t.WrappedUna(), t.WrappedSendNxt(), seg.ackNum) {
      AcceptedAckIsExact(t.iss, t.sendUna, t.sendNxt, seg.ackNum);
      WrapInjective(t.iss, t.sendUna + WrappedDist(t.WrappedUna(), seg.ackNum), ackAt);
    }
  }

  // ---------------------------------------------------------------------------------------------------
  // Steps of endpoint a, seen from the direction in which it sends
  // ---------------------------------------------------------------------------------------------------

  lemma PrefixGrows(x: seq<byte>, more: seq<byte>, n: nat)
    requires n <= |x|
    ensures (x + more)[..n] == x[..n]
  {
  }

  lemma CarriesGrows(x: Side, x': Side, more: seq<byte>, f: Flight)
    requires Carries(x, f) && x'.written == x.written + more && x'.conn.tcb.iss == x.conn.tcb.iss
    ensures Carries(x', f)
  {
    hide Wrap;
    if f.seg.payload != [] {
      assert x'.written[f.at - 1..f.at - 1 + |f.seg.payload|] == x.written[f.at - 1..f.at - 1 + |f.seg.payload|];
    }
  }

  lemma StaysDeaf(t: TcbState, fl: seq<Flight>, more: seq<Flight>, rcvNxt: nat, rcvNxt': nat)
    requires rcvNxt <= rcvNxt' && forall i :: 0 <= i < |more| ==> more[i].ackAt == rcvNxt'
    ensures Deaf(t, fl, rcvNxt) ==> Deaf(t, fl + more, rcvNxt')
  {
    hide Wrap;
  }

  lemma WriteSends(s: System, data: seq<byte>)
    requires Direction(s.a, s.b, s.ab, s.ba) && Enabled(s, Write(data))
    ensures var s' := Act(s, Write(data)); Direction(s'.a, s'.b, s'.ab, s'.ba)
  {
    hide Wrap, Store, Window, SendCapacity, InOrder, AcksInFlight, Stalled, WriteSegment, Deaf;
    var x, c := s.a, s.a.conn;
    WriteSegmentSends(c, data);
    CapacityIsSound(c.tcb);
    var s' := Act(s, Write(data));
    var f := s'.ab[|s.ab|];
    PrefixGrows(x.written, data, s.b.conn.tcb.rcvNxt - 1);
    assert s'.a.written[|x.written|..] == data;
    forall i | 0 <= i < |s'.ab|
      ensures Carries(s'.a, s'.ab[i])
    {
      if i < |s.ab| { CarriesGrows(x, s'.a, data, s.ab[i]); }
    }
    if InOrder(s.ab, s.b.conn.tcb.rcvNxt, c.tcb.sendNxt) {
      InOrderAppend(s.ab, s.b.conn.tcb.rcvNxt, c.tcb.sendNxt, f);
    }
    StaysDeaf(s.b.conn.tcb, s.ab, [f], c.tcb.rcvNxt, c.tcb.rcvNxt);
  }

  /** Anything that leaves the send side alone and sends nothing, or only copies and acknowledgments. */
  lemma QuietSends(s: System, s': System, f: seq<Flight>)
    requires Direction(s.a, s.b, s.ab, s.ba) && s'.b == s.b
    requires Sends(s'.a) && s'.a.written == s.a.written && s'.a.conn.tcb.iss == s.a.conn.tcb.iss
    requires AcksInFlight(s.a.conn.tcb.iss, s'.ba, s'.a.conn.tcb.sendUna, s.b.conn.tcb.rcvNxt)
    requires s'.a.conn.tcb.sendUna <= s.b.conn.tcb.rcvNxt && s'.a.conn.tcb.WrappedUna() <= s.b.conn.tcb.WrappedRcvNxt()
    requires s.a.conn.tcb.rcvNxt <= s'.a.conn.tcb.rcvNxt
    requires s'.ab == s.ab + f && |f| <= 1
    requires forall i :: 0 <= i < |f| ==> f[i].ackAt == s'.a.conn.tcb.rcvNxt
    requires forall i :: 0 <= i < |f| ==> Carries(s.a, f[i])
    requires forall i :: 0 <= i < |f| ==>
               f[i].seg.payload == [] || f[i].at + |f[i].seg.payload| <= s.a.conn.tcb.sendNxt <= f[i].at + MAX_AGE
    ensures Direction(s'.a, s'.b, s'.ab, s'.ba)
  {
    hide Wrap, Window, InOrder, AcksInFlight, Stalled, Deaf;
    StaysDeaf(s.b.conn.tcb, s.ab, f, s.a.conn.tcb.rcvNxt, s'.a.conn.tcb.rcvNxt);
    if f != [] && InOrder(s.ab, s.b.conn.tcb.rcvNxt, s.a.conn.tcb.sendNxt) {
      InOrderAppend(s.ab, s.b.conn.tcb.rcvNxt, s.a.conn.tcb.sendNxt, f[0]);
      assert f == [f[0]];
    }
    forall i | 0 <= i < |s'.ab|
      ensures Carries(s'.a, s'.ab[i])
    {
      hide Carries;
      var g := s'.ab[i];
      assert Carries(s.a, g) by {
        if i < |s.ab| { assert g == s.ab[i]; } else { assert g == f[i - |s.ab|]; }
      }
      assert s'.a.written == s.a.written + [];
      CarriesGrows(s.a, s'.a, [], g);
    }
    if f == [] {
      assert s'.ab == s.ab;
    }
  }

  lemma SameTurn(base: uint32, lo: nat, p: nat, hi: nat)
    requires lo <= p <= hi < lo + TWO32 && Wrap(base, lo) <= Wrap(base, hi)
    ensures Wrap(base, lo) <= Wrap(base, p) <= Wrap(base, hi)
    ensures lo < p ==> Wrap(base, lo) < Wrap(base, p)
  {
    AheadOfPointers(base, lo, p);
    AheadOfPointers(base, p, hi);
    AheadOfPointers(base, lo, hi);
  }

  lemma DeliverSends(s: System)
    requires Direction(s.a, s.b, s.ab, s.ba) && Enabled(s, Deliver) && s.ba[0].seg.flags == ACK
    ensures var s' := Act(s, Deliver); Direction(s'.a, s'.b, s'.ab, s'.ba)
  {
    hide Wrap, Window, InOrder, Stalled, HandleAck, InWindow, AckRefused, Store, Handle, Fits, Deaf;
    var c, f := s.a.conn, s.ba[0];
    var r := Handle(c, f.seg);
    HandleEstablished(c, f.seg);
    AckMovesExactly(c, f.seg, f.ackAt);
    SameTurn(c.tcb.iss, c.tcb.sendUna, f.ackAt, s.b.conn.tcb.rcvNxt);
    QuietSends(s, Act(s, Deliver), Departing(r.conn, r.out));
  }

  lemma StepSends(s: System, act: Action)
    requires Inv(s) && Enabled(s, act)
    ensures var s' := Act(s, act); Direction(s'.a, s'.b, s'.ab, s'.ba)
  {
    hide Wrap, Window, InOrder, Stalled, Handle, Fits, AcksInFlight, SendCapacity, Deaf;
    match act
    case Write(data) => WriteSends(s, data);
    case ReadApp(count) =>
      var s' := Act(s, act);
      assert s'.ab == s.ab + [];
      QuietSends(s, s', []);
    case Resend(at, length) =>
      QuietSends(s, Act(s, act), [Copy(s.a, at, length)]);
    case Deliver =>
      assert Carries(s.b, s.ba[0]);
      DeliverSends(s);
  }

  // ---------------------------------------------------------------------------------------------------
  // Steps of endpoint a, seen from the direction in which it receives
  // ---------------------------------------------------------------------------------------------------

  predicate SameReceiveSide(t: TcbState, t': TcbState) {
    t'.irs == t.irs && t'.rcvBuf == t.rcvBuf && t'.rcvNxt == t.rcvNxt && t'.rcvWnd == t.rcvWnd && t'.rcvLbr == t.rcvLbr
  }

  /** Nothing is received: at most flights that acknowledge RCV.NXT leave, and flights that change nothing arrive. */
  lemma QuietReceives(s: System, s': System, f: seq<Flight>)
    requires Direction(s.b, s.a, s.ba, s.ab) && s'.b == s.b
    requires SameReceiveSide(s.a.conn.tcb, s'.a.conn.tcb) && s'.a.conn.tcb.Shaped() && s'.a.read == s.a.read
    requires s'.ab == s.ab + f && |f| <= 1
    requires forall i :: 0 <= i < |f| ==>
               f[i].ackAt == s.a.conn.tcb.rcvNxt && f[i].seg.ackNum == s.a.conn.tcb.WrappedRcvNxt()
    requires s'.ba == s.ba || (s.ba != [] && s'.ba == s.ba[1..])
    requires || Stalled(s.a.conn.tcb)
             || Deaf(s'.a.conn.tcb, s'.ba, s.b.conn.tcb.rcvNxt)
             || InOrder(s'.ba, s.a.conn.tcb.rcvNxt, s.b.conn.tcb.sendNxt)
    ensures Direction(s'.b, s'.a, s'.ba, s'.ab)
  {
    hide Wrap, InOrder, AcksInFlight, Carries, Deaf;
    assert s'.a.conn.tcb.Buffered() == s.a.conn.tcb.Buffered();
    if f == [] {
      assert s'.ab == s.ab;
    } else {
      assert f == [f[0]];
      AcksAppend(s.b.conn.tcb.iss, s.ab, s.b.conn.tcb.sendUna, s.a.conn.tcb.rcvNxt, f[0]);
    }
  }

  lemma ReadReceives(s: System, count: nat)
    requires Direction(s.b, s.a, s.ba, s.ab) && Enabled(s, ReadApp(count))
    ensures var s' := Act(s, ReadApp(count)); Direction(s'.b, s'.a, s'.ba, s'.ab)
  {
    hide Wrap, InOrder, AcksInFlight, Carries;
    var t := s.a.conn.tcb;
    var (t', data) := ReadRecv(t, count);
    WindowSplit(t.rcvBuf, t.rcvLbr, t'.rcvLbr, t.rcvNxt);
    assert (s.a.read + data) + t'.Buffered() == s.a.read + t.Buffered();
  }

  /** A new payload is accepted: it is the next stretch of what the peer wrote. */
  lemma NewPayloadReceives(s: System, s': System, f: Flight, out: Flight)
    requires Direction(s.b, s.a, s.ba, s.ab) && s'.b == s.b && s.ba != [] && f == s.ba[0] && s'.ba == s.ba[1..]
    requires !Stalled(s.a.conn.tcb) && !Deaf(s.a.conn.tcb, s.ba, s.b.conn.tcb.rcvNxt)
    requires 0 < |f.seg.payload| <= s.a.conn.tcb.rcvWnd && f.at == s.a.conn.tcb.rcvNxt
    requires SameReceiveSide(AddRead(s.a.conn.tcb, f.seg.payload), s'.a.conn.tcb) && s'.a.conn.tcb.Shaped()
    requires s'.a.read == s.a.read && s'.ab == s.ab + [out]
    requires out.ackAt == s'.a.conn.tcb.rcvNxt && out.seg.ackNum == (f.seg.seqNum + |f.seg.payload|) % TWO32
    ensures Direction(s'.b, s'.a, s'.ba, s'.ab)
  {
    hide Wrap, Store, Window, AcksInFlight, Stalled, Deaf;
    var t, t' := s.a.conn.tcb, s'.a.conn.tcb;
    WithoutCrossing(t, |f.seg.payload|);
    var payload := f.seg.payload;
    assert Carries(s.b, f);
    StoreExtendsWindow(t.rcvBuf, t.rcvLbr, t.rcvNxt, payload);
    InOrderBounds(s.ba[1..], t.rcvNxt + |payload|, s.b.conn.tcb.sendNxt);
    var w := s.b.written;
    assert t'.Buffered() == t.Buffered() + payload;
    assert w[..t.rcvNxt - 1] + payload == w[..t'.rcvNxt - 1];
    assert s.a.read + (t.Buffered() + payload) == (s.a.read + t.Buffered()) + payload;
    WrapAdd(t.irs, t.rcvNxt, |payload|);
    AcksRise(s.b.conn.tcb.iss, s.ab, s.b.conn.tcb.sendUna, t.rcvNxt, t'.rcvNxt);
    AcksAppend(s.b.conn.tcb.iss, s.ab, s.b.conn.tcb.sendUna, t'.rcvNxt, out);
  }

  lemma WithoutCrossing(t: TcbState, n: nat)
    requires !Stalled(t) && n <= t.rcvWnd
    ensures t.WrappedRcvNxt() <= Wrap(t.irs, t.rcvNxt + n)
  {
    WrapAdd(t.irs, t.rcvNxt, n);
  }

  lemma {:induction false} InOrderBounds(fl: seq<Flight>, pos: nat, end: nat)
    requires InOrder(fl, pos, end)
    ensures pos <= end
  {
    if fl != [] {
      var f := fl[0];
      InOrderBounds(fl[1..], if |f.seg.payload| > 0 && f.at == pos then pos + |f.seg.payload| else pos, end);
    }
  }

  lemma AcksRise(iss: uint32, fl: seq<Flight>, una: nat, rcvNxt: nat, higher: nat)
    requires AcksInFlight(iss, fl, una, rcvNxt) && rcvNxt <= higher
    ensures AcksInFlight(iss, fl, una, higher)
  {
    hide Wrap;
  }

  /** A refused acknowledgment is one for more than SND.UNA while the send interval crosses 2^32. */
  lemma RefusedMeans(s: System)
    requires Inv(s) && s.ba != []
    ensures AckRefused(s.a.conn.tcb, s.ba[0].seg.ackNum) <==>
              s.a.conn.tcb.WrappedUna() > s.a.conn.tcb.WrappedSendNxt() && s.ba[0].ackAt > s.a.conn.tcb.sendUna
  {
    hide Wrap, InOrder, Carries, Stalled, Window, Deaf;
    var t, f := s.a.conn.tcb, s.ba[0];
    AheadOfPointers(t.iss, t.sendUna, t.sendNxt);
    AheadOfPointers(t.iss, t.sendUna, f.ackAt);
    SameTurn(t.iss, t.sendUna, f.ackAt, s.b.conn.tcb.rcvNxt);
    if t.WrappedUna() <= t.WrappedSendNxt() {
      SameTurn(t.iss, t.sendUna, f.ackAt, t.sendNxt);
    }
  }

  lemma BecomesDeaf(s: System)
    requires Inv(s) && s.ba != [] && AckRefused(s.a.conn.tcb, s.ba[0].seg.ackNum)
    ensures Deaf(s.a.conn.tcb, s.ba[1..], s.b.conn.tcb.rcvNxt)
  {
    RefusedMeans(s);
    hide Wrap, InOrder, Carries, Stalled, Window, AckRefused;
  }

  lemma DeafRefuses(s: System)
    requires Inv(s) && s.ba != [] && Deaf(s.a.conn.tcb, s.ba, s.b.conn.tcb.rcvNxt)
    ensures AckRefused(s.a.conn.tcb, s.ba[0].seg.ackNum) && Deaf(s.a.conn.tcb, s.ba[1..], s.b.conn.tcb.rcvNxt)
  {
    RefusedMeans(s);
    hide Wrap, InOrder, Carries, Stalled, Window, AckRefused;
  }

  lemma DeliverReceives(s: System)
    requires Inv(s) && Enabled(s, Deliver)
    ensures var s' := Act(s, Deliver); Direction(s'.b, s'.a, s'.ba, s'.ab)
  {
    hide Wrap, Window, AcksInFlight, HandleAck, InWindow, AckRefused, Store, Handle, Fits, Stalled, Deaf;
    var c, f := s.a.conn, s.ba[0];
    var r := Handle(c, f.seg);
    var s' := Act(s, Deliver);
    assert Carries(s.b, f);
    HandleEstablished(c, f.seg);
    if Stalled(c.tcb) {
      StalledRejects(c, f.seg);
      QuietReceives(s, s', Departing(r.conn, r.out));
    } else if Deaf(c.tcb, s.ba, s.b.conn.tcb.rcvNxt) {
      DeafRefuses(s);
      QuietReceives(s, s', Departing(r.conn, r.out));
    } else if f.seg.payload == [] {
      QuietReceives(s, s', Departing(r.conn, r.out));
    } else if f.at != c.tcb.rcvNxt {
      CopyRejected(c, f.seg, f.at);
      QuietReceives(s, s', Departing(r.conn, r.out));
    } else if AckRefused(c.tcb, f.seg.ackNum) {
      BecomesDeaf(s);
      QuietReceives(s, s', Departing(r.conn, r.out));
    } else {
      NewPayloadAccepted(c, f.seg);
      NewPayloadReceives(s, s', f, Departing(r.conn, r.out)[0]);
    }
  }

  lemma StepReceives(s: System, act: Action)
    requires Inv(s) && Enabled(s, act)
    ensures var s' := Act(s, act); Direction(s'.b, s'.a, s'.ba, s'.ab)
  {
    hide Wrap, Window, InOrder, Stalled, Handle, Fits, AcksInFlight, Store, WriteSegment, SendCapacity, Deaf;
    match act
    case Write(data) =>
      WriteSegmentSends(s.a.conn, data);
      var s' := Act(s, act);
      CapacityIsSound(s.a.conn.tcb);
      WritingStaysDeaf(s.a.conn.tcb, s'.a.conn.tcb, s.ba, s.b.conn.tcb.rcvNxt);
      QuietReceives(s, s', [s'.ab[|s.ab|]]);
    case ReadApp(count) => ReadReceives(s, count);
    case Resend(at, length) => QuietReceives(s, Act(s, act), [Copy(s.a, at, length)]);
    case Deliver => DeliverReceives(s);
  }

  lemma WritingStaysDeaf(t: TcbState, t': TcbState, fl: seq<Flight>, peerRcvNxt: nat)
    requires t'.iss == t.iss && t'.sendUna == t.sendUna <= t.sendNxt <= t'.sendNxt <= t.sendUna + TCB_SIZE
    ensures Deaf(t, fl, peerRcvNxt) ==> Deaf(t', fl, peerRcvNxt)
  {
    AheadOfPointers(t.iss, t.sendUna, t.sendNxt);
    AheadOfPointers(t.iss, t.sendUna, t'.sendNxt);
  }

  // ---------------------------------------------------------------------------------------------------
  // Runs
  // ---------------------------------------------------------------------------------------------------

  /** A step of either endpoint. */
  datatype Step = ByA(act: Action) | ByB(act: Action)

  function View(s: System, step: Step): System {
    if step.ByA? then s else Flip(s)
  }

  predicate StepEnabled(s: System, step: Step) {
    Enabled(View(s, step), step.act)
  }

  function Do(s: System, step: Step): System
    requires StepEnabled(s, step)
  {
    var s' := Act(View(s, step), step.act);
    if step.ByA? then s' else Flip(s')
  }

  lemma StepKeepsInv(s: System, step: Step)
    requires Inv(s) && StepEnabled(s, step)
    ensures Inv(Do(s, step))
  {
    hide Direction, Enabled, Act;
    var v := View(s, step);
    StepSends(v, step.act);
    StepReceives(v, step.act);
  }

  predicate IsRun(states: seq<System>, steps: seq<Step>) {
    && |states| == |steps| + 1
    && forall i :: 0 <= i < |steps| ==> StepEnabled(states[i], steps[i]) && states[i + 1] == Do(states[i], steps[i])
  }

  predicate FreshSide(x: Side, peer: Side) {
    var t := x.conn.tcb;
    && x.conn.status == Established && t.Shaped() && t.irs == peer.conn.tcb.iss
    && t.sendUna == 1 && t.sendNxt == 1 && t.sendLbr == 1
    && t.rcvNxt == 1 && t.rcvLbr == 1 && t.rcvWnd == TCB_SIZE
    && x.written == [] && x.read == []
  }

  /** Both sides established, nothing written, read or in flight. */
  predicate Start(s: System) {
    FreshSide(s.a, s.b) && FreshSide(s.b, s.a) && s.ab == [] && s.ba == []
  }

  lemma StartInv(s: System)
    requires Start(s)
    ensures Inv(s)
  {
    FreshDirection(s.a, s.b);
    FreshDirection(s.b, s.a);
  }

  lemma FreshDirection(x: Side, y: Side)
    requires FreshSide(x, y) && FreshSide(y, x)
    ensures Direction(x, y, [], [])
  {
    hide Wrap, Stalled, Carries, Deaf;
    assert y.read + y.conn.tcb.Buffered() == [];
  }

  lemma {:induction false} RunKeepsInv(states: seq<System>, steps: seq<Step>)
    requires IsRun(states, steps) && Start(states[0])
    ensures Inv(states[|steps|])
  {
    hide Inv, StepEnabled, Do;
    if steps == [] {
      StartInv(states[0]);
    } else {
      var n := |steps| - 1;
      RunKeepsInv(states[..n + 1], steps[..n]);
      StepKeepsInv(states[n], steps[n]);
      assert states[n + 1] == Do(states[n], steps[n]);
    }
  }

  /**
   What the application at y gets is a prefix of what the application at x wrote, and the acknowledgments are
   honest.
   */
  predicate StreamSafe(x: Side, y: Side, yx: seq<Flight>) {
    && y.conn.tcb.Shaped()
    && y.read + y.conn.tcb.Buffered() <= x.written
    && x.conn.tcb.sendUna <= y.conn.tcb.rcvNxt <= x.conn.tcb.sendNxt
    && forall i :: 0 <= i < |yx| ==>
         yx[i].ackAt <= y.conn.tcb.rcvNxt && yx[i].seg.ackNum == Wrap(x.conn.tcb.iss, yx[i].ackAt)
  }

  /**
   Both streams are safe after any run, from any initial sequence numbers. At 2^32 a stream may stall for good
   (`Stalled`, `Deaf`), but what was read stays a prefix of what was written.
   */
  lemma StreamsAreSafe(states: seq<System>, steps: seq<Step>)
    requires IsRun(states, steps) && Start(states[0])
    ensures var s := states[|steps|]; StreamSafe(s.a, s.b, s.ba) && StreamSafe(s.b, s.a, s.ab)
  {
    hide Start, StreamSafe, Direction, StepEnabled, Do;
    RunKeepsInv(states, steps);
    var s := states[|steps|];
    DirectionIsSafe(s.a, s.b, s.ab, s.ba);
    DirectionIsSafe(s.b, s.a, s.ba, s.ab);
  }

  lemma DirectionIsSafe(x: Side, y: Side, xy: seq<Flight>, yx: seq<Flight>)
    requires Direction(x, y, xy, yx)
    ensures StreamSafe(x, y, yx)
  {
    hide Wrap, InOrder, Carries, Window, Stalled, Deaf;
  }

  // ---------------------------------------------------------------------------------------------------
  // A stall is for good
  // ---------------------------------------------------------------------------------------------------

  /** Endpoint a takes nothing: its window reaches 2^32, or it refuses every acknowledgment. */
  predicate Stuck(s: System) {
    Stalled(s.a.conn.tcb) || Deaf(s.a.conn.tcb, s.ba, s.b.conn.tcb.rcvNxt)
  }

  /** What endpoint a does itself leaves it stuck, at the same RCV.NXT. */
  lemma OwnStepStaysStuck(s: System, act: Action)
    requires Inv(s) && Stuck(s) && Enabled(s, act)
    ensures Stuck(Act(s, act)) && Act(s, act).a.conn.tcb.rcvNxt == s.a.conn.tcb.rcvNxt
  {
    hide Window, InOrder, AcksInFlight, HandleAck, AckRefused, Store, Handle, Fits, WriteSegment, Deaf, Wrap;
    match act
    case Write(data) =>
      WriteSegmentSends(s.a.conn, data);
      CapacityIsSound(s.a.conn.tcb);
      WritingStaysDeaf(s.a.conn.tcb, Act(s, act).a.conn.tcb, s.ba, s.b.conn.tcb.rcvNxt);
    case ReadApp(count) => ReadingStaysDeaf(s.a.conn.tcb, count, s.ba, s.b.conn.tcb.rcvNxt);
    case Resend(at, length) =>
    case Deliver =>
      assert Carries(s.b, s.ba[0]);
      HandleEstablished(s.a.conn, s.ba[0].seg);
      if Stalled(s.a.conn.tcb) {
        StalledRejects(s.a.conn, s.ba[0].seg);
      } else {
        DeafRefuses(s);
      }
  }

  lemma ReadingStaysDeaf(t: TcbState, count: nat, fl: seq<Flight>, peerRcvNxt: nat)
    requires t.Shaped()
    ensures Deaf(t, fl, peerRcvNxt) ==> Deaf(ReadRecv(t, count).0, fl, peerRcvNxt)
  {
    hide Wrap, Window;
  }

  /** What the other endpoint does changes nothing about that: whatever it sends acknowledges at least as much. */
  lemma PeerStepStaysStuck(s: System, act: Action)
    requires Inv(s) && Stuck(s) && Enabled(Flip(s), act)
    ensures var s' := Flip(Act(Flip(s), act)); Stuck(s') && s'.a.conn == s.a.conn
  {
    hide Window, InOrder, AcksInFlight, HandleAck, AckRefused, Store, Handle, Fits, WriteSegment, Deaf, Wrap, Stalled;
    var v := Flip(s);
    var v' := Act(v, act);
    match act
    case Write(data) =>
      WriteSegmentSends(v.a.conn, data);
      StaysDeaf(s.a.conn.tcb, s.ba, [v'.ab[|v.ab|]], s.b.conn.tcb.rcvNxt, s.b.conn.tcb.rcvNxt);
    case ReadApp(count) =>
    case Resend(at, length) =>
      StaysDeaf(s.a.conn.tcb, s.ba, [Copy(v.a, at, length)], s.b.conn.tcb.rcvNxt, s.b.conn.tcb.rcvNxt);
    case Deliver =>
      assert Carries(s.a, s.ab[0]);
      HandleEstablished(v.a.conn, v.ba[0].seg);
      var r := Handle(v.a.conn, v.ba[0].seg);
      StaysDeaf(s.a.conn.tcb, s.ba, Departing(r.conn, r.out), s.b.conn.tcb.rcvNxt, v'.a.conn.tcb.rcvNxt);
  }

  /** The system as endpoint a, or endpoint b, sees it. */
  function SeenBy(s: System, a: bool): System {
    if a then s else Flip(s)
  }

  lemma StepStaysStuck(s: System, step: Step, a: bool)
    requires Inv(s) && Stuck(SeenBy(s, a)) && StepEnabled(s, step)
    ensures Stuck(SeenBy(Do(s, step), a))
    ensures SeenBy(Do(s, step), a).a.conn.tcb.rcvNxt == SeenBy(s, a).a.conn.tcb.rcvNxt
  {
    hide Direction, Stuck, Enabled, Act;
    if step.ByA? == a {
      OwnStepStaysStuck(SeenBy(s, a), step.act);
    } else {
      assert View(s, step) == Flip(SeenBy(s, a));
      PeerStepStaysStuck(SeenBy(s, a), step.act);
    }
  }

  /** Over any run, an endpoint that is stuck never receives another byte. */
  lemma {:induction false} StallIsForGood(states: seq<System>, steps: seq<Step>, a: bool)
    requires IsRun(states, steps) && Inv(states[0]) && Stuck(SeenBy(states[0], a))
    ensures var s := states[|steps|];
            && Inv(s) && Stuck(SeenBy(s, a))
            && SeenBy(s, a).a.conn.tcb.rcvNxt == SeenBy(states[0], a).a.conn.tcb.rcvNxt
  {
    if steps != [] {
      hide Inv, Stuck, StepEnabled, Do;
      var n := |steps| - 1;
      StallIsForGood(states[..n + 1], steps[..n], a);
      StepKeepsInv(states[n], steps[n]);
      StepStaysStuck(states[n], steps[n], a);
      assert states[n + 1] == Do(states[n], steps[n]);
    }
  }

  // ---------------------------------------------------------------------------------------------------
  // When a new payload is taken, and where a stall comes from
  // ---------------------------------------------------------------------------------------------------

  /** A new payload that fits is taken if and only if the window ends below 2^32 and no acknowledgment is refused. */
  lemma NewPayloadTakenIff(s: System)
    requires Inv(s) && Enabled(s, Deliver) && s.ba[0].seg.payload != [] && s.ba[0].at == s.a.conn.tcb.rcvNxt
    ensures var t, f := s.a.conn.tcb, s.ba[0];
            var taken := !Stalled(t) && !(t.WrappedUna() > t.WrappedSendNxt() && f.ackAt > t.sendUna);
            Act(s, Deliver).a.conn.tcb.rcvNxt == t.rcvNxt + if taken then |f.seg.payload| else 0
  {
    hide Wrap, Window, InOrder, AcksInFlight, HandleAck, InWindow, AckRefused, Store, Handle, Fits, Stalled, Deaf;
    var c, f := s.a.conn, s.ba[0];
    assert Carries(s.b, f);
    HandleEstablished(c, f.seg);
    RefusedMeans(s);
    if Stalled(c.tcb) {
      StalledRejects(c, f.seg);
    } else {
      NewPayloadAccepted(c, f.seg);
    }
  }

  /** From the start, an endpoint is stuck exactly if the window behind the peer's SYN reaches 2^32. */
  lemma StartIsStuckIff(s: System, a: bool)
    requires Start(s)
    ensures Stuck(SeenBy(s, a)) <==> Wrap(SeenBy(s, a).b.conn.tcb.iss, 1) + TCB_SIZE >= TWO32
  {
  }

  /** Then it never receives anything, over any run. */
  lemma StuckStartReceivesNothing(states: seq<System>, steps: seq<Step>, a: bool)
    requires IsRun(states, steps) && Start(states[0])
    requires Wrap(SeenBy(states[0], a).b.conn.tcb.iss, 1) + TCB_SIZE >= TWO32
    ensures SeenBy(states[|steps|], a).a.conn.tcb.rcvNxt == 1
  {
    StartInv(states[0]);
    StartIsStuckIff(states[0], a);
    hide Wrap, StepEnabled, Do, Inv, Stuck;
    StallIsForGood(states, steps, a);
  }

  // ---------------------------------------------------------------------------------------------------
  // What the application gets
  // ---------------------------------------------------------------------------------------------------

  /** A read that asks for enough gets everything received, and gives the whole window back. */
  lemma ReadingGetsEverything(s: System, count: nat)
    requires Inv(s) && Enabled(s, ReadApp(count)) && count >= TCB_SIZE
    ensures var x := Act(s, ReadApp(count)).a;
            && x.conn.tcb.Shaped() && x.conn.tcb.Buffered() == [] && x.conn.tcb.rcvWnd == TCB_SIZE
            && 1 <= x.conn.tcb.rcvNxt <= 1 + |s.b.written| && x.read == s.b.written[..x.conn.tcb.rcvNxt - 1]
  {
    hide Wrap, Window, InOrder, AcksInFlight, Carries, Stalled, Deaf, ReadRecv;
    var t := s.a.conn.tcb;
    ReadIsFront(t, count);
    assert t.Buffered()[..|t.Buffered()|] == t.Buffered() && t.Buffered()[|t.Buffered()|..] == [];
  }

  /** Once everything has arrived at an endpoint that is not stuck, such a read completes the stream. */
  lemma DrainedStreamIsComplete(s: System, count: nat)
    requires Inv(s) && s.ba == [] && !Stuck(s) && Enabled(s, ReadApp(count)) && count >= TCB_SIZE
    ensures Act(s, ReadApp(count)).a.read == s.b.written
  {
    ReadingGetsEverything(s, count);
    hide Wrap, Window, AcksInFlight, Carries, ReadRecv, Stalled, Deaf;
    assert InOrder([], s.a.conn.tcb.rcvNxt, s.b.conn.tcb.sendNxt);
  }

  /** The same over runs: whatever led there, a read of at least 65535 bytes returns the rest of what was received. */
  lemma RunReadsEverything(states: seq<System>, steps: seq<Step>, a: bool, count: nat)
    requires IsRun(states, steps) && Start(states[0]) && count >= TCB_SIZE
    requires Enabled(SeenBy(states[|steps|], a), ReadApp(count))
    ensures var s := SeenBy(states[|steps|], a);
            var x := Act(s, ReadApp(count)).a;
            && x.conn.tcb.rcvWnd == TCB_SIZE && 1 <= x.conn.tcb.rcvNxt <= 1 + |s.b.written|
            && x.read == s.b.written[..x.conn.tcb.rcvNxt - 1]
            && (s.ba == [] && !Stuck(s) ==> x.read == s.b.written)
  {
    RunKeepsInv(states, steps);
    hide StepEnabled, Do, Direction, Act, Enabled, Stuck;
    var s := SeenBy(states[|steps|], a);
    ReadingGetsEverything(s, count);
    if s.ba == [] && !Stuck(s) {
      DrainedStreamIsComplete(s, count);
    }
  }

  // ---------------------------------------------------------------------------------------------------
  // A run that ends deaf
  // ---------------------------------------------------------------------------------------------------

  lemma TakesNextBytes(c: Conn, seg: Segment)
    requires c.status == Established && c.tcb.Shaped() && seg.flags == ACK && !Stalled(c.tcb)
    requires 0 < |seg.payload| <= c.tcb.rcvWnd
    requires seg.seqNum == c.tcb.WrappedRcvNxt() && seg.ackNum == c.tcb.WrappedUna()
    ensures Fits(c, seg)
    ensures var r := Handle(c, seg);
            && r.conn == c.(tcb := AddRead(c.tcb, seg.payload))
            && r.out == [Packet(r.conn, c.tcb.WrappedSendNxt(), (seg.seqNum + |seg.payload|) % TWO32, ACK, [])]
  {
    hide Wrap, Store, Kept, Stalled, InWindow, Handle;
    NewPayloadAccepted(c, seg);
    NothingNewAcked(c, seg);
    HandleEstablished(c, seg);
  }

  lemma NothingNewAcked(c: Conn, seg: Segment)
    requires seg.ackNum == c.tcb.WrappedUna() && c.status == Established
    ensures !AckRefused(c.tcb, seg.ackNum) && HandleAck(c, seg).conn == c
  {
    hide Wrap, Kept;
  }

  lemma TakesFirstAck(c: Conn, seg: Segment)
    requires c.status == Established && c.tcb.Shaped() && seg.flags == ACK && seg.payload == []
    requires c.tcb.irs == 0 && c.tcb.rcvNxt == 1 && c.tcb.rcvWnd == TCB_SIZE && seg.seqNum == 1
    requires c.tcb.iss + 2 < TWO32 && c.tcb.sendUna == 1 && c.tcb.sendNxt == 2 && seg.ackNum == Wrap(c.tcb.iss, 2)
    requires c.tcb.sendWnd > 0 && seg.window > 0
    ensures Fits(c, seg)
    ensures var r := Handle(c, seg);
            && r.conn.status == Established && r.out == [] && r.conn.tcb.sendUna == 2 && r.conn.tcb.sendWnd > 0
            && OnlyAcknowledges(c.tcb, r.conn.tcb)
  {
    hide Kept, Handle;
    assert InWindow(c, seg);
    HandleEstablished(c, seg);
  }

  /** One byte received by b and acknowledged, and then n more written, with initial numbers 2^32 - 65537 and 0. */
  predicate Ahead65535(s: System, n: nat) {
    var t, u := s.a.conn.tcb, s.b.conn.tcb;
    && s.a.conn.status == Established && t.Shaped() && t.iss == TWO32 - TCB_SIZE - 2 && t.irs == 0
    && t.sendUna == 2 && t.sendNxt == 2 + n && t.sendLbr == 2 + n && t.sendWnd > 0
    && t.rcvNxt == 1 && t.rcvWnd == TCB_SIZE
    && s.b.conn.status == Established && u.Shaped() && u.iss == 0 && u.irs == t.iss
    && u.sendUna == 1 && u.sendNxt == 1 && u.rcvNxt == 2 && u.rcvWnd == TCB_SIZE - 1
    && s.ba == [] && |s.ab| == n
    && (n > 0 ==> s.ab[0] == Flight(Segment(Wrap(t.iss, 2), 1, ACK, TCB_SIZE, [0]), 2, 1))
  }

  lemma WritesOneByte(s: System)
    requires var t := s.a.conn.tcb;
             t.Shaped() && t.sendLbr == t.sendNxt && t.sendWnd > 0 && t.sendUna <= t.sendNxt < t.sendUna + TCB_SIZE
             && t.sendNxt < TWO32
    ensures Enabled(s, Write([0]))
    ensures var s', t := Act(s, Write([0])), s.a.conn.tcb;
            && s'.b == s.b && s'.ba == s.ba
            && s'.a.conn.status == s.a.conn.status && s'.a.conn.tcb.Shaped()
            && s'.a.conn.tcb == t.(sendBuf := s'.a.conn.tcb.sendBuf, sendNxt := t.sendNxt + 1, sendLbr := t.sendNxt + 1)
            && var seg := Segment(t.WrappedSendNxt(), t.WrappedRcvNxt(), ACK, t.rcvWnd, [0]);
               s'.ab == s.ab + [Flight(seg, t.sendNxt, t.rcvNxt)]
  {
    hide Store, Wrap;
    CapacityOfFirst(s.a.conn.tcb);
    WriteSegmentSends(s.a.conn, [0]);
  }

  lemma CapacityOfFirst(t: TcbState)
    requires t.sendUna <= t.sendNxt < t.sendUna + TCB_SIZE && t.sendNxt < TWO32
    ensures SendCapacity(t) >= 1
  {
    CapacityIsSound(t);
  }

  lemma OneMoreDone(states: seq<System>, steps: seq<Step>, step: Step)
    requires IsRun(states, steps) && StepEnabled(states[|steps|], step)
    ensures IsRun(states + [Do(states[|steps|], step)], steps + [step])
  {
    hide StepEnabled, Do;
  }

  lemma FirstByteAcked(s: System) returns (states: seq<System>, steps: seq<Step>)
    requires Start(s) && s.a.conn.tcb.iss == TWO32 - TCB_SIZE - 2 && s.b.conn.tcb.iss == 0 && s.a.conn.tcb.sendWnd > 0
    ensures IsRun(states, steps) && states[0] == s && Ahead65535(states[|steps|], 0)
  {
    hide Handle, WriteSegment, Store, Fits;
    WritesOneByte(s);
    var s1 := Do(s, ByA(Write([0])));
    TakesNextBytes(s1.b.conn, s1.ab[0].seg);
    var s2 := Do(s1, ByB(Deliver));
    assert s2.ba[0].seg.ackNum == Wrap(s.a.conn.tcb.iss, 2);
    TakesFirstAck(s2.a.conn, s2.ba[0].seg);
    var s3 := Do(s2, ByA(Deliver));
    states, steps := [s, s1, s2, s3], [ByA(Write([0])), ByB(Deliver), ByA(Deliver)];
  }

  lemma {:induction false} WritesAhead(s: System, n: nat) returns (states: seq<System>, steps: seq<Step>)
    requires Start(s) && s.a.conn.tcb.iss == TWO32 - TCB_SIZE - 2 && s.b.conn.tcb.iss == 0 && s.a.conn.tcb.sendWnd > 0
    requires n <= TCB_SIZE
    ensures IsRun(states, steps) && states[0] == s && Ahead65535(states[|steps|], n)
  {
    if n == 0 {
      states, steps := FirstByteAcked(s);
    } else {
      states, steps := WritesAhead(s, n - 1);
      hide Act, Enabled;
      var last := states[|steps|];
      WritesOneByte(last);
      OneMoreDone(states, steps, ByA(Write([0])));
      states, steps := states + [Do(last, ByA(Write([0])))], steps + [ByA(Write([0]))];
    }
  }

  /** With these numbers a run leads to an endpoint that is deaf and not stalled. */
  lemma DeafIsReachable(s: System) returns (states: seq<System>, steps: seq<Step>)
    requires Start(s) && s.a.conn.tcb.iss == TWO32 - TCB_SIZE - 2 && s.b.conn.tcb.iss == 0 && s.a.conn.tcb.sendWnd > 0
    ensures IsRun(states, steps) && states[0] == s
    ensures var last := states[|steps|];
            Deaf(last.a.conn.tcb, last.ba, last.b.conn.tcb.rcvNxt) && !Stalled(last.a.conn.tcb)
  {
    states, steps := WritesAhead(s, TCB_SIZE);
    var last := states[|steps|];
    DeliversAhead(last);
    hide Act, Enabled, Deaf, Stalled;
    OneMoreDone(states, steps, ByB(Deliver));
    states, steps := states + [Do(last, ByB(Deliver))], steps + [ByB(Deliver)];
  }

  lemma DeliversAhead(s: System)
    requires Ahead65535(s, TCB_SIZE)
    ensures StepEnabled(s, ByB(Deliver))
    ensures var s' := Do(s, ByB(Deliver));
            Deaf(s'.a.conn.tcb, s'.ba, s'.b.conn.tcb.rcvNxt) && !Stalled(s'.a.conn.tcb)
  {
    hide Handle, Store, Fits;
    TakesNextBytes(s.b.conn, s.ab[0].seg);
  }

  // ---------------------------------------------------------------------------------------------------
  // A write that finds the window closed
  // ---------------------------------------------------------------------------------------------------

  /**
   What a turn with a closed window sends is taken for the next stretch of the stream: the peer then has a prefix
   of what was written if and only if all bytes of the turn are equal.
   */
  lemma ClosedTurnShiftsStream(x: Side, y: Side, data: seq<byte>)
    requires Receives(x, y) && x.conn.tcb.Shaped() && x.conn.tcb.sendLbr == x.conn.tcb.sendNxt
    requires y.conn.status == Established && y.conn.tcb.rcvNxt == 1 + |x.written|
    requires x.conn.tcb.sendWnd == 0 && 2 <= |data| <= MSS && |data| - 1 <= y.conn.tcb.rcvWnd
    requires var seg := WriteTurn(x.conn, data).1; InWindow(y.conn, seg) && !AckRefused(y.conn.tcb, seg.ackNum)
    ensures var y' := Handle(y.conn, WriteTurn(x.conn, data).1).conn;
            && y'.tcb.Shaped() && y.read + y'.tcb.Buffered() == x.written + data[1..]
            && (y.read + y'.tcb.Buffered() <= x.written + data <==> data[1..] == data[..|data| - 1])
  {
    hide Wrap, Store, Handle, InWindow, AckRefused, WriteTurn, Window, HandleAck;
    TurnSendsExactlyIff(x.conn, data);
    TurnIsPlain(x.conn, data);
    var seg, t := WriteTurn(x.conn, data).1, y.conn.tcb;
    HandleEstablished(y.conn, seg);
    var t' := Handle(y.conn, seg).conn.tcb;
    StoreExtendsWindow(t.rcvBuf, t.rcvLbr, t.rcvNxt, seg.payload);
    assert t'.Buffered() == t.Buffered() + data[1..];
    assert y.read + (t.Buffered() + data[1..]) == (y.read + t.Buffered()) + data[1..];
    assert x.written[..t.rcvNxt - 1] == x.written;
    PrefixIff(x.written, data);
  }

  lemma TurnIsPlain(c: Conn, data: seq<byte>)
    requires c.tcb.Shaped() && |data| > 0
    ensures WriteTurn(c, data).1.flags == ACK
  {
    hide Wrap, Store, Window;
  }

  lemma PrefixIff(written: seq<byte>, data: seq<byte>)
    requires data != []
    ensures written + data[1..] <= written + data <==> data[1..] == data[..|data| - 1]
  {
    var n := |data| - 1;
    assert (written + data)[..|written| + n] == written + data[..n];
    assert (written + data[1..])[|written|..] == data[1..] && (written + data[..n])[|written|..] == data[..n];
  }

  /**
   What the retransmission timer sends is a copy in the sense of `Resend`, as long as the queue covers what is
   outstanding.
   */
  lemma TimerSendsACopy(s: System)
    requires Sends(s.a) && s.a.conn.tcb.sendUna < s.a.conn.tcb.sendNxt
    requires var c := s.a.conn; Covers(c.queue, c.tcb.iss, c.tcb.sendUna, c.tcb.sendNxt, s.a.written)
    requires s.a.conn.queue != [] && var e := s.a.conn.queue[|s.a.conn.queue| - 1]; e.flags == ACK && |e.payload| <= MSS
    ensures var c := s.a.conn;
            var length := |c.queue[|c.queue| - 1].payload|;
            var at := c.tcb.sendNxt - length;
            Enabled(s, Resend(at, length)) && Retransmit(c) == [Copy(s.a, at, length).seg]
  {
    hide Wrap, Tiles, Window, SendCapacity;
    var c := s.a.conn;
    CoverEndsWithNewest(c.queue, c.tcb.iss, c.tcb.sendUna, c.tcb.sendNxt, s.a.written);
  }
}
