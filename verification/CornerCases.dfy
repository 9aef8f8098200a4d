/** Runs from the opening of a connection that end where one would not expect, one for each limit found elsewhere. */
module CornerCases {
  import opened Words
  import opened Sequence
  import opened Segments
  import opened RetransmitQueue
  import opened Tcb
  import opened ConnectionModel
  import opened Lifecycle
  import opened Outstanding
  import opened Handshake
  import DataPath
  import Openings

  predicate FromConnect(t: TcbState, states: seq<Conn>, events: seq<Event>) {
    Lifecycle.IsRun(states, events) && states[0] == Connect(t).conn
  }

  lemma OneMoreStep(t: TcbState, states: seq<Conn>, events: seq<Event>, ev: Event)
    requires FromConnect(t, states, events) && Allowed(states[|events|], ev)
    ensures FromConnect(t, states + [Lifecycle.Next(states[|events|], ev)], events + [ev])
  {
    hide Allowed, Lifecycle.Next;
  }

  // ---------------------------------------------------------------------------------------------------
  // Established, and nothing but data sent since
  // ---------------------------------------------------------------------------------------------------

  /** Established with the peer's numbers starting at 0, everything up to `una` acknowledged and up to `nxt` sent. */
  predicate Sending(c: Conn, iss: uint32, una: nat, nxt: nat) {
    var t := c.tcb;
    && c.status == Established && t.Shaped() && t.iss == iss && t.irs == 0
    && t.sendUna == una && t.sendNxt == nxt && t.sendLbr == nxt
    && t.rcvNxt == 1 && t.rcvWnd == TCB_SIZE && t.sendWnd > 0
  }

  function AckFor(iss: uint32, pointer: nat): Segment {
    Segment(1, Wrap(iss, pointer), ACK, TCB_SIZE, [])
  }

  function Zeros(n: nat): seq<byte> {
    seq(n, _ => 0)
  }

  function SynAckFor(t: TcbState): Segment {
    Segment(0, Wrap(t.iss, 1), SYN_ACK, TCB_SIZE, [])
  }

  lemma SynAckOpens(t: TcbState)
    requires Blank(t) && t.iss + 1 < TWO32
    ensures Allowed(Connect(t).conn, Receive(SynAckFor(t)))
    ensures var c := Lifecycle.Next(Connect(t).conn, Receive(SynAckFor(t)));
            Sending(c, t.iss, 1, 1) && c.queue == Kept([Entry(t.iss, SYN, [])], t.iss + 1)
            && c.tcb.sendWl1 == 0 && c.tcb.rcvLbr == 1 && c.registered
  {
    hide HandleSynSent, Handle, Kept, Covers, Connect, Wrap, Allowed, Remembers, SendOk, Blank;
    ConnectHandles(t, SynAckFor(t));
    WrapOfOne(t.iss);
    Openings.ClientAfterOpening(t, SynAckFor(t));
    SynSentSendSide(Connect(t).conn, SynAckFor(t));
  }

  lemma ConnectHandles(t: TcbState, seg: Segment)
    requires Blank(t)
    ensures var c := Connect(t).conn;
            && SendOk(c) && c.status == SynSent && c.tcb.iss == t.iss && c.queue == [Entry(t.iss, SYN, [])]
            && Allowed(c, Receive(seg)) && Handle(c, seg) == HandleSynSent(c, seg)
  {
    hide HandleSynSent, HandleOther, Wrap;
  }

  lemma SynIsPopped(iss: uint32)
    requires iss + 1 < TWO32
    ensures Kept([Entry(iss, SYN, [])], iss + 1) == []
  {
    CompareMeansBehind(iss, iss + 1);
    KeptStep([Entry(iss, SYN, [])], iss + 1);
    assert [Entry(iss, SYN, [])][..0] == [];
  }

  lemma ClientOpens(t: TcbState) returns (states: seq<Conn>, events: seq<Event>)
    requires Blank(t) && t.iss + 1 < TWO32
    ensures FromConnect(t, states, events) && |events| == 1
    ensures var c := states[1];
            Sending(c, t.iss, 1, 1) && c.queue == [] && c.tcb.sendWl1 == 0 && c.tcb.rcvLbr == 1 && c.registered
  {
    hide Lifecycle.Next, Allowed, Kept;
    var c := Connect(t).conn;
    var ev := Receive(SynAckFor(t));
    states, events := [c], [];
    SynAckOpens(t);
    SynIsPopped(t.iss);
    OneMoreStep(t, states, events, ev);
    states, events := states + [Lifecycle.Next(c, ev)], events + [ev];
  }

  /** One segment of data. */
  lemma WriteOne(c: Conn, iss: uint32, una: nat, nxt: nat, n: nat)
    requires Sending(c, iss, una, nxt) && 0 < n <= MSS && nxt + n < TWO32 && una <= nxt
    requires nxt + n - una <= TCB_SIZE
    ensures Allowed(c, WriteData(Zeros(n)))
    ensures var c' := Lifecycle.Next(c, WriteData(Zeros(n)));
            Sending(c', iss, una, nxt + n) && c'.queue == c.queue + [Entry(Wrap(iss, nxt), ACK, Zeros(n))]
            && c'.tcb.sendWl1 == c.tcb.sendWl1
  {
    hide Store, Wrap;
    WriteSegmentSends(c, Zeros(n));
  }

  /** A plain acknowledgment that is acceptable moves SND.UNA, cleans the queue up and may change the window. */
  lemma PlainAck(c: Conn, seg: Segment)
    requires c.status == Established && c.tcb.Shaped()
    requires c.tcb.irs == 0 && c.tcb.rcvNxt == 1 && c.tcb.rcvWnd == TCB_SIZE
    requires seg.flags == ACK && seg.payload == [] && seg.seqNum == 1 && seg.ackNum <= c.tcb.WrappedSendNxt()
    ensures Fits(c, seg)
    ensures Handle(c, seg).conn
            == if c.tcb.WrappedUna() < seg.ackNum then UpdateWindow(Acknowledge(c, seg.ackNum), seg) else c
  {
    hide Kept, Handle, Acknowledge, UpdateWindow;
    assert InWindow(c, seg);
    DataPath.HandleEstablished(c, seg);
    AckTaken(c, seg);
  }

  lemma AckTaken(c: Conn, seg: Segment)
    requires c.status == Established && seg.ackNum <= c.tcb.WrappedSendNxt()
    ensures !AckRefused(c.tcb, seg.ackNum)
    ensures HandleAck(c, seg).conn
            == if c.tcb.WrappedUna() < seg.ackNum then UpdateWindow(Acknowledge(c, seg.ackNum), seg) else c
  {
    hide Wrap, Kept, WrappedDist;
  }

  /** A plain acknowledgment of everything up to `pointer`. */
  lemma AckOne(c: Conn, iss: uint32, una: nat, nxt: nat, pointer: nat)
    requires Sending(c, iss, una, nxt) && iss + nxt < TWO32 && una <= pointer <= nxt && pointer <= una + TCB_SIZE
    ensures Allowed(c, Receive(AckFor(iss, pointer)))
    ensures var c' := Lifecycle.Next(c, Receive(AckFor(iss, pointer)));
            Sending(c', iss, pointer, nxt)
            && c'.queue == if una == pointer then c.queue else Kept(c.queue, Wrap(iss, pointer))
  {
    hide Kept, Handle, Fits;
    assert c.tcb.WrappedUna() == iss + una && c.tcb.WrappedSendNxt() == iss + nxt;
    assert Wrap(iss, pointer) == iss + pointer;
    PlainAck(c, AckFor(iss, pointer));
  }

  // ---------------------------------------------------------------------------------------------------
  // An acknowledgment inside a segment
  // ---------------------------------------------------------------------------------------------------

  /** Two bytes written, one acknowledged: the other is not acknowledged, and nothing is left that could resend it. */
  lemma HalfASegmentIsForgotten(t: TcbState) returns (states: seq<Conn>, events: seq<Event>)
    requires Blank(t) && t.iss == 0
    ensures FromConnect(t, states, events)
    ensures var c := states[|events|];
            c.status == Established && c.tcb.sendUna == 2 && c.tcb.sendNxt == 3 && c.queue == []
            && !Remembers(c, Zeros(2))
  {
    hide Lifecycle.Next, Allowed, Kept, Wrap, Covers;
    states, events := ClientOpens(t);
    var c1 := states[1];
    WriteOne(c1, 0, 1, 1, 2);
    OneMoreStep(t, states, events, WriteData(Zeros(2)));
    var c2 := Lifecycle.Next(c1, WriteData(Zeros(2)));
    states, events := states + [c2], events + [WriteData(Zeros(2))];
    AckOne(c2, 0, 1, 3, 2);
    OneMoreStep(t, states, events, Receive(AckFor(0, 2)));
    states, events := states + [Lifecycle.Next(c2, Receive(AckFor(0, 2)))], events + [Receive(AckFor(0, 2))];
    NewestIsPopped(c2.queue);
    NothingCoversNothing(0, 2, 3, Zeros(2));
  }

  lemma NewestIsPopped(q: seq<Entry>)
    requires |q| == 1 && q[0].seqNum == Wrap(0, 1)
    ensures Kept(q, Wrap(0, 2)) == []
  {
    CompareMeansBehind(1, 2);
    KeptStep(q, 2);
    KeptStep([], 2);
    assert q[..0] == [];
  }

  lemma NothingCoversNothing(iss: uint32, una: nat, nxt: nat, written: seq<byte>)
    requires una < nxt
    ensures !Covers([], iss, una, nxt, written)
  {
    if Covers([], iss, una, nxt, written) {
      CoverEndsWithNewest([], iss, una, nxt, written);
      assert false;
    }
  }

  // ---------------------------------------------------------------------------------------------------
  // A write that finds the window closed
  // ---------------------------------------------------------------------------------------------------

  /** An acknowledgment of everything up to `pointer`, with a window. */
  function WindowFor(pointer: nat, window: uint16): Segment {
    Segment(1, Wrap(0, pointer), ACK, window, [])
  }

  lemma WindowChanges(c: Conn, una: nat, nxt: nat, lbr: nat, window: uint16)
    requires var t := c.tcb;
             && c.status == Established && t.Shaped() && t.iss == 0 && t.irs == 0
             && t.sendUna == una && t.sendNxt == nxt && t.sendLbr == lbr && t.rcvNxt == 1 && t.rcvWnd == TCB_SIZE
    requires una < nxt < TWO32 && una < TCB_SIZE
    requires c.tcb.sendWl1 == 0 || (c.tcb.sendWl1 == 1 && c.tcb.sendWl2 <= Wrap(0, una + 1))
    ensures Allowed(c, Receive(WindowFor(una + 1, window)))
    ensures var c' := Lifecycle.Next(c, Receive(WindowFor(una + 1, window)));
            && c'.status == Established && OnlyAcknowledges(c.tcb, c'.tcb)
            && c'.tcb.sendUna == una + 1 && c'.tcb.sendWnd == window
            && c'.tcb.sendWl1 == 1 && c'.tcb.sendWl2 == Wrap(0, una + 1)
            && c'.queue == Kept(c.queue, Wrap(0, una + 1))
  {
    hide Kept, Handle, Fits;
    assert c.tcb.WrappedUna() == una && c.tcb.WrappedSendNxt() == nxt;
    assert Wrap(0, una + 1) == una + 1;
    PlainAck(c, WindowFor(una + 1, window));
  }

  /** Two bytes sent, the first acknowledged with a window of 0. */
  lemma WindowCloses(t: TcbState) returns (states: seq<Conn>, events: seq<Event>)
    requires Blank(t) && t.iss == 0
    ensures FromConnect(t, states, events)
    ensures var c := states[|events|];
            && c.status == Established && c.tcb.Shaped() && c.tcb.iss == 0 && c.tcb.irs == 0
            && c.tcb.sendUna == 2 && c.tcb.sendNxt == 3 && c.tcb.sendLbr == 3 && c.tcb.sendWnd == 0
            && c.tcb.rcvNxt == 1 && c.tcb.rcvWnd == TCB_SIZE
            && c.tcb.sendWl1 == 1 && c.tcb.sendWl2 == 2
            && c.queue == [Entry(1, ACK, Zeros(1)), Entry(2, ACK, Zeros(1))]
  {
    hide Lifecycle.Next, Allowed, Kept;
    states, events := ClientOpens(t);
    var c1 := states[1];
    WriteOne(c1, 0, 1, 1, 1);
    OneMoreStep(t, states, events, WriteData(Zeros(1)));
    var c2 := Lifecycle.Next(c1, WriteData(Zeros(1)));
    states, events := states + [c2], events + [WriteData(Zeros(1))];
    WriteOne(c2, 0, 1, 2, 1);
    OneMoreStep(t, states, events, WriteData(Zeros(1)));
    var c3 := Lifecycle.Next(c2, WriteData(Zeros(1)));
    states, events := states + [c3], events + [WriteData(Zeros(1))];
    WindowChanges(c3, 1, 3, 3, 0);
    OneMoreStep(t, states, events, Receive(WindowFor(2, 0)));
    states, events := states + [Lifecycle.Next(c3, Receive(WindowFor(2, 0)))], events + [Receive(WindowFor(2, 0))];
    KeptStep(c3.queue, 2);
    CompareMeansBehind(2, 2);
  }

  /**
   From there, two more bytes are written: a byte is taken out for a probe, the window opens again, and the rest
   is sent; the byte of the probe is not acknowledged, and nothing holds it.
   */
  lemma ClosedWindowForgets(t: TcbState) returns (states: seq<Conn>, events: seq<Event>)
    requires Blank(t) && t.iss == 0
    ensures FromConnect(t, states, events) && states[|events|].tcb.Shaped()
    ensures var waiting, opens := TakeProbe(states[|events|], Zeros(2)), Receive(WindowFor(3, TCB_SIZE));
            && states[|events|].status == Established && states[|events|].tcb.sendWnd == 0
            && Allowed(waiting, opens)
            && var open := Lifecycle.Next(waiting, opens);
               open.tcb.sendWnd > 0 && open.tcb.Shaped() && !Remembers(SendRest(open, 1).0, Zeros(4))
  {
    hide Lifecycle.Next, Allowed, TakeProbe, SendRest, Wrap, Kept, Covers;
    states, events := WindowCloses(t);
    var c := states[|events|];
    TakeProbeLeavesRest(c, Zeros(2));
    var waiting := TakeProbe(c, Zeros(2));
    BothArePopped(waiting.queue);
    WindowChanges(waiting, 2, 5, 4, TCB_SIZE);
    var open := Lifecycle.Next(waiting, Receive(WindowFor(3, TCB_SIZE)));
    assert open.tcb.Pending() == Zeros(2)[1..];
    RestIsSent(open);
    var rest := SendRest(open, 1).0;
    assert |open.tcb.Pending()| == 1 && |rest.queue| == 1 && Span(rest.queue[0]) == 1;
    assert rest.tcb.sendUna == 3 && rest.tcb.sendNxt == 5 && rest.tcb.iss == 0 && rest.queue == [rest.queue[0]];
    LoneLateEntry(rest.queue[0], 0, 3, 5, Zeros(4));
  }

  lemma BothArePopped(q: seq<Entry>)
    requires q == [Entry(1, ACK, Zeros(1)), Entry(2, ACK, Zeros(1))]
    ensures Wrap(0, 3) == 3 && Kept(q, 3) == []
  {
    KeptStep(q, 3);
    KeptStep(q[..1], 3);
    assert q[..1][..0] == [];
    CompareMeansBehind(1, 3);
    CompareMeansBehind(2, 3);
    KeptStep([], 3);
  }

  lemma LoneLateEntry(e: Entry, iss: uint32, una: nat, nxt: nat, written: seq<byte>)
    requires una + Span(e) < nxt
    ensures !Covers([e], iss, una, nxt, written)
  {
    hide Wrap;
    var q := [e];
    assert q[0..] == [e] && q[1..] == [] && [e][..0] == [];
    forall k: nat, lo: nat {:trigger Tiles(q[k..], iss, lo, nxt, written)} | k <= |q| && lo <= una
      ensures !Tiles(q[k..], iss, lo, nxt, written)
    {
      if k == 0 {
        assert q[k..] == [e];
      }
    }
  }

  // ---------------------------------------------------------------------------------------------------
  // FIN-WAIT-2 across 2^32
  // ---------------------------------------------------------------------------------------------------

  /** Closed at once with the FIN numbered 2^32 - 1: its acknowledgment is 0, which moves the status but not SND.UNA. */
  lemma FinWait2TooEarly(t: TcbState) returns (states: seq<Conn>, events: seq<Event>)
    requires Blank(t) && t.iss == TWO32 - 2
    ensures FromConnect(t, states, events) && forall i :: 0 <= i < |events| ==> CarriesAck(events[i])
    ensures var c := states[|events|]; c.status == FinWait2 && c.tcb.sendUna == 1 && c.tcb.sendNxt == 2
  {
    states, events := ClientOpens(t);
    var c1 := states[1];
    OneMoreStep(t, states, events, Shut);
    var c2 := Lifecycle.Next(c1, Shut);
    states, events := states + [c2], events + [Shut];
    var ev := Receive(AckFor(t.iss, 2));
    OneMoreStep(t, states, events, ev);
    states, events := states + [Lifecycle.Next(c2, ev)], events + [ev];
  }

  // ---------------------------------------------------------------------------------------------------
  // A backlog of more than 65535
  // ---------------------------------------------------------------------------------------------------

  /** n one-byte segments, each but the last acknowledged after the next one was sent. */
  predicate Pumped(c: Conn, n: nat) {
    && Sending(c, 0, if n == 0 then 1 else n, n + 1)
    && |c.queue| == n && (n > 0 ==> c.queue[0] == Entry(1, ACK, Zeros(1)) && c.queue[n - 1].seqNum == Wrap(0, n))
  }

  lemma {:induction false} Pump(t: TcbState, n: nat) returns (states: seq<Conn>, events: seq<Event>)
    requires Blank(t) && t.iss == 0 && n <= 70000
    ensures FromConnect(t, states, events) && Pumped(states[|events|], n)
  {
    hide Lifecycle.Next, Allowed;
    if n == 0 {
      states, events := ClientOpens(t);
    } else {
      states, events := Pump(t, n - 1);
      var c := states[|events|];
      var una := if n == 1 then 1 else n - 1;
      WriteOne(c, 0, una, n, 1);
      OneMoreStep(t, states, events, WriteData(Zeros(1)));
      var c1 := Lifecycle.Next(c, WriteData(Zeros(1)));
      states, events := states + [c1], events + [WriteData(Zeros(1))];
      AckOne(c1, 0, una, n + 1, n);
      OneMoreStep(t, states, events, Receive(AckFor(0, n)));
      states, events := states + [Lifecycle.Next(c1, Receive(AckFor(0, n)))], events + [Receive(AckFor(0, n))];
      KeptStep(c1.queue, Wrap(0, n));
      CompareMeansBehind(Wrap(0, n), Wrap(0, n));
    }
  }

  /** After 65537 such segments everything is acknowledged, and the first segment is still in the queue. */
  lemma AnAckedEntryStays(t: TcbState) returns (states: seq<Conn>, events: seq<Event>)
    requires Blank(t) && t.iss == 0
    ensures FromConnect(t, states, events)
    ensures var c := states[|events|];
            c.status == Established && c.tcb.sendUna == c.tcb.sendNxt == 65538 && c.tcb.iss == 0
            && c.queue != [] && c.queue[0] == Entry(Wrap(0, 1), ACK, Zeros(1))
  {
    hide Lifecycle.Next, Allowed;
    var n := 65537;
    states, events := Pump(t, n);
    var c := states[|events|];
    AckOne(c, 0, n, n + 1, n + 1);
    OneMoreStep(t, states, events, Receive(AckFor(0, n + 1)));
    states, events := states + [Lifecycle.Next(c, Receive(AckFor(0, n + 1)))], events + [Receive(AckFor(0, n + 1))];
    OldestIsKept(c.queue, 0, 1, n + 1);
  }

  lemma OldestIsKept(q: seq<Entry>, iss: uint32, at: nat, una: nat)
    requires q != [] && q[0].seqNum == Wrap(iss, at) && at + TCB_SIZE < una < at + TWO32
    ensures Kept(q, Wrap(iss, una)) != [] && Kept(q, Wrap(iss, una))[0] == q[0]
  {
    PoppedIff(iss, at, una);
  }

  /** Once the oldest entry is more than 65535 behind SND.UNA, no step drops it until SND.UNA is 2^32 ahead of it. */
  lemma StepKeepsOldest(c: Conn, ev: Event, at: nat)
    requires SendOk(c) && Allowed(c, ev)
    requires c.queue != [] && c.queue[0].seqNum == Wrap(c.tcb.iss, at) && at + TCB_SIZE < c.tcb.sendUna
    requires Lifecycle.Next(c, ev).status != Closed && Lifecycle.Next(c, ev).tcb.sendUna < at + TWO32
    ensures var c' := Lifecycle.Next(c, ev);
            c'.queue != [] && c'.queue[0] == c.queue[0] && c.tcb.sendUna <= c'.tcb.sendUna
  {
    hide Wrap, Kept, WrappedDist, HandleSynSent, HandleOther, SegmentAcceptable, WriteSegment, SendCapacity;
    match ev
    case Receive(seg) =>
      HandleSendSide(c, seg);
      OldestIsKeptBy(c.queue, c.tcb.iss, at, Lifecycle.Next(c, ev).tcb.sendUna);
    case WriteData(data) => WriteSegmentSends(c, data);
    case _ =>
  }

  lemma OldestIsKeptBy(q: seq<Entry>, iss: uint32, at: nat, una: nat)
    requires q != [] && q[0].seqNum == Wrap(iss, at)
    ensures at + TCB_SIZE < una < at + TWO32 ==> Kept(q, Wrap(iss, una)) != [] && Kept(q, Wrap(iss, una))[0] == q[0]
  {
    if at + TCB_SIZE < una < at + TWO32 {
      OldestIsKept(q, iss, at, una);
    }
  }

  lemma {:induction false} OldestStays(states: seq<Conn>, events: seq<Event>, at: nat)
    requires Lifecycle.IsRun(states, events) && SendOk(states[0])
    requires var c := states[0];
             c.queue != [] && c.queue[0].seqNum == Wrap(c.tcb.iss, at) && at + TCB_SIZE < c.tcb.sendUna
    requires forall i :: 0 <= i <= |events| ==> states[i].status != Closed && states[i].tcb.sendUna < at + TWO32
    ensures var c := states[|events|];
            && SendOk(c) && c.tcb.iss == states[0].tcb.iss && states[0].tcb.sendUna <= c.tcb.sendUna
            && c.queue != [] && c.queue[0] == states[0].queue[0]
  {
    if events != [] {
      var n := |events| - 1;
      hide Lifecycle.Next, Allowed, SendOk, Wrap;
      OldestStays(states[..n + 1], events[..n], at);
      assert states[n + 1] == Lifecycle.Next(states[n], events[n]);
      StepKeepsSendOk(states[n], events[n]);
      StepKeepsOldest(states[n], events[n], at);
    }
  }

  // ---------------------------------------------------------------------------------------------------
  // Closed again and again
  // ---------------------------------------------------------------------------------------------------

  /** A run in which `VClose` may be called in any status. */
  predicate FromConnectLoosely(t: TcbState, states: seq<Conn>, events: seq<Event>) {
    IsLooseRun(states, events) && states[0] == Connect(t).conn
  }

  /** n bytes received and none read. */
  predicate Filling(c: Conn, n: nat) {
    var t := c.tcb;
    && c.status == Established && c.registered && t.Shaped() && t.iss == 0 && t.irs == 0
    && t.sendUna == 1 && t.sendNxt == 1 && t.sendLbr == 1
    && n <= TCB_SIZE && t.rcvNxt == 1 + n && t.rcvWnd == TCB_SIZE - n
  }

  function ByteFor(n: nat): Segment {
    Segment(Wrap(0, 1 + n), Wrap(0, 1), ACK, TCB_SIZE, [0])
  }

  lemma TakesByte(c: Conn, n: nat)
    requires Filling(c, n) && n < TCB_SIZE
    ensures Allowed(c, Receive(ByteFor(n))) && Filling(Lifecycle.Next(c, Receive(ByteFor(n))), n + 1)
  {
    hide Store, Handle, Fits;
    DataPath.TakesNextBytes(c, ByteFor(n));
  }

  lemma {:induction false} Fill(t: TcbState, n: nat) returns (states: seq<Conn>, events: seq<Event>)
    requires Blank(t) && t.iss == 0 && n <= TCB_SIZE
    ensures FromConnect(t, states, events) && Filling(states[|events|], n)
  {
    hide Lifecycle.Next, Allowed;
    if n == 0 {
      states, events := ClientOpens(t);
    } else {
      states, events := Fill(t, n - 1);
      var c := states[|events|];
      TakesByte(c, n - 1);
      OneMoreStep(t, states, events, Receive(ByteFor(n - 1)));
      states, events := states + [Lifecycle.Next(c, Receive(ByteFor(n - 1)))], events + [Receive(ByteFor(n - 1))];
    }
  }

  /** Nothing more fits, so that only the next sequence number is acceptable, and the connection is still there. */
  predicate FullAndClosing(c: Conn, status: Status) {
    c.status == status && c.registered && c.tcb.Shaped() && c.tcb.rcvWnd == 0
  }

  /** A FIN numbered RCV.NXT that acknowledges nothing of ours. */
  function FinFor(c: Conn): Segment {
    Segment(c.tcb.WrappedRcvNxt(), (c.tcb.WrappedSendNxt() + 1) % TWO32, Flags(false, false, false, true), 0, [])
  }

  lemma FinCloses(c: Conn)
    requires FullAndClosing(c, FinWait1)
    ensures Allowed(c, Receive(FinFor(c))) && FullAndClosing(Lifecycle.Next(c, Receive(FinFor(c))), Closing)
  {
    hide Wrap, WrappedDist;
    assert InWindow(c, FinFor(c));
  }

  lemma CloseReopens(c: Conn)
    requires c.registered && c.tcb.Shaped() && c.tcb.rcvWnd == 0 && c.status in {Established, Closing}
    ensures Possible(c, Shut) && FullAndClosing(After(c, Shut), FinWait1)
  {
    hide Wrap;
  }

  /** From CLOSING, `VClose` and the peer's FIN alternate without end. */
  lemma {:induction false} AlternatesForever(c: Conn, n: nat) returns (states: seq<Conn>, events: seq<Event>)
    requires FullAndClosing(c, Closing)
    ensures IsLooseRun(states, events) && states[0] == c && Changes(states) == 2 * n
    ensures FullAndClosing(states[|events|], Closing)
    ensures forall i :: 0 <= i < |events| ==> events[i] != Expire
  {
    if n == 0 {
      return [c], [];
    }
    states, events := AlternatesForever(c, n - 1);
    hide After, Possible, Allowed, Lifecycle.Next, Changes;
    var last := states[|events|];
    CloseReopens(last);
    var shut := After(last, Shut);
    FinCloses(shut);
    var ev := Receive(FinFor(shut));
    LooseStep(shut, ev);
    var closing := After(shut, ev);
    TwoMoreChanges(states, shut, closing);
    TwoLooseSteps(states, events, Shut, ev);
    states, events := states + [shut, closing], events + [Shut, ev];
  }

  lemma LooseStep(c: Conn, ev: Event)
    requires Allowed(c, ev) && ev != Shut
    ensures Possible(c, ev) && After(c, ev) == Lifecycle.Next(c, ev)
  {
    hide Lifecycle.Next;
  }

  lemma TwoLooseSteps(states: seq<Conn>, events: seq<Event>, ev: Event, ev': Event)
    requires IsLooseRun(states, events) && Possible(states[|events|], ev)
    requires Possible(After(states[|events|], ev), ev')
    ensures var c := After(states[|events|], ev); IsLooseRun(states + [c, After(c, ev')], events + [ev, ev'])
  {
    hide Possible, After;
  }

  lemma StrictIsLoose(states: seq<Conn>, events: seq<Event>)
    requires Lifecycle.IsRun(states, events)
    ensures IsLooseRun(states, events)
  {
    hide Allowed, Lifecycle.Next;
    forall i | 0 <= i < |events|
      ensures Possible(states[i], events[i]) && states[i + 1] == After(states[i], events[i])
    {
      StrictStepIsLoose(states[i], events[i]);
    }
  }

  lemma StrictStepIsLoose(c: Conn, ev: Event)
    requires Allowed(c, ev)
    ensures Possible(c, ev) && After(c, ev) == Lifecycle.Next(c, ev)
  {
    hide Handle, WriteSegment, Close, Read;
  }

  /**
   A run from an opening, without any timer: the receive buffer fills up, and then `VClose` in CLOSING and FINs of
   the peer change the status as often as one likes.
   */
  lemma ClosingAgainNeverEnds(t: TcbState, n: nat)
    returns (states: seq<Conn>, events: seq<Event>, more: seq<Conn>, further: seq<Event>)
    requires Blank(t) && t.iss == 0
    ensures FromConnectLoosely(t, states, events)
    ensures IsLooseRun(more, further) && more[0] == states[|events|] && Changes(more) == 2 * n
    ensures FullAndClosing(more[|further|], Closing) && forall i :: 0 <= i < |further| ==> further[i] != Expire
  {
    hide After, Possible, Allowed, Lifecycle.Next, Changes;
    states, events := Fill(t, TCB_SIZE);
    StrictIsLoose(states, events);
    var c := states[|events|];
    CloseReopens(c);
    var shut := After(c, Shut);
    FinCloses(shut);
    var ev := Receive(FinFor(shut));
    LooseStep(shut, ev);
    TwoLooseSteps(states, events, Shut, ev);
    states, events := states + [shut, After(shut, ev)], events + [Shut, ev];
    more, further := AlternatesForever(states[|events|], n);
  }
}
