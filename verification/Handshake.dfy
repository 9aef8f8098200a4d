/**
 One client and one listener over a channel that loses, duplicates and reorders segments but does not forge
 them. The endpoints may do anything else that a connection does: write, close, time out, resend. Whenever the
 listener's connection has been deleted, it may accept again.
 */
module Handshake {
  import opened Words
  import opened Sequence
  import opened Segments
  import opened RetransmitQueue
  import opened Tcb
  import opened ConnectionModel
  import opened Lifecycle
  import opened Outstanding

  /**
   Segments are never taken out of the sets: each may arrive never, once or again. `former` holds the initial
   sequence numbers of the listener's connections before this one.
   */
  datatype Net = Net(
    client: Conn, clientEstablished: bool, server: Option<Conn>, former: set<uint32>,
    toServer: set<Segment>, toClient: set<Segment>)

  datatype Step =
    | ClientStep(ev: Event)
    | ServerStep(ev: Event)
    | ListenerAccepts(syn: Segment, blank: TcbState)
    | ListenerResets(seg: Segment)

  function Sent(c: Conn, ev: Event): seq<Segment>
    requires Allowed(c, ev)
  {
    match ev
    case Receive(seg) => Handle(c, seg).out
    case WriteData(data) => [WriteSegment(c, data).1]
    case ReadData(_) => []
    case Shut => Close(c).out
    case Expire => []
    case Resend => Retransmit(c)
  }

  /** createTCB. */
  predicate Blank(t: TcbState) {
    t.Shaped() && t.sendUna == 0 && t.sendNxt == 1 && t.sendLbr == 1 && t.rcvWnd == TCB_SIZE
  }

  /** No connection of the listener takes the segments, so the listener itself does. */
  predicate Vacant(n: Net) {
    n.server.Some? ==> n.server.value.status == Closed && !n.server.value.registered
  }

  predicate Enabled(n: Net, step: Step) {
    match step
    case ClientStep(ev) => Allowed(n.client, ev) && (ev.Receive? ==> ev.seg in n.toClient)
    case ServerStep(ev) => n.server.Some? && Allowed(n.server.value, ev) && (ev.Receive? ==> ev.seg in n.toServer)
    case ListenerAccepts(syn, blank) =>
      Vacant(n) && syn in n.toServer && syn.flags.syn && !syn.flags.rst && !syn.flags.ack && Blank(blank)
    case ListenerResets(seg) =>
      Vacant(n) && seg in n.toServer && seg.flags.ack && !seg.flags.rst
  }

  function All(out: seq<Segment>): set<Segment> {
    set o | o in out
  }

  /** The initial sequence numbers of all connections of the listener. */
  function Isses(n: Net): set<uint32> {
    n.former + if n.server.Some? then {n.server.value.tcb.iss} else {}
  }

  function Do(n: Net, step: Step): Net
    requires Enabled(n, step)
  {
    match step
    case ClientStep(ev) =>
      var c := Lifecycle.Next(n.client, ev);
      n.(client := c, clientEstablished := n.clientEstablished || c.status == Established,
         toServer := n.toServer + All(Sent(n.client, ev)))
    case ServerStep(ev) =>
      n.(server := Some(Lifecycle.Next(n.server.value, ev)), toClient := n.toClient + All(Sent(n.server.value, ev)))
    case ListenerAccepts(syn, blank) =>
      var r := Accept(blank, syn);
      n.(server := Some(r.conn), former := Isses(n), toClient := n.toClient + All(r.out))
    case ListenerResets(seg) =>
      n.(toClient := n.toClient + {Segment(0, seg.ackNum, RST, 0, [])})
  }

  /** VConnect was called, and nothing else has happened. */
  ghost predicate Start(n: Net) {
    exists t: TcbState :: Blank(t) && t.irs == 0
      && n == Net(Connect(t).conn, false, None, {}, All(Connect(t).out), {})
  }

  // ---------------------------------------------------------------------------------------------------
  // What a connection past SYN-SENT does
  // ---------------------------------------------------------------------------------------------------

  predicate Forward(c: Conn, c': Conn) {
    && c'.tcb.iss == c.tcb.iss && c'.tcb.irs == c.tcb.irs
    && c.tcb.sendUna <= c'.tcb.sendUna && c.tcb.rcvNxt <= c'.tcb.rcvNxt
  }

  predicate PlainOut(o: Segment) {
    o.payload == [] && (o.flags == RST || o.flags == ACK)
  }

  lemma ProcessOut(c: Conn, out: seq<Segment>, seg: Segment)
    requires c.tcb.Shaped() && (Stores(c.status) ==> |seg.payload| <= c.tcb.rcvWnd)
    requires forall o :: o in out ==> PlainOut(o)
    ensures var r := Process(c, out, seg); Forward(c, r.conn) && forall o :: o in r.out ==> PlainOut(o)
    ensures seg.payload == [] && !seg.flags.fin ==> Process(c, out, seg).conn == c && Process(c, out, seg).out == out
  {
    hide Wrap, Store, Window;
  }

  /** What the handler sends is plain; a segment without payload and FIN is answered with RCV.NXT, which stays. */
  predicate HandledOut(c: Conn, seg: Segment, r: Outcome) {
    && Forward(c, r.conn) && (forall o :: o in r.out ==> PlainOut(o))
    && (seg.payload == [] && !seg.flags.fin ==>
          && r.conn.tcb.rcvNxt == c.tcb.rcvNxt
          && forall o :: o in r.out && o.flags == ACK ==> o.ackNum == c.tcb.WrappedRcvNxt())
  }

  lemma HandleAckOut(c: Conn, seg: Segment)
    requires c.tcb.Shaped() && seg.flags.ack && !Resets(c, seg)
    requires TakesInWindow(c, seg) ==> |seg.payload| <= c.tcb.rcvWnd
    ensures HandledOut(c, seg, HandleAckInWindow(c, seg))
  {
    hide Wrap, Process, Kept, WrappedDist, HandleAck, AckRefused, TcbState.Shaped;
    var c1 := OpenIfAcked(c, seg.ackNum);
    if c1.status == TimeWait {
      ProcessOut(c1, [], seg);
    } else if c1.status != LastAck {
      AckSendSide(c1, seg);
      RefusedIff(c1, seg);
      var r := HandleAck(c1, seg);
      if !r.dropped {
        ProcessOut(r.conn, r.out, seg);
      }
    }
  }

  lemma HandleOut(c: Conn, seg: Segment)
    requires c.tcb.Shaped() && Fits(c, seg) && c.status != SynSent
    ensures HandledOut(c, seg, Handle(c, seg))
  {
    hide Wrap, Process, HandleAckInWindow, SegmentAcceptable;
    if c.status != Closed && c.status != Listen && InWindow(c, seg) && !Resets(c, seg) {
      if seg.flags.ack {
        HandleAckOut(c, seg);
      } else {
        ProcessOut(c, [], seg);
      }
    }
  }

  /** The queue holds the SYN (with the flags `syn`), data and a FIN, nothing else. */
  predicate KnownQueue(c: Conn, syn: Flags) {
    forall e :: e in c.queue ==>
      e.flags in {syn, ACK, FIN_ACK} && (e.flags.syn ==> e == Entry(c.tcb.iss, syn, []))
  }

  /** What goes out: the SYN again, resets, and segments that acknowledge. */
  predicate KnownOut(c: Conn, syn: Flags, o: Segment) {
    if o.flags.syn then o.flags == syn && o.seqNum == c.tcb.iss && o.payload == []
    else o.flags == RST || o.flags == ACK || o.flags == FIN_ACK
  }

  /** Nothing arrives that would advance RCV.NXT. */
  predicate Quiet(ev: Event) {
    ev.Receive? ==> ev.seg.payload == [] && !ev.seg.flags.fin
  }

  /** What a step past SYN-SENT may do to the connection and put in the channel. */
  predicate StepOutOk(c: Conn, ev: Event, syn: Flags, c': Conn, out: seq<Segment>) {
    && Forward(c, c') && c.tcb.sendNxt <= c'.tcb.sendNxt && KnownQueue(c', syn) && c'.status != SynSent
    && (forall o :: o in out ==> KnownOut(c, syn, o))
    && (Quiet(ev) ==> c'.tcb.rcvNxt == c.tcb.rcvNxt
                      && forall o :: o in out && o.flags.ack ==> o.ackNum == c.tcb.WrappedRcvNxt())
    && (!ev.WriteData? && !ev.Resend? ==> forall o :: o in out ==> o.payload == [] && !o.flags.syn)
    && (ev.Receive? || ev.ReadData? || ev.Expire? ==> forall o :: o in out ==> !o.flags.fin)
  }

  lemma ReceiveOut(c: Conn, seg: Segment, syn: Flags)
    requires SendOk(c) && Allowed(c, Receive(seg)) && c.status != SynSent && KnownQueue(c, syn) && syn in {SYN, SYN_ACK}
    ensures StepOutOk(c, Receive(seg), syn, Handle(c, seg).conn, Handle(c, seg).out)
  {
    hide Wrap, Kept, Handle, SegmentAcceptable, Path;
    HandleOut(c, seg);
    HandleSendSide(c, seg);
    StepFollowsFigure5(c, Receive(seg));
    NeverBackToSynSent(c, seg);
    KeptIsPrefix(c.queue, Handle(c, seg).conn.tcb.WrappedUna());
  }

  lemma NeverBackToSynSent(c: Conn, seg: Segment)
    requires c.tcb.Shaped() && Fits(c, seg) && c.status != SynSent
    ensures Handle(c, seg).conn.status != SynSent
  {
    HandleStatus(c, seg);
    hide HandleOther, TcbState.Shaped, Fits;
  }

  lemma StepOut(c: Conn, ev: Event, syn: Flags)
    requires SendOk(c) && Allowed(c, ev) && c.status != SynSent && KnownQueue(c, syn) && syn in {SYN, SYN_ACK}
    ensures StepOutOk(c, ev, syn, Lifecycle.Next(c, ev), Sent(c, ev))
  {
    hide Wrap, Handle, WriteSegment, SendCapacity;
    match ev
    case Receive(seg) => ReceiveOut(c, seg, syn);
    case WriteData(data) => WriteSegmentSends(c, data);
    case ReadData(count) =>
    case Shut =>
    case Expire =>
    case Resend =>
  }

  lemma KeptIsPrefix(q: seq<Entry>, una: uint32)
    ensures forall e :: e in Kept(q, una) ==> e in q
  {
  }

  // ---------------------------------------------------------------------------------------------------
  // The two openings
  // ---------------------------------------------------------------------------------------------------

  /** The client in SYN-SENT, when the only SYN it can get is one that also acknowledges. */
  lemma SynSentOut(c: Conn, seg: Segment)
    requires SendOk(c) && c.status == SynSent && (seg.flags.syn ==> seg.flags == SYN_ACK)
    ensures var r := HandleSynSent(c, seg);
            || (r.conn == c && forall o :: o in r.out ==> o.flags == RST)
            || (r.conn == CloseDelete(c) && r.out == [])
            || (seg.flags.syn && r.conn.status == Established && r.conn.tcb.iss == c.tcb.iss
                && r.conn.tcb.irs == seg.seqNum && r.conn.tcb.sendUna == 1 && r.conn.tcb.rcvNxt == 1
                && r.conn.queue == Kept(c.queue, Wrap(c.tcb.iss, 1))
                && |r.out| == 1 && r.out[0].flags == ACK && r.out[0].ackNum == Wrap(seg.seqNum, 1))
  {
    hide Kept;
    var t := c.tcb;
    assert t.WrappedUna() == t.iss;
    if seg.flags.ack && t.iss < seg.ackNum && seg.ackNum <= t.WrappedSendNxt() {
      AcceptedAckIsExact(t.iss, 0, 1, seg.ackNum);
    }
  }

  /**
   The server in SYN-RECEIVED is established by exactly the acceptable segments that acknowledge from SND.UNA to
   SND.NXT; its SYN is acknowledged then only if the number is that behind it.
   */
  lemma SynRecvStep(c: Conn, seg: Segment)
    requires SendOk(c) && Allowed(c, Receive(seg)) && c.status == SynRecv && c.tcb.sendUna == 0 && c.tcb.sendNxt == 1
    ensures var c' := Handle(c, seg).conn;
            && (HasBeenEstablished(c'.status) <==> OpensServer(c, seg))
            && match c'.status
               case SynRecv => c'.tcb.sendUna == 0 && c'.tcb.sendNxt == 1 && c'.queue == c.queue
               case Established => c'.tcb.sendUna == if seg.ackNum == Wrap(c.tcb.iss, 1) then 1 else 0
               case CloseWait => c'.tcb.sendUna == if seg.ackNum == Wrap(c.tcb.iss, 1) then 1 else 0
               case Closed => true
               case _ => false
  {
    hide Process, SegmentAcceptable, Kept, OnlyAcknowledges, HandleAck, TcbState.Shaped;
    if InWindow(c, seg) && !Resets(c, seg) {
      if !seg.flags.ack {
        ProcessStatus(c, [], seg);
        ProcessSendSide(c, [], seg);
      } else {
        var c1 := OpenIfAcked(c, seg.ackNum);
        SynAcknowledged(c1, seg);
        var r := HandleAck(c1, seg);
        if !r.dropped {
          ProcessStatus(r.conn, r.out, seg);
          ProcessSendSide(r.conn, r.out, seg);
        }
      }
    }
  }

  /** The guard of the branch that establishes the server. */
  predicate OpensServer(c: Conn, seg: Segment) {
    InWindow(c, seg) && !Resets(c, seg) && seg.flags.ack && InSynWindow(c.tcb, seg.ackNum)
  }

  lemma SynAcknowledged(c: Conn, seg: Segment)
    requires c.tcb.sendUna == 0 && c.tcb.sendNxt == 1
    requires c.status == if InSynWindow(c.tcb, seg.ackNum) then Established else SynRecv
    ensures var r := HandleAck(c, seg);
            && r.conn.status == c.status && r.conn.tcb.sendNxt == 1
            && (c.status == Established ==>
                  !r.dropped && r.conn.tcb.sendUna == if seg.ackNum == Wrap(c.tcb.iss, 1) then 1 else 0)
            && (c.status == SynRecv ==> r.conn.tcb.sendUna == 0 && r.conn.queue == c.queue)
  {
    hide Kept;
    var t := c.tcb;
    assert t.WrappedUna() == t.iss;
    if AckAcceptable(t.WrappedUna(), t.WrappedSendNxt(), seg.ackNum) {
      AcceptedAckIsExact(t.iss, 0, 1, seg.ackNum);
    }
  }

  predicate HasBeenEstablished(s: Status) {
    s == Established || s == CloseWait || s == LastAck
  }

  // ---------------------------------------------------------------------------------------------------
  // What holds in every run
  // ---------------------------------------------------------------------------------------------------

  predicate ClientOk(n: Net) {
    var c := n.client;
    && SendOk(c) && KnownQueue(c, SYN)
    && (!n.clientEstablished ==> c.status in {SynSent, Closed} && forall e :: e in c.queue ==> e.flags == SYN)
    && (n.clientEstablished ==>
          && c.status != SynSent && n.server.Some?
          && c.tcb.irs in Isses(n) && c.tcb.sendUna >= 1 && c.tcb.rcvNxt >= 1)
  }

  predicate ServerOk(n: Net) {
    if n.server == None then n.former == {} else
      var s := n.server.value;
      && SendOk(s) && KnownQueue(s, SYN_ACK) && s.status !in {SynSent, Listen} && s.tcb.sendNxt >= 1
      && s.tcb.irs == n.client.tcb.iss && s.tcb.rcvNxt >= 1
      && (s.status == SynRecv ==>
            s.tcb.sendUna == 0 && s.tcb.sendNxt == 1 && s.queue == [Entry(s.tcb.iss, SYN_ACK, [])])
      && (HasBeenEstablished(s.status) ==> n.clientEstablished)
  }

  predicate InTransitOk(n: Net) {
    && (forall o :: o in n.toServer ==>
          (o.flags.syn ==> o.flags == SYN && o.seqNum == n.client.tcb.iss) && (o.flags.ack ==> n.clientEstablished))
    && (forall o :: o in n.toClient ==> o.flags.syn ==> o.flags == SYN_ACK && o.seqNum in Isses(n))
  }

  predicate Inv(n: Net) {
    ClientOk(n) && ServerOk(n) && InTransitOk(n)
  }

  lemma ClientOpens(n: Net, seg: Segment)
    requires Inv(n) && n.client.status == SynSent && SendOk(n.client) && Enabled(n, ClientStep(Receive(seg)))
    ensures Inv(Do(n, ClientStep(Receive(seg))))
  {
    hide Wrap, Handle, Kept, SendOk, Fits, TcbState.Shaped, KnownQueue;
    var c := n.client;
    ClientOpening(c, seg);
    StepKeepsSendOk(c, Receive(seg));
  }

  /** What the client's step comes to: it stays or is deleted, or is established with the other's number. */
  lemma ClientOpening(c: Conn, seg: Segment)
    requires SendOk(c) && c.status == SynSent && (seg.flags.syn ==> seg.flags == SYN_ACK)
    requires KnownQueue(c, SYN) && forall e :: e in c.queue ==> e.flags == SYN
    ensures var r := Handle(c, seg); var c' := r.conn;
            && KnownQueue(c', SYN) && c'.tcb.iss == c.tcb.iss
            && if c'.status == Established then
                 && seg.flags.syn && c'.tcb.irs == seg.seqNum && c'.tcb.sendUna == 1 && c'.tcb.rcvNxt == 1
                 && |r.out| == 1 && r.out[0].flags == ACK && r.out[0].ackNum == Wrap(seg.seqNum, 1)
               else
                 && c'.status in {SynSent, Closed} && (forall e :: e in c'.queue ==> e.flags == SYN)
                 && forall o :: o in r.out ==> o.flags == RST
  {
    hide Wrap, HandleSynSent, HandleOther, Kept, TcbState.Shaped;
    SynSentOut(c, seg);
    KeptIsPrefix(c.queue, Wrap(c.tcb.iss, 1));
  }

  lemma ClientWaits(n: Net, ev: Event)
    requires Inv(n) && n.client.status == SynSent && Enabled(n, ClientStep(ev)) && !ev.Receive?
    ensures Inv(Do(n, ClientStep(ev)))
  {
    hide Wrap, WriteSegment, Handle;
  }

  /** The client gave up before it was established. */
  lemma ClientGaveUp(n: Net, ev: Event)
    requires Inv(n) && n.client.status == Closed && !n.clientEstablished && Enabled(n, ClientStep(ev))
    ensures Inv(Do(n, ClientStep(ev)))
  {
    hide Wrap, WriteSegment, HandleOther, HandleSynSent;
  }

  lemma ClientRuns(n: Net, ev: Event)
    requires Inv(n) && n.clientEstablished && Enabled(n, ClientStep(ev))
    ensures Inv(Do(n, ClientStep(ev)))
  {
    hide Wrap, Handle, WriteSegment, Sent, Lifecycle.Next, SendOk, Allowed;
    var c := n.client;
    StepOut(c, ev, SYN);
    StepKeepsSendOk(c, ev);
    StepFollowsFigure5(c, ev);
  }

  lemma ListenerAcceptsOk(n: Net, syn: Segment, blank: TcbState)
    requires Inv(n) && Enabled(n, ListenerAccepts(syn, blank))
    ensures Inv(Do(n, ListenerAccepts(syn, blank)))
  {
    hide KnownQueue, SendOk, Wrap, Accept, TcbState.Shaped;
    AcceptedFacts(syn, blank);
    AcceptedQueue(blank, syn);
  }

  lemma AcceptedFacts(syn: Segment, blank: TcbState)
    requires Blank(blank)
    ensures var r := Accept(blank, syn); var s := r.conn;
            && SendOk(s) && s.status == SynRecv && s.registered
            && s.tcb.iss == blank.iss && s.tcb.irs == syn.seqNum && s.tcb.rcvNxt == 1 && s.tcb.rcvWnd == TCB_SIZE
            && s.tcb.sendUna == 0 && s.tcb.sendNxt == 1
            && |r.out| == 1 && r.out[0].flags == SYN_ACK && r.out[0].seqNum == blank.iss && r.out[0].payload == []
  {
  }

  lemma ListenerResetsOk(n: Net, seg: Segment)
    requires Inv(n) && Enabled(n, ListenerResets(seg))
    ensures Inv(Do(n, ListenerResets(seg)))
  {
    hide KnownQueue, SendOk, Wrap, Accept;
  }

  lemma AcceptedQueue(blank: TcbState, syn: Segment)
    ensures KnownQueue(Accept(blank, syn).conn, SYN_ACK)
    ensures Accept(blank, syn).conn.queue == [Entry(blank.iss, SYN_ACK, [])]
  {
  }

  lemma ServerOpens(n: Net, seg: Segment)
    requires Inv(n) && n.server.Some? && n.server.value.status == SynRecv && Enabled(n, ServerStep(Receive(seg)))
    ensures Inv(Do(n, ServerStep(Receive(seg))))
  {
    hide Wrap, Handle, SendOk, Allowed;
    var s := n.server.value;
    StepOut(s, Receive(seg), SYN_ACK);
    StepKeepsSendOk(s, Receive(seg));
    SynRecvStep(s, seg);
  }

  lemma ServerWaits(n: Net, ev: Event)
    requires Inv(n) && n.server.Some? && n.server.value.status == SynRecv && Enabled(n, ServerStep(ev)) && !ev.Receive?
    ensures Inv(Do(n, ServerStep(ev)))
  {
    hide Wrap, Handle, WriteSegment, SendOk;
    var s := n.server.value;
    StepOut(s, ev, SYN_ACK);
    StepKeepsSendOk(s, ev);
  }

  lemma ServerRuns(n: Net, ev: Event)
    requires Inv(n) && n.server.Some? && n.server.value.status != SynRecv && Enabled(n, ServerStep(ev))
    ensures Inv(Do(n, ServerStep(ev)))
    ensures HasBeenEstablished(Do(n, ServerStep(ev)).server.value.status) ==> HasBeenEstablished(n.server.value.status)
  {
    hide Wrap, Handle, WriteSegment, Sent, Lifecycle.Next, SendOk, Allowed;
    var s := n.server.value;
    StepOut(s, ev, SYN_ACK);
    StepKeepsSendOk(s, ev);
    StepFollowsFigure5(s, ev);
    OnlySynRecvEstablishes(s.status, Lifecycle.Next(s, ev).status);
  }

  lemma OnlySynRecvEstablishes(a: Status, b: Status)
    requires Path(a, b) && a !in {SynSent, Listen, SynRecv}
    ensures HasBeenEstablished(b) ==> HasBeenEstablished(a)
    ensures b != SynRecv
  {
  }

  lemma StepKeepsInv(n: Net, step: Step)
    requires Inv(n) && Enabled(n, step)
    ensures Inv(Do(n, step))
  {
    hide Do, Wrap, SendOk, KnownQueue, InTransitOk, Allowed;
    match step
    case ClientStep(ev) =>
      if n.clientEstablished {
        ClientRuns(n, ev);
      } else if n.client.status == Closed {
        ClientGaveUp(n, ev);
      } else if ev.Receive? {
        ClientOpens(n, ev.seg);
      } else {
        ClientWaits(n, ev);
      }
    case ServerStep(ev) =>
      if n.server.value.status != SynRecv {
        ServerRuns(n, ev);
      } else if ev.Receive? {
        ServerOpens(n, ev.seg);
      } else {
        ServerWaits(n, ev);
      }
    case ListenerAccepts(syn, blank) => ListenerAcceptsOk(n, syn, blank);
    case ListenerResets(seg) => ListenerResetsOk(n, seg);
  }

  predicate IsRun(states: seq<Net>, steps: seq<Step>) {
    && |states| == |steps| + 1
    && forall i :: 0 <= i < |steps| ==> Enabled(states[i], steps[i]) && states[i + 1] == Do(states[i], steps[i])
  }

  lemma StartInv(n: Net)
    requires Start(n)
    ensures Inv(n) && Agreed(n) && SilentInv(n) && Fresh(n)
  {
    var t: TcbState :| Blank(t) && t.irs == 0 && n == Net(Connect(t).conn, false, None, {}, All(Connect(t).out), {});
  }

  lemma {:induction false} RunKeepsInv(states: seq<Net>, steps: seq<Step>)
    requires IsRun(states, steps) && Start(states[0])
    ensures Inv(states[|steps|])
  {
    hide Inv, Enabled, Do, Start;
    if steps == [] {
      StartInv(states[0]);
    } else {
      var k := |steps| - 1;
      RunKeepsInv(states[..k + 1], steps[..k]);
      StepKeepsInv(states[k], steps[k]);
      assert states[k + 1] == Do(states[k], steps[k]);
    }
  }

  // ---------------------------------------------------------------------------------------------------
  // Agreement, and the segments that break it
  // ---------------------------------------------------------------------------------------------------

  /** A passive side that has been established met a client that has been too, and each knows the other's number. */
  predicate Agreed(n: Net) {
    n.server.Some? && HasBeenEstablished(n.server.value.status) ==>
      var c, s := n.client.tcb, n.server.value.tcb;
      && n.clientEstablished
      && s.irs == c.iss && c.irs == s.iss
      && s.sendUna >= 1 && s.rcvNxt >= 1 && c.sendUna >= 1 && c.rcvNxt >= 1
  }

  /** An acknowledgment that SYN-RECEIVED takes for its own, though it is not. */
  predicate Stale(n: Net, o: Segment)
    requires n.server.Some?
  {
    var s := n.server.value.tcb;
    o.flags.ack && InSynWindow(s, o.ackNum) && !(o.ackNum == Wrap(s.iss, 1) && n.client.tcb.irs == s.iss)
  }

  predicate NoneStale(n: Net) {
    n.server.Some? && n.server.value.status == SynRecv ==> forall o :: o in n.toServer ==> !Stale(n, o)
  }

  /** Exactly the stale acknowledgments that are otherwise acceptable break the agreement. */
  lemma StepDisagreesIff(n: Net, seg: Segment)
    requires Inv(n) && n.server.Some? && n.server.value.status == SynRecv && Enabled(n, ServerStep(Receive(seg)))
    ensures Agreed(Do(n, ServerStep(Receive(seg)))) <==> !(OpensServer(n.server.value, seg) && Stale(n, seg))
  {
    hide Wrap, Handle, SendOk, Allowed;
    var s := n.server.value;
    StepOut(s, Receive(seg), SYN_ACK);
    SynRecvStep(s, seg);
  }

  /** No other step does. */
  lemma StepKeepsAgreed(n: Net, step: Step)
    requires Inv(n) && Agreed(n) && Enabled(n, step)
    requires NoneStale(n)
    ensures Agreed(Do(n, step))
  {
    hide Wrap, SendOk, Allowed, KnownQueue;
    match step
    case ClientStep(ev) => ClientStaysAgreed(n, ev);
    case ServerStep(ev) =>
      if n.server.value.status != SynRecv {
        ServerStaysAgreed(n, ev);
      } else if ev.Receive? {
        StepDisagreesIff(n, ev.seg);
      } else {
        WaitingServerIsNotEstablished(n.server.value, ev);
      }
    case _ =>
  }

  lemma ClientStaysAgreed(n: Net, ev: Event)
    requires Inv(n) && Agreed(n) && Enabled(n, ClientStep(ev))
    ensures Agreed(Do(n, ClientStep(ev)))
  {
    hide Wrap, Handle, WriteSegment, Sent, Lifecycle.Next, SendOk, Allowed, KnownQueue, InTransitOk;
    if n.server.Some? && HasBeenEstablished(n.server.value.status) {
      StepOut(n.client, ev, SYN);
    }
  }

  lemma ServerStaysAgreed(n: Net, ev: Event)
    requires Inv(n) && Agreed(n) && Enabled(n, ServerStep(ev)) && n.server.value.status != SynRecv
    ensures Agreed(Do(n, ServerStep(ev)))
  {
    hide Wrap, Handle, WriteSegment, Sent, Lifecycle.Next, SendOk, Allowed, KnownQueue, InTransitOk;
    StepOut(n.server.value, ev, SYN_ACK);
    ServerRuns(n, ev);
  }

  lemma WaitingServerIsNotEstablished(s: Conn, ev: Event)
    requires Allowed(s, ev) && s.status == SynRecv && !ev.Receive?
    ensures !HasBeenEstablished(Lifecycle.Next(s, ev).status)
  {
    hide Wrap, Handle, WriteSegment;
  }

  /** Over any run, however often the listener accepts: as long as no stale acknowledgment is about, they agree. */
  lemma {:induction false} AgreementUnlessStale(states: seq<Net>, steps: seq<Step>)
    requires IsRun(states, steps) && Start(states[0])
    requires forall i :: 0 <= i < |steps| ==> NoneStale(states[i])
    ensures Inv(states[|steps|]) && Agreed(states[|steps|])
  {
    hide Inv, Enabled, Do, Start, Agreed, NoneStale;
    if steps == [] {
      StartInv(states[0]);
    } else {
      var k := |steps| - 1;
      AgreementUnlessStale(states[..k + 1], steps[..k]);
      StepKeepsInv(states[k], steps[k]);
      StepKeepsAgreed(states[k], steps[k]);
      assert states[k + 1] == Do(states[k], steps[k]);
    }
  }

  // ---------------------------------------------------------------------------------------------------
  // Connections that were deleted before they said anything
  // ---------------------------------------------------------------------------------------------------

  /** The listener's connection has sent its SYN only. */
  predicate SaysNothing(n: Net) {
    n.server.Some? ==> n.server.value.tcb.sendNxt == 1
  }

  /** Nothing has reached the client but SYNs, so it acknowledges nothing but the one that it took. */
  predicate SilentNet(n: Net) {
    && (forall o :: o in n.toClient ==> o.payload == [] && !o.flags.fin)
    && (forall o :: o in n.toServer && o.flags.ack ==> o.ackNum == Wrap(n.client.tcb.irs, 1))
    && (n.clientEstablished ==> n.client.tcb.rcvNxt == 1)
    && (n.server.Some? ==> forall e :: e in n.server.value.queue ==> e.payload == [] && !e.flags.fin)
  }

  predicate SilentInv(n: Net) {
    SaysNothing(n) ==> SilentNet(n)
  }

  /** A connection is replaced only if it was silent. */
  predicate ReplacesSilent(n: Net, step: Step) {
    step.ListenerAccepts? ==> SaysNothing(n)
  }

  /** The listener's number is not one more, as plain words, than that of a former connection. */
  predicate Fresh(n: Net) {
    n.server.Some? ==>
      var iss := n.server.value.tcb.iss;
      forall x :: x in n.former ==> !(iss == Wrap(x, 1) && iss + 1 < TWO32)
  }

  lemma FreshIsNotStale(n: Net)
    requires Inv(n) && SilentInv(n) && Fresh(n)
    ensures NoneStale(n)
  {
    if n.server.Some? && n.server.value.status == SynRecv {
      var s := n.server.value.tcb;
      forall o | o in n.toServer
        ensures !Stale(n, o)
      {
        assert s.WrappedUna() == s.iss;
        WrapInjectiveInBase(s.iss, n.client.tcb.irs);
      }
    }
  }

  lemma WrapInjectiveInBase(x: uint32, y: uint32)
    ensures Wrap(x, 1) == Wrap(y, 1) <==> x == y
    ensures Wrap(x, 1) == if x + 1 < TWO32 then x + 1 else 0
  {
  }

  lemma ClientOpensSilently(n: Net, seg: Segment)
    requires Inv(n) && SilentNet(n) && n.client.status == SynSent && Enabled(n, ClientStep(Receive(seg)))
    ensures SilentNet(Do(n, ClientStep(Receive(seg))))
  {
    hide Wrap, Handle, Kept, SendOk, Fits, TcbState.Shaped, KnownQueue;
    ClientOpening(n.client, seg);
  }

  lemma ClientStaysSilent(n: Net, ev: Event)
    requires Inv(n) && SilentNet(n) && Enabled(n, ClientStep(ev))
    ensures SilentNet(Do(n, ClientStep(ev)))
  {
    hide Wrap, Handle, WriteSegment, SendOk, KnownQueue;
    if n.clientEstablished {
      ClientRunsSilently(n, ev);
    } else if n.client.status == SynSent && ev.Receive? {
      ClientOpensSilently(n, ev.seg);
    } else {
      UnestablishedIsSilent(n, ev);
    }
  }

  lemma ClientRunsSilently(n: Net, ev: Event)
    requires Inv(n) && SilentNet(n) && n.clientEstablished && Enabled(n, ClientStep(ev))
    ensures SilentNet(Do(n, ClientStep(ev)))
  {
    hide Wrap, Handle, WriteSegment, Sent, Lifecycle.Next, SendOk, Allowed, KnownQueue;
    StepOut(n.client, ev, SYN);
  }

  lemma UnestablishedIsSilent(n: Net, ev: Event)
    requires Inv(n) && SilentNet(n) && !n.clientEstablished && Enabled(n, ClientStep(ev))
    requires n.client.status == Closed || !ev.Receive?
    ensures SilentNet(Do(n, ClientStep(ev)))
  {
    hide Wrap, WriteSegment, HandleOther, HandleSynSent;
  }

  /** A server that still says nothing after its step has not said anything in it. */
  lemma ServerStaysSilent(n: Net, ev: Event)
    requires Inv(n) && SilentInv(n) && Enabled(n, ServerStep(ev))
    ensures SilentInv(Do(n, ServerStep(ev)))
  {
    hide Wrap, Handle, WriteSegment, SendOk, KnownQueue;
    var s := n.server.value;
    SilentServerSends(s, ev);
    StepOut(s, ev, SYN_ACK);
  }

  lemma SilentServerSends(s: Conn, ev: Event)
    requires SendOk(s) && Allowed(s, ev) && s.status != SynSent && s.tcb.sendNxt >= 1
    requires s.tcb.sendNxt == 1 ==> forall e :: e in s.queue ==> e.payload == [] && !e.flags.fin
    ensures var s' := Lifecycle.Next(s, ev);
            && s.tcb.sendNxt <= s'.tcb.sendNxt
            && (s'.tcb.sendNxt == 1 ==>
                  && (forall e :: e in s'.queue ==> e.payload == [] && !e.flags.fin)
                  && (forall o :: o in Sent(s, ev) ==> o.payload == [] && !o.flags.fin))
  {
    hide Wrap, Handle, WriteSegment, Kept, KnownQueue, PlainOut;
    match ev
    case Receive(seg) =>
      HandleOut(s, seg);
      HandleSendSide(s, seg);
      KeptIsPrefix(s.queue, Handle(s, seg).conn.tcb.WrappedUna());
      PlainOutSaysNothing(Handle(s, seg).out);
    case WriteData(data) => WriteSegmentSends(s, data);
    case _ =>
  }

  lemma PlainOutSaysNothing(out: seq<Segment>)
    ensures (forall o :: o in out ==> PlainOut(o)) ==> forall o :: o in out ==> o.payload == [] && !o.flags.fin
  {
  }

  lemma StepKeepsSilent(n: Net, step: Step)
    requires Inv(n) && SilentInv(n) && Enabled(n, step) && ReplacesSilent(n, step)
    ensures SilentInv(Do(n, step))
  {
    hide Wrap, SendOk, Allowed, KnownQueue, ClientOk, ServerOk, InTransitOk, Inv;
    match step
    case ClientStep(ev) =>
      if SaysNothing(n) { ClientStaysSilent(n, ev); }
    case ServerStep(ev) => ServerStaysSilent(n, ev);
    case ListenerAccepts(syn, blank) => AcceptedQueue(blank, syn);
    case ListenerResets(seg) =>
  }

  /**
   After any run in which the listener accepts as often as it likes, but replaces only connections that were
   silent and with numbers that are fresh: the two sides agree. (A listener that accepts once is such a run.)
   */
  lemma {:induction false} HandshakeAgreement(states: seq<Net>, steps: seq<Step>)
    requires IsRun(states, steps) && Start(states[0])
    requires forall i :: 0 <= i < |steps| ==> ReplacesSilent(states[i], steps[i])
    requires forall i :: 0 <= i <= |steps| ==> Fresh(states[i])
    ensures var n := states[|steps|];
            && Inv(n) && SilentInv(n) && Agreed(n)
            && (n.clientEstablished && n.former == {} ==>
                  n.server.Some? && n.server.value.tcb.irs == n.client.tcb.iss
                  && n.client.tcb.irs == n.server.value.tcb.iss)
  {
    hide Enabled, Do, Start, Agreed, SilentInv, Fresh, ReplacesSilent, SendOk, KnownQueue, InTransitOk;
    if steps == [] {
      StartInv(states[0]);
    } else {
      var k := |steps| - 1;
      HandshakeAgreement(states[..k + 1], steps[..k]);
      FreshIsNotStale(states[k]);
      StepKeepsInv(states[k], steps[k]);
      StepKeepsSilent(states[k], steps[k]);
      StepKeepsAgreed(states[k], steps[k]);
      assert states[k + 1] == Do(states[k], steps[k]);
    }
  }

  // ---------------------------------------------------------------------------------------------------
  // When nothing is lost
  // ---------------------------------------------------------------------------------------------------

  /**
   The SYN+ACK of a listener establishes the client exactly if the client's SYN is not the last sequence number
   before 2^32; otherwise it is taken for an old one and reset.
   */
  lemma ClientEstablishesIff(t: TcbState, synAck: Segment)
    requires Blank(t) && synAck.flags == SYN_ACK && synAck.ackNum == Wrap(t.iss, 1)
    ensures var r := HandleSynSent(Connect(t).conn, synAck);
            if t.iss + 1 < TWO32 then
              r.conn.status == Established && r.error == NoError
              && r.out == [Segment(Wrap(t.iss, 1), Wrap(synAck.seqNum, 1), ACK, TCB_SIZE, [])]
            else r.conn == Connect(t).conn && r.error == IncorrectAck && r.out == [Segment(0, 0, RST, TCB_SIZE, [])]
  {
    hide Kept, SynOnSynSent;
    assert t.WrappedUna() == t.iss;
    if t.iss + 1 < TWO32 {
      WrapOfOne(t.iss);
      SynAckEstablishes(Connect(t).conn, synAck);
    }
  }

  /** The SYN part, when our SYN is acknowledged. */
  lemma SynAckEstablishes(c: Conn, synAck: Segment)
    requires var t := c.tcb; t.iss + 1 < TWO32 && t.sendUna == 0 && t.sendNxt == 1 && t.rcvWnd == TCB_SIZE
    requires synAck.ackNum == c.tcb.iss + 1
    ensures var r := SynOnSynSent(c, synAck, true);
            && r.conn.status == Established && r.error == NoError
            && r.out == [Segment(c.tcb.iss + 1, Wrap(synAck.seqNum, 1), ACK, TCB_SIZE, [])]
  {
    hide Kept, Wrap;
    WrapOfOne(c.tcb.iss);
    WrapOfZero(c.tcb.iss);
    assert WrappedDist(c.tcb.iss, synAck.ackNum) == 1;
  }

  lemma WrapOfZero(iss: uint32)
    ensures Wrap(iss, 0) == iss
  {
  }

  /**
   The client's acknowledgment establishes the server exactly if the window that starts behind the client's SYN
   ends below 2^32 and the server's own SYN is not the last number before 2^32.
   */
  lemma ServerEstablishesIff(t: TcbState, syn: Segment, ack: Segment)
    requires Blank(t) && ack.flags == ACK && ack.payload == []
    requires ack.seqNum == Wrap(syn.seqNum, 1) && ack.ackNum == Wrap(t.iss, 1)
    ensures var r := Handle(Accept(t, syn).conn, ack);
            r.conn.status
            == if Wrap(syn.seqNum, 1) + TCB_SIZE < TWO32 && t.iss + 1 < TWO32 then Established else SynRecv
  {
    hide Kept, HandleAck, OnlyAcknowledges;
    var c := Accept(t, syn).conn;
    assert c.tcb.WrappedRcvNxt() == ack.seqNum && c.tcb.WrappedUna() == t.iss;
    assert InWindow(c, ack) <==> Wrap(syn.seqNum, 1) + TCB_SIZE < TWO32;
    assert InSynWindow(c.tcb, ack.ackNum) <==> t.iss + 1 < TWO32;
    var c1 := if InSynWindow(c.tcb, ack.ackNum) then c.(status := Established) else c;
    SynAcknowledged(c1, ack);
    var r := HandleAck(c1, ack);
    if InWindow(c, ack) && !r.dropped {
      ProcessOut(r.conn, r.out, ack);
    }
  }

  lemma WrapOfOne(iss: uint32)
    requires iss + 1 < TWO32
    ensures Wrap(iss, 1) == iss + 1
  {
  }

  /** The three segments of an opening, none of them lost. */
  function Opening(client: TcbState, server: TcbState): (Conn, Conn)
    requires Blank(client) && Blank(server)
  {
    var o1 := Connect(client);
    var o2 := Accept(server, o1.out[0]);
    var o3 := HandleSynSent(o1.conn, o2.out[0]);
    if o3.conn.status == Established && Fits(o2.conn, o3.out[0]) then
      (o3.conn, Handle(o2.conn, o3.out[0]).conn)
    else (o3.conn, o2.conn)
  }

  /** An opening in which nothing is lost establishes both sides exactly for these initial sequence numbers. */
  lemma OpeningCompletesIff(client: TcbState, server: TcbState)
    requires Blank(client) && Blank(server)
    ensures var (c, s) := Opening(client, server);
            c.status == Established && s.status == Established
            <==> client.iss + TCB_SIZE + 1 < TWO32 && server.iss + 1 < TWO32
  {
    hide HandleSynSent, Handle, Wrap, Takes;
    var o1 := Connect(client);
    var o2 := Accept(server, o1.out[0]);
    ClientEstablishesIff(client, o2.out[0]);
    if client.iss + 1 < TWO32 {
      WrapOfOne(client.iss);
      ServerEstablishesIff(server, o1.out[0], HandleSynSent(o1.conn, o2.out[0]).out[0]);
    }
  }

  // ---------------------------------------------------------------------------------------------------
  // A second connection
  // ---------------------------------------------------------------------------------------------------

  /** Numbers for which a second accept breaks the agreement: client `c`, first connection `x`, second `y`. */
  predicate Collides(c: uint32, x: uint32, y: uint32) {
    y == Wrap(x, 1) && y + 1 < TWO32 && c + TCB_SIZE + 1 < TWO32
  }

  /** A run with these numbers, in which only silent connections are replaced. */
  predicate IsSecondRun(c: uint32, x: uint32, y: uint32, states: seq<Net>, steps: seq<Step>) {
    && IsRun(states, steps)
    && (forall i :: 0 <= i < |steps| ==> ReplacesSilent(states[i], steps[i]))
    && var n := states[|steps|];
       n.client.tcb.iss == c && n.former == {x} && n.server.Some? && n.server.value.tcb.iss == y
  }

  ghost predicate MayDisagree(c: uint32, x: uint32, y: uint32) {
    exists states, steps :: IsSecondRun(c, x, y, states, steps) && Start(states[0]) && !Agreed(states[|steps|])
  }

  /** Nobody forgets an initial sequence number, and the client keeps its own. */
  lemma StepKeepsNumbers(n: Net, step: Step)
    requires Inv(n) && Enabled(n, step)
    ensures Do(n, step).client.tcb.iss == n.client.tcb.iss && n.former <= Do(n, step).former
    ensures Isses(n) <= Isses(Do(n, step))
    ensures n.server.Some? ==> Do(n, step).server.Some?
  {
    hide Wrap, Lifecycle.Next, Sent, Allowed, KnownQueue, InTransitOk, SendOk;
    match step
    case ClientStep(ev) => StepKeepsSendOk(n.client, ev);
    case ServerStep(ev) => StepKeepsSendOk(n.server.value, ev);
    case _ =>
  }

  lemma {:induction false} RunKeepsNumbers(states: seq<Net>, steps: seq<Step>, i: nat)
    requires IsRun(states, steps) && Start(states[0]) && i <= |steps|
    ensures var n := states[|steps|];
            && n.client.tcb.iss == states[i].client.tcb.iss
            && states[i].former <= n.former && Isses(states[i]) <= Isses(n)
  {
    if i < |steps| {
      hide Inv, Enabled, Do, Start;
      var k := |steps| - 1;
      RunKeepsInv(states[..k + 1], steps[..k]);
      StepKeepsNumbers(states[k], steps[k]);
      RunKeepsNumbers(states[..k + 1], steps[..k], i);
      assert states[k + 1] == Do(states[k], steps[k]);
    }
  }

  /** With other numbers every state of such a run is fresh. */
  lemma SecondRunIsFresh(c: uint32, x: uint32, y: uint32, states: seq<Net>, steps: seq<Step>, i: nat)
    requires IsSecondRun(c, x, y, states, steps) && Start(states[0]) && i <= |steps|
    requires !(y == Wrap(x, 1) && y + 1 < TWO32)
    ensures Fresh(states[i])
  {
    hide Enabled, Do, Start, Wrap;
    RunKeepsNumbers(states, steps, i);
    var n := states[i];
    if n.server.Some? {
      assert n.server.value.tcb.iss in Isses(n);
      WrapMovesOn(x);
    }
  }

  lemma WrapMovesOn(x: uint32)
    ensures Wrap(x, 1) != x
  {
  }

  /** The client's number leaves the server no window, or cannot be acknowledged: nobody is ever established. */
  predicate Hopeless(n: Net) {
    var c := n.client.tcb.iss;
    && c + TCB_SIZE + 1 >= TWO32
    && (c + 1 == TWO32 ==> !n.clientEstablished)
    && (c + 1 < TWO32 && n.server.Some? ==> ShutOut(n.server.value))
  }

  predicate ShutOut(s: Conn) {
    || (s.status == SynRecv && s.tcb.rcvNxt == 1 && s.tcb.rcvWnd == TCB_SIZE)
    || (FinSent(s.status) && s.status != LastAck)
  }

  lemma FinSentStays(a: Status, b: Status)
    requires Path(a, b) && FinSent(a) && a != LastAck
    ensures FinSent(b) && b != LastAck
  {
  }

  lemma ShutOutStays(s: Conn, ev: Event)
    requires Allowed(s, ev) && ShutOut(s)
    requires s.tcb.irs + 1 < TWO32 <= s.tcb.irs + TCB_SIZE + 1
    ensures ShutOut(Lifecycle.Next(s, ev))
  {
    if s.status == SynRecv {
      ServerStaysShutOut(s, ev);
    } else {
      hide Lifecycle.Next, Allowed, Path;
      StepFollowsFigure5(s, ev);
      FinSentStays(s.status, Lifecycle.Next(s, ev).status);
    }
  }

  lemma ServerStaysShutOut(s: Conn, ev: Event)
    requires Allowed(s, ev) && s.status == SynRecv && s.tcb.rcvNxt == 1 && s.tcb.rcvWnd == TCB_SIZE
    requires s.tcb.irs + 1 < TWO32 <= s.tcb.irs + TCB_SIZE + 1
    ensures ShutOut(Lifecycle.Next(s, ev))
  {
    hide HandleInWindow, WriteSegment, SendCapacity;
    if ev.Receive? {
      WrapOfOne(s.tcb.irs);
      assert !InWindow(s, ev.seg);
    }
  }

  lemma LastNumberIsNeverAcked(c: Conn, seg: Segment)
    requires c.status == SynSent && c.tcb.iss + 1 == TWO32 && (seg.flags.syn ==> seg.flags == SYN_ACK)
    ensures HandleSynSent(c, seg).conn.status in {SynSent, Closed}
  {
    hide Kept, SynOnSynSent;
  }

  lemma StepStaysHopeless(n: Net, step: Step)
    requires Inv(n) && Hopeless(n) && Enabled(n, step)
    ensures Hopeless(Do(n, step))
  {
    hide Wrap, KnownQueue, SendOk, Handle, WriteSegment, Sent;
    StepKeepsNumbers(n, step);
    match step
    case ClientStep(ev) =>
      if n.client.tcb.iss + 1 == TWO32 {
        ClientStaysHopeless(n, ev);
      }
    case ServerStep(ev) =>
      if n.client.tcb.iss + 1 < TWO32 {
        ShutOutStays(n.server.value, ev);
      }
    case _ =>
  }

  lemma ClientStaysHopeless(n: Net, ev: Event)
    requires Inv(n) && Enabled(n, ClientStep(ev)) && !n.clientEstablished && n.client.tcb.iss + 1 == TWO32
    ensures Lifecycle.Next(n.client, ev).status != Established
  {
    hide Wrap, KnownQueue, SendOk, WriteSegment, HandleOther, HandleSynSent;
    if n.client.status == SynSent && ev.Receive? {
      LastNumberIsNeverAcked(n.client, ev.seg);
    }
  }

  lemma {:induction false} HopelessRunsAgree(states: seq<Net>, steps: seq<Step>)
    requires IsRun(states, steps) && Start(states[0]) && states[0].client.tcb.iss + TCB_SIZE + 1 >= TWO32
    ensures Inv(states[|steps|]) && Hopeless(states[|steps|]) && Agreed(states[|steps|])
  {
    hide Enabled, Do, Start, KnownQueue, SendOk, InTransitOk;
    RunKeepsInv(states, steps);
    if steps == [] {
      StartIsUnestablished(states[0]);
    } else {
      var k := |steps| - 1;
      HopelessRunsAgree(states[..k + 1], steps[..k]);
      StepStaysHopeless(states[k], steps[k]);
      assert states[k + 1] == Do(states[k], steps[k]);
    }
  }

  lemma StartIsUnestablished(n: Net)
    requires Start(n)
    ensures !n.clientEstablished && n.server == None
  {
  }

  /** The client's SYN, from a client with number `c`, and what answers it. */
  function SynOf(c: uint32): Segment {
    Segment(c, 0, SYN, TCB_SIZE, [])
  }

  function SynAckOf(c: uint32, x: uint32): Segment {
    Segment(x, Wrap(c, 1), SYN_ACK, TCB_SIZE, [])
  }

  function AckOf(c: uint32, x: uint32): Segment {
    Segment(Wrap(c, 1), Wrap(x, 1), ACK, TCB_SIZE, [])
  }

  lemma AcceptedSays(blank: TcbState, c: uint32)
    requires Blank(blank)
    ensures Accept(blank, SynOf(c)).out == [SynAckOf(c, blank.iss)]
  {
  }

  /** The first connection of the listener times out; the stale acknowledgment of its SYN reaches the second. */
  lemma StaleAckRun(t: TcbState, tx: TcbState, ty: TcbState) returns (states: seq<Net>, steps: seq<Step>)
    requires Blank(t) && t.irs == 0 && Blank(tx) && Blank(ty) && Collides(t.iss, tx.iss, ty.iss)
    ensures IsSecondRun(t.iss, tx.iss, ty.iss, states, steps) && Start(states[0]) && !Agreed(states[|steps|])
    ensures |steps| == 5
  {
    hide Lifecycle.Next, Sent, HandleSynSent, Allowed, InWindow, Wrap;
    var c, x := t.iss, tx.iss;
    var n0 := Net(Connect(t).conn, false, None, {}, All(Connect(t).out), {});
    assert Connect(t).out == [SynOf(c)] && SynOf(c) in n0.toServer;
    var step1 := ListenerAccepts(SynOf(c), tx);
    var n1 := Do(n0, step1);
    AcceptedSays(tx, c);
    var step2 := ClientStep(Receive(SynAckOf(c, x)));
    ClientTakesSynAck(t, x);
    var n2 := Do(n1, step2);
    var step3 := ServerStep(Expire);
    MayExpire(n2.server.value);
    var n3 := Do(n2, step3);
    var step4 := ListenerAccepts(SynOf(c), ty);
    var n4 := Do(n3, step4);
    var step5 := ServerStep(Receive(AckOf(c, x)));
    StaleAckOpens(ty, c, x);
    var n5 := Do(n4, step5);
    states, steps := [n0, n1, n2, n3, n4, n5], [step1, step2, step3, step4, step5];
    WrapMovesOn(x);
  }

  lemma MayExpire(s: Conn)
    requires s.tcb.Shaped()
    ensures Allowed(s, Expire) && Lifecycle.Next(s, Expire) == CloseDelete(s)
  {
  }

  lemma ClientTakesSynAck(t: TcbState, x: uint32)
    requires Blank(t) && t.iss + 1 < TWO32
    ensures var c, ev := Connect(t).conn, Receive(SynAckOf(t.iss, x));
            && Allowed(c, ev) && Lifecycle.Next(c, ev).status == Established && Lifecycle.Next(c, ev).tcb.irs == x
            && Lifecycle.Next(c, ev).tcb.iss == t.iss
            && Sent(c, ev) == [AckOf(t.iss, x)]
  {
    hide HandleSynSent, HandleOther, Wrap, Kept;
    ClientEstablishesIff(t, SynAckOf(t.iss, x));
    OpeningsRemember(t, SynAckOf(t.iss, x));
    SynSentOut(Connect(t).conn, SynAckOf(t.iss, x));
  }

  lemma StaleAckOpens(ty: TcbState, c: uint32, x: uint32)
    requires Blank(ty) && Collides(c, x, ty.iss)
    ensures var s, ev := Accept(ty, SynOf(c)).conn, Receive(AckOf(c, x));
            && Allowed(s, ev) && HasBeenEstablished(Lifecycle.Next(s, ev).status)
            && Lifecycle.Next(s, ev).tcb.iss == ty.iss
  {
    hide Accept, Handle, Wrap, SendOk, Fits, OpensServer, TcbState.Shaped, Blank;
    var s, seg := Accept(ty, SynOf(c)).conn, AckOf(c, x);
    AcceptedFacts(SynOf(c), ty);
    AckOpens(s, seg);
    StepKeepsSendOk(s, Receive(seg));
    SynRecvStep(s, seg);
  }

  lemma AckOpens(s: Conn, seg: Segment)
    requires SendOk(s) && s.status == SynRecv && s.tcb.sendUna == 0 && s.tcb.sendNxt == 1
    requires s.tcb.rcvNxt == 1 && s.tcb.rcvWnd == TCB_SIZE && s.tcb.irs + TCB_SIZE + 1 < TWO32 && s.tcb.iss + 1 < TWO32
    requires seg.flags == ACK && seg.payload == [] && seg.seqNum == Wrap(s.tcb.irs, 1) && seg.ackNum == s.tcb.iss
    ensures OpensServer(s, seg) && Fits(s, seg) && Allowed(s, Receive(seg))
  {
    hide Wrap;
    WrapOfOne(s.tcb.irs);
    WrapOfOne(s.tcb.iss);
    WrapOfZero(s.tcb.iss);
  }

  function BlankWith(iss: uint32): TcbState {
    var buf := seq(SLOTS, _ => 0);
    TcbState(iss, 0, buf, 0, 1, 1, 0, 0, 0, buf, 0, TCB_SIZE, 0)
  }

  /**
   The listener accepts again after its first, silent connection was deleted: with these numbers they may disagree
   if and only if the second number is one more than the first, as plain words, and the client's leaves a window.
   */
  lemma SecondAcceptIff(c: uint32, x: uint32, y: uint32)
    ensures MayDisagree(c, x, y) <==> Collides(c, x, y)
  {
    hide Wrap, Start, Agreed, Enabled, Do, ReplacesSilent;
    if Collides(c, x, y) {
      var states, steps := StaleAckRun(BlankWith(c), BlankWith(x), BlankWith(y));
    } else if MayDisagree(c, x, y) {
      var states, steps :| IsSecondRun(c, x, y, states, steps) && Start(states[0]) && !Agreed(states[|steps|]);
      SecondRunAgrees(c, x, y, states, steps);
    }
  }

  lemma SecondRunAgrees(c: uint32, x: uint32, y: uint32, states: seq<Net>, steps: seq<Step>)
    requires !Collides(c, x, y) && IsSecondRun(c, x, y, states, steps) && Start(states[0])
    ensures Agreed(states[|steps|])
  {
    hide Wrap, Start, Agreed, Enabled, Do, Fresh;
    if y == Wrap(x, 1) && y + 1 < TWO32 {
      RunKeepsNumbers(states, steps, 0);
      HopelessRunsAgree(states, steps);
    } else {
      forall i | 0 <= i <= |steps|
        ensures Fresh(states[i])
      {
        SecondRunIsFresh(c, x, y, states, steps, i);
      }
      HandshakeAgreement(states, steps);
    }
  }
}
