/**
 Whole runs of one connection: the statuses it goes through, what its retransmission queue remembers, and what
 the closing statuses mean.
 */
module Lifecycle {
  import opened Words
  import opened Sequence
  import opened Segments
  import opened RetransmitQueue
  import opened Tcb
  import opened ConnectionModel

  datatype Event =
    | Receive(seg: Segment)
    | WriteData(data: seq<byte>)
    | ReadData(count: nat)
    | Shut
    | Expire   // a timer of VConnect, VAccept or TimeWait runs out: at any time, which allows more than the code does
    | Resend   // the retransmission timer

  /**
   Waits are guards; a write finds the send window open; `VClose` is not called on a connection that is closed or
   already closing.
   */
  predicate Allowed(c: Conn, ev: Event) {
    && c.tcb.Shaped()
    && match ev
       case Receive(seg) => Fits(c, seg)
       case WriteData(data) =>
         && c.status == Established && c.tcb.sendLbr == c.tcb.sendNxt && 0 < |data| <= MSS
         && |data| <= SendCapacity(c.tcb) && c.tcb.sendWnd > 0
       case ReadData(_) => Readable(c.status) ==> c.tcb.rcvWnd != TCB_SIZE
       case Shut => c.status !in {Listen, FinWait1, Closing, LastAck, Closed}
       case Expire => true
       case Resend => true
  }

  function Next(c: Conn, ev: Event): Conn
    requires Allowed(c, ev)
  {
    match ev
    case Receive(seg) => Handle(c, seg).conn
    case WriteData(data) => WriteSegment(c, data).0
    case ReadData(count) => Read(c, count).0
    case Shut => Close(c).conn
    case Expire => CloseDelete(c)
    case Resend => c
  }

  predicate IsRun(states: seq<Conn>, events: seq<Event>) {
    && |states| == |events| + 1
    && forall i :: 0 <= i < |events| ==> Allowed(states[i], events[i]) && states[i + 1] == Next(states[i], events[i])
  }

  // ---------------------------------------------------------------------------------------------------
  // Statuses
  // ---------------------------------------------------------------------------------------------------

  /** Figure 5 in section 3.3.2 of RFC 9293 with its Note 2, and the reset and timeout edges to CLOSED. */
  predicate Edge(a: Status, b: Status) {
    match a
    case Listen => b == SynRecv || b == SynSent || b == Closed
    case SynSent => b == SynRecv || b == Established || b == Closed
    case SynRecv => b == Established || b == FinWait1 || b == Closed
    case Established => b == FinWait1 || b == CloseWait || b == Closed
    case FinWait1 => b == FinWait2 || b == Closing || b == TimeWait || b == Closed
    case FinWait2 => b == TimeWait || b == Closed
    case CloseWait => b == LastAck || b == Closed
    case Closing => b == TimeWait || b == Closed
    case LastAck => b == Closed
    case TimeWait => b == Closed
    case Closed => false
  }

  /** One segment may both acknowledge and finish, so a step may take two edges. */
  ghost predicate Path(a: Status, b: Status) {
    a == b || Edge(a, b) || exists m :: Edge(a, m) && Edge(m, b)
  }

  function Rank(s: Status): nat {
    match s
    case Listen => 0
    case SynSent => 1
    case SynRecv => 2
    case Established => 3
    case FinWait1 => 4
    case CloseWait => 4
    case FinWait2 => 5
    case Closing => 5
    case LastAck => 5
    case TimeWait => 6
    case Closed => 7
  }

  lemma PathRaisesRank(a: Status, b: Status)
    requires Path(a, b)
    ensures a == b || Rank(a) < Rank(b)
  {
  }

  predicate FinSent(s: Status) {
    s == FinWait1 || s == FinWait2 || s == TimeWait || s == Closing || s == LastAck || s == Closed
  }

  predicate OneEdge(a: Status, b: Status) {
    a == b || Edge(a, b)
  }

  lemma TwoEdges(a: Status, m: Status, b: Status)
    requires OneEdge(a, m) && OneEdge(m, b)
    ensures Path(a, b)
  {
  }

  lemma ProcessStatus(c: Conn, out: seq<Segment>, seg: Segment)
    requires c.tcb.Shaped() && (Stores(c.status) ==> |seg.payload| <= c.tcb.rcvWnd)
    ensures OneEdge(c.status, Process(c, out, seg).conn.status)
    ensures c.status == FinWait2 ==> Process(c, out, seg).conn.status in {FinWait2, TimeWait}
    ensures c.status in {TimeWait, Closing, CloseWait, LastAck, SynRecv} ==>
              Process(c, out, seg).conn.status == c.status
    ensures Process(c, out, seg).conn.registered == c.registered
    ensures FinSent(Process(c, out, seg).conn.status) == FinSent(c.status)
  {
    hide Wrap, Store, Window, WrappedDist, TcbState.Shaped;
  }

  lemma HandleStatus(c: Conn, seg: Segment)
    requires c.tcb.Shaped() && Fits(c, seg) && c.status != SynSent
    ensures Path(c.status, Handle(c, seg).conn.status)
    ensures var s := Handle(c, seg).conn.status; s == Closed || FinSent(s) == FinSent(c.status)
  {
    hide Wrap, Process, HandleAck, HandleAckInWindow, SegmentAcceptable, AckRefused, TcbState.Shaped, Path;
    var s := Handle(c, seg).conn.status;
    if c.status != Closed && c.status != Listen && InWindow(c, seg) && !Resets(c, seg) {
      if seg.flags.ack {
        HandleAckStatus(c, seg);
      } else {
        ProcessStatus(c, [], seg);
        TwoEdges(c.status, c.status, s);
      }
    } else {
      TwoEdges(c.status, c.status, s);
    }
  }

  lemma HandleAckStatus(c: Conn, seg: Segment)
    requires c.tcb.Shaped() && seg.flags.ack && !Resets(c, seg)
    requires TakesInWindow(c, seg) ==> |seg.payload| <= c.tcb.rcvWnd
    requires c.status !in {SynSent, Closed, Listen}
    ensures Path(c.status, HandleAckInWindow(c, seg).conn.status)
    ensures var s := HandleAckInWindow(c, seg).conn.status; s == Closed || FinSent(s) == FinSent(c.status)
  {
    hide Wrap, Process, HandleAck, AckRefused, OnlyAcknowledges, TcbState.Shaped, Path;
    var s := HandleAckInWindow(c, seg).conn.status;
    var c1 := OpenIfAcked(c, seg.ackNum);
    if c1.status == TimeWait {
      ProcessStatus(c1, [], seg);
      TwoEdges(c.status, c1.status, s);
    } else if c1.status == LastAck {
      TwoEdges(c.status, c.status, s);
    } else {
      var r := HandleAck(c1, seg);
      if !r.dropped {
        ProcessStatus(r.conn, r.out, seg);
      }
      TwoEdges(c.status, if c.status == SynRecv then c1.status else r.conn.status, s);
    }
  }

  lemma HandleSynSentStatus(c: Conn, seg: Segment)
    ensures HandleSynSent(c, seg).conn.status in {c.status, Closed, Established, SynRecv}
  {
    hide Wrap, Kept, WrappedDist;
  }

  /** Every step goes along edges of Figure 5, raises the rank if it changes the status, and never leaves CLOSED. */
  lemma StepFollowsFigure5(c: Conn, ev: Event)
    requires Allowed(c, ev)
    ensures Path(c.status, Next(c, ev).status)
    ensures Next(c, ev).status == c.status || Rank(c.status) < Rank(Next(c, ev).status)
    ensures c.status == Closed ==> Next(c, ev).status == Closed && (!c.registered ==> !Next(c, ev).registered)
  {
    hide Wrap, Kept, WrappedDist, Store, Window, SegmentAcceptable, HandleOther, HandleSynSent;
    match ev
    case Receive(seg) =>
      if c.status == SynSent {
        HandleSynSentStatus(c, seg);
      } else {
        HandleStatus(c, seg);
      }
    case _ =>
    PathRaisesRank(c.status, Next(c, ev).status);
  }

  /** `VClose` itself has no guard: it stays on the edges of Figure 5 exactly outside CLOSING, LAST-ACK and CLOSED. */
  lemma CloseFollowsFigure5Iff(c: Conn)
    ensures Path(c.status, Close(c).conn.status) <==> c.status !in {Closing, LastAck, Closed}
  {
    hide Wrap;
    if c.status == Listen {
      assert Edge(Listen, SynRecv) && Edge(SynRecv, FinWait1);
    }
  }

  /** The same without the restriction on `VClose`, which the code does not make. */
  predicate Possible(c: Conn, ev: Event) {
    c.tcb.Shaped() && (ev != Shut ==> Allowed(c, ev))
  }

  function After(c: Conn, ev: Event): Conn
    requires Possible(c, ev)
  {
    if ev == Shut then Close(c).conn else Next(c, ev)
  }

  predicate ClosesAgain(c: Conn, ev: Event) {
    ev == Shut && c.status in {Closing, LastAck, Closed}
  }

  /** A step stays on the edges of Figure 5 exactly if it is not a `VClose` in CLOSING, LAST-ACK or CLOSED. */
  lemma StepFollowsFigure5Iff(c: Conn, ev: Event)
    requires Possible(c, ev)
    ensures Path(c.status, After(c, ev).status) <==> !ClosesAgain(c, ev)
    ensures !ClosesAgain(c, ev) ==>
              && (After(c, ev).status == c.status || Rank(c.status) < Rank(After(c, ev).status))
              && (c.status == Closed ==> After(c, ev).status == Closed && (!c.registered ==> !After(c, ev).registered))
  {
    hide Path, Next, Close, Allowed;
    if ev == Shut {
      CloseFollowsFigure5Iff(c);
      if !ClosesAgain(c, ev) {
        PathRaisesRank(c.status, Close(c).conn.status);
      }
    } else {
      StepFollowsFigure5(c, ev);
    }
  }

  predicate IsLooseRun(states: seq<Conn>, events: seq<Event>) {
    && |states| == |events| + 1
    && forall i :: 0 <= i < |events| ==> Possible(states[i], events[i]) && states[i + 1] == After(states[i], events[i])
  }

  function Changes(states: seq<Conn>): nat {
    if |states| <= 1 then 0
    else
      var n := |states| - 1;
      Changes(states[..n]) + (if states[n - 1].status == states[n].status then 0 else 1)
  }

  lemma ChangesOneMore(states: seq<Conn>)
    ensures |states| <= 1 ==> Changes(states) == 0
    ensures |states| > 1 ==>
              var n := |states| - 1;
              Changes(states) == Changes(states[..n]) + if states[n - 1].status == states[n].status then 0 else 1
  {
  }

  lemma RankIsSmall(s: Status)
    ensures Rank(s) <= 7
  {
  }

  /** However long it runs, a connection that is not closed again changes status at most seven times. */
  lemma {:induction false} ChangesAreBounded(states: seq<Conn>, events: seq<Event>)
    requires IsLooseRun(states, events)
    requires forall i :: 0 <= i < |events| ==> !ClosesAgain(states[i], events[i])
    ensures Changes(states) <= Rank(states[|events|].status) - Rank(states[0].status) <= 7
    ensures states[0].status == Closed && !states[0].registered ==>
              states[|events|].status == Closed && !states[|events|].registered
  {
    hide After, Possible, ClosesAgain, Changes, Path;
    ChangesOneMore(states);
    RankIsSmall(states[|events|].status);
    if events != [] {
      var n := |events| - 1;
      assert states[n + 1] == After(states[n], events[n]);
      StepFollowsFigure5Iff(states[n], events[n]);
      ChangesAreBounded(states[..n + 1], events[..n]);
    }
  }

  lemma TwoMoreChanges(states: seq<Conn>, s: Conn, s': Conn)
    requires states != [] && states[|states| - 1].status != s.status && s.status != s'.status
    ensures Changes(states + [s, s']) == Changes(states) + 2
  {
    hide Changes;
    var more, most := states + [s], states + [s, s'];
    assert most[..|states| + 1] == more && more[..|states|] == states;
    ChangesOneMore(most);
    ChangesOneMore(more);
  }
}
