/**
 What each kind of segment does to a connection, status by status, and what follows for whole runs about the FINs of
 both sides.
 */
module SegmentLaws {
  import opened Words
  import opened Sequence
  import opened Segments
  import opened RetransmitQueue
  import opened Tcb
  import opened ConnectionModel
  import opened Lifecycle

  /** The segment is acceptable, and no reset for exactly the next byte. */
  predicate Accepted(c: Conn, seg: Segment) {
    InWindow(c, seg) && !(seg.flags.rst && seg.seqNum == Wrap(c.tcb.irs, c.tcb.rcvNxt))
  }

  /** Its acknowledgment is not for something that was never sent, as plain words go. */
  predicate Heeded(c: Conn, seg: Segment) {
    seg.flags.ack ==> !AckRefused(c.tcb, seg.ackNum)
  }

  predicate AcksAll(c: Conn, seg: Segment) {
    seg.ackNum == Wrap(c.tcb.iss, c.tcb.sendNxt)
  }

  predicate Synchronized(s: Status) {
    s !in {Closed, Listen, SynSent}
  }

  // ---------------------------------------------------------------------------------------------------
  // Resets, and segments that are not acceptable
  // ---------------------------------------------------------------------------------------------------

  /** A reset for exactly the next byte deletes the connection, whatever its status, and is answered by a reset. */
  lemma ResetDeletes(c: Conn, seg: Segment)
    requires c.tcb.Shaped() && Fits(c, seg) && Synchronized(c.status)
    requires InWindow(c, seg) && seg.flags.rst && seg.seqNum == Wrap(c.tcb.irs, c.tcb.rcvNxt)
    ensures var r := Handle(c, seg);
            && r.conn == c.(status := Closed, registered := false, queue := []) && r.error == ConnectionReset
            && r.out == [Segment(0, seg.seqNum, Flags(false, false, true, false), c.tcb.rcvWnd, [])]
  {
    hide Wrap, SegmentAcceptable, HandleAckInWindow, Process;
  }

  /** Any other acceptable reset is processed as if it were none. */
  lemma OtherResetIsNone(c: Conn, seg: Segment)
    requires c.tcb.Shaped() && Fits(c, seg) && Synchronized(c.status)
    requires Accepted(c, seg) && seg.flags.rst
    ensures var plain := seg.(flags := seg.flags.(rst := false));
            Fits(c, plain) && Handle(c, seg) == Handle(c, plain)
  {
    hide Wrap, SegmentAcceptable, Process, HandleAck, AckRefused, TcbState.Shaped;
    var plain := seg.(flags := seg.flags.(rst := false));
    var c1 := OpenIfAcked(c, seg.ackNum);
    AckIgnoresReset(c1, seg);
    RefusedIff(c1, seg);
    if !seg.flags.ack {
      ProcessIgnoresReset(c, [], seg);
    } else if c1.status == TimeWait {
      ProcessIgnoresReset(c1, [], seg);
    } else if c1.status != LastAck {
      var r := HandleAck(c1, seg);
      if !r.dropped {
        ProcessIgnoresReset(r.conn, r.out, seg);
      }
    }
  }

  lemma AckIgnoresReset(c: Conn, seg: Segment)
    ensures HandleAck(c, seg.(flags := seg.flags.(rst := false))) == HandleAck(c, seg)
  {
    hide Wrap, Kept, WrappedDist;
  }

  lemma ProcessIgnoresReset(c: Conn, out: seq<Segment>, seg: Segment)
    requires c.tcb.Shaped() && (Stores(c.status) ==> |seg.payload| <= c.tcb.rcvWnd)
    ensures Process(c, out, seg.(flags := seg.flags.(rst := false))) == Process(c, out, seg)
  {
    hide Wrap, Store, WrappedDist;
  }

  /** What is not acceptable changes nothing; it is acknowledged, unless it is a reset. */
  lemma UnacceptableIsAnswered(c: Conn, seg: Segment)
    requires c.tcb.Shaped() && Synchronized(c.status) && !InWindow(c, seg)
    ensures Fits(c, seg)
    ensures var r := Handle(c, seg); var t := c.tcb;
            && r.conn == c && r.error == NoError
            && r.out == if seg.flags.rst then []
                        else [Segment(Wrap(t.iss, t.sendNxt), Wrap(t.irs, t.rcvNxt), ACK, t.rcvWnd, [])]
  {
    hide Wrap, SegmentAcceptable, HandleInWindow;
  }

  /** An acceptable segment with an acknowledgment for something never sent changes nothing either. */
  lemma UnheededIsAnswered(c: Conn, seg: Segment)
    requires c.tcb.Shaped() && Synchronized(c.status) && c.status !in {LastAck, TimeWait}
    requires Accepted(c, seg) && seg.flags.ack && AckRefused(c.tcb, seg.ackNum)
    ensures Fits(c, seg)
    ensures var r := Handle(c, seg); var t := c.tcb;
            && r.conn == c && r.error == NoError
            && r.out == [Segment(Wrap(t.iss, t.sendNxt), Wrap(t.irs, t.rcvNxt), ACK, t.rcvWnd, [])]
  {
    hide Wrap, SegmentAcceptable, Process, HandleAck, AckRefused;
    RefusedIsNotSyn(c.tcb, seg.ackNum);
    RefusedIff(c, seg);
  }

  lemma RefusedIsNotSyn(t: TcbState, ack: uint32)
    requires AckRefused(t, ack)
    ensures !InSynWindow(t, ack)
  {
    hide Wrap;
  }

  // ---------------------------------------------------------------------------------------------------
  // The next status
  // ---------------------------------------------------------------------------------------------------

  /** The status after the acknowledgment. */
  lemma AckStatus(c: Conn, seg: Segment)
    ensures HandleAck(c, seg).conn.status
            == if AckRefused(c.tcb, seg.ackNum) || !AcksAll(c, seg) then c.status
               else if c.status == FinWait1 then FinWait2
               else if c.status == Closing then TimeWait
               else c.status
    ensures HandleAck(c, seg).conn.tcb.sendNxt == c.tcb.sendNxt && HandleAck(c, seg).conn.tcb.iss == c.tcb.iss
  {
    hide Wrap, Kept, WrappedDist;
  }

  /** The status after the FIN, and after none. */
  lemma FinStatus(c: Conn, out: seq<Segment>, seg: Segment)
    requires c.tcb.Shaped() && (Stores(c.status) ==> |seg.payload| <= c.tcb.rcvWnd)
    ensures var s := Process(c, out, seg).conn.status;
            if !seg.flags.fin then s == c.status
            else if c.status == Established then s == CloseWait
            else if c.status == FinWait1 then s == (if AcksAll(c, seg) then TimeWait else Closing)
            else if c.status == FinWait2 then s == TimeWait
            else s == c.status
  {
    hide Wrap, Store, Window, WrappedDist;
  }

  /**
   The next status after an acceptable segment that acknowledges and finishes: both FINs done, the peer's only, or
   neither counted yet.
   */
  lemma FinMovesOn(c: Conn, seg: Segment)
    requires c.tcb.Shaped() && Fits(c, seg) && Accepted(c, seg) && Heeded(c, seg)
    requires seg.flags.fin && seg.flags.ack && Synchronized(c.status)
    ensures var s := Handle(c, seg).conn.status;
            match c.status
            case SynRecv => s == (if InSynWindow(c.tcb, seg.ackNum) then CloseWait else SynRecv)
            case Established => s == CloseWait
            case FinWait1 => s == (if AcksAll(c, seg) then TimeWait else Closing)
            case FinWait2 => s == TimeWait
            case CloseWait => s == CloseWait
            case Closing => s == (if AcksAll(c, seg) then TimeWait else Closing)
            case LastAck => s == Closed
            case TimeWait => s == TimeWait
            case _ => false
  {
    StatusAfterAck(c, seg);
  }

  /** The same without FIN: our FIN is acknowledged, or the connection opened, or nothing. */
  lemma AckMovesOn(c: Conn, seg: Segment)
    requires c.tcb.Shaped() && Fits(c, seg) && Accepted(c, seg) && Heeded(c, seg)
    requires !seg.flags.fin && seg.flags.ack && Synchronized(c.status)
    ensures var s := Handle(c, seg).conn.status;
            match c.status
            case SynRecv => s == (if InSynWindow(c.tcb, seg.ackNum) then Established else SynRecv)
            case Established => s == Established
            case FinWait1 => s == (if AcksAll(c, seg) then FinWait2 else FinWait1)
            case FinWait2 => s == FinWait2
            case CloseWait => s == CloseWait
            case Closing => s == (if AcksAll(c, seg) then TimeWait else Closing)
            case LastAck => s == Closed
            case TimeWait => s == TimeWait
            case _ => false
  {
    StatusAfterAck(c, seg);
  }

  lemma StatusAfterAck(c: Conn, seg: Segment)
    requires c.tcb.Shaped() && Fits(c, seg) && Accepted(c, seg) && Heeded(c, seg)
    requires seg.flags.ack && Synchronized(c.status)
    ensures var s := Handle(c, seg).conn.status;
            var c1 := OpenIfAcked(c, seg.ackNum);
            if c1.status == LastAck then s == Closed
            else if c1.status == TimeWait then s == TimeWait
            else
              var m := HandleAck(c1, seg).conn.status;
              if !seg.flags.fin then s == m
              else if m == Established then s == CloseWait
              else if m == FinWait1 then s == (if AcksAll(c, seg) then TimeWait else Closing)
              else if m == FinWait2 then s == TimeWait
              else s == m
    ensures var c1 := OpenIfAcked(c, seg.ackNum);
            HandleAck(c1, seg).conn.status
            == if !AcksAll(c, seg) then c1.status
               else if c1.status == FinWait1 then FinWait2
               else if c1.status == Closing then TimeWait
               else c1.status
  {
    hide Wrap, SegmentAcceptable, Process, HandleAck, AckRefused, TcbState.Shaped;
    var c1 := OpenIfAcked(c, seg.ackNum);
    AckStatus(c1, seg);
    RefusedIff(c1, seg);
    if c1.status == TimeWait {
      FinStatus(c1, [], seg);
    } else if c1.status != LastAck {
      var r := HandleAck(c1, seg);
      FinStatus(r.conn, r.out, seg);
    }
  }

  /** Without an acknowledgment only the FIN counts. */
  lemma BareSegmentMovesOn(c: Conn, seg: Segment)
    requires c.tcb.Shaped() && Fits(c, seg) && Accepted(c, seg) && !seg.flags.ack && Synchronized(c.status)
    ensures var s := Handle(c, seg).conn.status;
            if !seg.flags.fin then s == c.status
            else if c.status == Established then s == CloseWait
            else if c.status == FinWait1 then s == (if AcksAll(c, seg) then TimeWait else Closing)
            else if c.status == FinWait2 then s == TimeWait
            else s == c.status
  {
    hide Wrap, SegmentAcceptable, Process, TcbState.Shaped;
    FinStatus(c, [], seg);
  }

  /** A segment in SYN-SENT: four outcomes, and which one. */
  lemma SynSentMovesOn(c: Conn, seg: Segment)
    requires c.status == SynSent && c.tcb.sendUna == 0 && c.tcb.sendNxt == 1
    ensures var r := HandleSynSent(c, seg); var t := c.tcb;
            var ours := seg.flags.ack && t.iss < seg.ackNum && seg.ackNum <= Wrap(t.iss, 1);
            if seg.flags.ack && !ours then
              && r.conn == c && r.error == IncorrectAck
              && r.out == [Segment(0, seg.ackNum, Flags(false, false, true, false), t.rcvWnd, [])]
            else if ours && seg.flags.rst then
              && r.conn == c.(status := Closed, registered := false, queue := []) && r.out == []
              && r.error == ConnectionReset
            else if seg.flags.syn then
              && r.error == NoError && r.conn.tcb.irs == seg.seqNum && r.conn.tcb.rcvNxt == 1
              && (if ours then
                    r.conn.status == Established && r.conn.tcb.sendUna == 1
                    && r.out == [Segment(Wrap(t.iss, 1), Wrap(seg.seqNum, 1), ACK, t.rcvWnd, [])]
                  else
                    r.conn.status == SynRecv && r.conn.tcb.sendUna == 0
                    && r.out == [Segment(t.iss, Wrap(seg.seqNum, 1), SYN_ACK, t.rcvWnd, [])]
                    && r.conn.queue == c.queue + [Entry(t.iss, SYN_ACK, [])])
            else
              r.conn == c && r.out == [] && r.error == NoError
  {
    hide Kept, SynOnSynSent;
    assert c.tcb.WrappedUna() == c.tcb.iss;
    if seg.flags.syn {
      SynPart(c, seg);
    }
  }

  lemma SynPart(c: Conn, seg: Segment)
    requires c.status == SynSent && c.tcb.sendUna == 0 && c.tcb.sendNxt == 1
    ensures var r := SynOnSynSent(c, seg, false); var t := c.tcb;
            && r.error == NoError && r.conn.status == SynRecv && r.conn.tcb.sendUna == 0
            && r.conn.tcb.irs == seg.seqNum && r.conn.tcb.rcvNxt == 1
            && r.out == [Segment(t.iss, Wrap(seg.seqNum, 1), SYN_ACK, t.rcvWnd, [])]
            && r.conn.queue == c.queue + [Entry(t.iss, SYN_ACK, [])]
    ensures c.tcb.iss < seg.ackNum && seg.ackNum <= Wrap(c.tcb.iss, 1) ==>
              var r := SynOnSynSent(c, seg, true);
              && r.error == NoError && r.conn.status == Established && r.conn.tcb.sendUna == 1
              && r.conn.tcb.irs == seg.seqNum && r.conn.tcb.rcvNxt == 1
              && r.out == [Segment(Wrap(c.tcb.iss, 1), Wrap(seg.seqNum, 1), ACK, c.tcb.rcvWnd, [])]
  {
    hide Kept;
    assert c.tcb.WrappedUna() == c.tcb.iss;
    if c.tcb.iss < seg.ackNum && seg.ackNum <= Wrap(c.tcb.iss, 1) {
      AcceptedAckIsExact(c.tcb.iss, 0, 1, seg.ackNum);
    }
  }

  // ---------------------------------------------------------------------------------------------------
  // The payload, the place of the FIN, the window
  // ---------------------------------------------------------------------------------------------------

  /** The statuses in which a payload is stored, and an opening that the same segment completes. */
  predicate Storing(c: Conn, seg: Segment) {
    || c.status in {Established, FinWait1, FinWait2}
    || (c.status == SynRecv && seg.flags.ack && InSynWindow(c.tcb, seg.ackNum))
  }

  /** The acknowledgment of the payload of a segment. */
  function AckOf(c: Conn, seg: Segment): Segment {
    var t := c.tcb;
    Segment(Wrap(t.iss, t.sendNxt), (seg.seqNum + |seg.payload|) % TWO32, ACK, t.rcvWnd, [])
  }

  /** Before a FIN: exactly an acceptable and heeded payload in these statuses is received, and is acknowledged. */
  lemma PayloadIsReceivedIff(c: Conn, seg: Segment)
    requires ReceiveSideOk(c.tcb) && Fits(c, seg) && Synchronized(c.status) && !seg.flags.fin
    ensures var r := Handle(c, seg);
            var taken := Accepted(c, seg) && Heeded(c, seg) && Storing(c, seg);
            && ReceiveSideOk(r.conn.tcb)
            && r.conn.tcb.Buffered() == c.tcb.Buffered() + (if taken then seg.payload else [])
            && (Accepted(c, seg) && Heeded(c, seg) ==>
                  r.out == if taken && seg.payload != [] then [AckOf(r.conn, seg)] else [])
  {
    hide Wrap, SegmentAcceptable, Process, HandleAck, AckRefused, Window, Store;
    assert c.tcb.Buffered() + [] == c.tcb.Buffered();
    if Accepted(c, seg) {
      if !seg.flags.ack {
        PayloadPart(c, [], seg);
      } else {
        var c1 := OpenIfAcked(c, seg.ackNum);
        OpeningKeepsReceiveSide(c, seg.ackNum);
        if c1.status == TimeWait {
          PayloadPart(c1, [], seg);
        } else if c1.status != LastAck {
          RefusedIff(c1, seg);
          var r := HandleAck(c1, seg);
          AckStatus(c1, seg);
          SameBuffered(c1.tcb, r.conn.tcb);
          if !r.dropped {
            PayloadPart(r.conn, r.out, seg);
          }
        }
      }
    }
  }

  lemma OpeningKeepsReceiveSide(c: Conn, ack: uint32)
    ensures OpenIfAcked(c, ack).tcb == c.tcb
  {
    hide Wrap;
  }

  lemma SameBuffered(t: TcbState, t': TcbState)
    requires ReceiveSideOk(t) && OnlyAcknowledges(t, t')
    ensures ReceiveSideOk(t') && t'.Buffered() == t.Buffered()
  {
    hide Window;
  }

  lemma PayloadPart(c: Conn, out: seq<Segment>, seg: Segment)
    requires ReceiveSideOk(c.tcb) && !seg.flags.fin && (Stores(c.status) ==> |seg.payload| <= c.tcb.rcvWnd)
    ensures var r := Process(c, out, seg);
            var taken := c.status in {Established, FinWait1, FinWait2};
            && ReceiveSideOk(r.conn.tcb)
            && r.conn.tcb.Buffered() == c.tcb.Buffered() + (if taken then seg.payload else [])
            && r.out == out + if taken && seg.payload != [] then [AckOf(r.conn, seg)] else []
  {
    hide Wrap, Store, Window;
    assert c.tcb.Buffered() + [] == c.tcb.Buffered();
    if Stores(c.status) {
      StoreExtendsWindow(c.tcb.rcvBuf, c.tcb.rcvLbr, c.tcb.rcvNxt, seg.payload);
    }
  }

  /**
   A FIN in its place is acknowledged, and moves RCV.NXT without storing anything: the old content of the slot counts
   as received.
   */
  lemma FinIsReadAsAByte(c: Conn, out: seq<Segment>, seg: Segment)
    requires ReceiveSideOk(c.tcb) && seg.flags.fin && seg.payload == []
    requires seg.seqNum == Wrap(c.tcb.irs, c.tcb.rcvNxt) && seg.seqNum + 1 < TWO32
    ensures var r := Process(c, out, seg); var t' := r.conn.tcb;
            && t'.Shaped() && t'.rcvNxt == c.tcb.rcvNxt + 1 && t'.rcvWnd == c.tcb.rcvWnd
            && t'.Buffered() == c.tcb.Buffered() + [c.tcb.rcvBuf[c.tcb.rcvNxt % SLOTS]]
            && r.out == out + [Segment(Wrap(t'.iss, t'.sendNxt), Wrap(t'.irs, t'.rcvNxt), ACK, t'.rcvWnd, [])]
  {
    hide Wrap, Store;
    assert WrappedDist(seg.seqNum, seg.seqNum + 1) == 1 && (seg.seqNum + 1) % TWO32 == seg.seqNum + 1;
  }

  /**
   A read that finds anything buffered in front of a FIN can so return, behind it, one byte that was never sent; then
   the 16-bit window has come round to 0.
   */
  lemma ReadAfterFin(c: Conn, out: seq<Segment>, seg: Segment, count: nat)
    requires ReceiveSideOk(c.tcb) && seg.flags.fin && seg.payload == []
    requires seg.seqNum == Wrap(c.tcb.irs, c.tcb.rcvNxt) && seg.seqNum + 1 < TWO32
    requires |c.tcb.Buffered()| < count < SLOTS
    ensures var t := Process(c, out, seg).conn.tcb;
            && t.Shaped()
            && ReadRecv(t, count).1 == c.tcb.Buffered() + [c.tcb.rcvBuf[c.tcb.rcvNxt % SLOTS]]
            && ReadRecv(t, count).0.rcvWnd == 0
  {
    hide Wrap, Process, Window, ReadRecv;
    FinIsReadAsAByte(c, out, seg);
    var t := Process(c, out, seg).conn.tcb;
    ReadIsFront(t, count);
    assert t.Buffered()[..|t.Buffered()|] == t.Buffered();
  }

  /** With a payload, the distance to the number behind the FIN is taken from behind the payload, and is one-sided. */
  lemma FinPart(c: Conn, out: seq<Segment>, seg: Segment)
    requires c.tcb.Shaped() && Stores(c.status) && |seg.payload| <= c.tcb.rcvWnd && seg.flags.fin
    requires seg.seqNum == Wrap(c.tcb.irs, c.tcb.rcvNxt) && seg.seqNum + |seg.payload| < TWO32
    ensures Process(c, out, seg).conn.tcb.rcvNxt
            == c.tcb.rcvNxt + if seg.payload != [] then 2 * |seg.payload| - 1
                              else if seg.seqNum + 1 < TWO32 then 1 else TCB_SIZE
  {
    hide Store;
    var n := |seg.payload|;
    ForwardWithoutWrap(c.tcb.irs, c.tcb.rcvNxt, n);
    assert seg.seqNum + 1 < TWO32 ==> (seg.seqNum + 1) % TWO32 == seg.seqNum + 1;
    hide Wrap;
  }

  lemma InPlaceIsBelowTop(c: Conn, seg: Segment)
    requires Fits(c, seg) && Accepted(c, seg) && Heeded(c, seg) && c.status in {Established, FinWait1, FinWait2}
    requires seg.seqNum == Wrap(c.tcb.irs, c.tcb.rcvNxt)
    ensures |seg.payload| <= c.tcb.rcvWnd && seg.seqNum + |seg.payload| < TWO32
  {
    hide Wrap, AckRefused;
  }

  lemma ForwardWithoutWrap(base: uint32, pointer: nat, n: nat)
    requires Wrap(base, pointer) + n < TWO32
    ensures Wrap(base, pointer + n) == Wrap(base, pointer) + n
  {
    var q := (base + pointer) / TWO32;
    assert base + (pointer + n) == q * TWO32 + (Wrap(base, pointer) + n);
  }

  /**
   A FIN in its place moves RCV.NXT just behind itself if and only if it comes without payload, or with two bytes: a
   payload of n bytes moves it by 2n - 1. (Without payload and window it may also be numbered 2^32 - 1.)
   */
  lemma FinIsCountedIff(c: Conn, seg: Segment)
    requires c.tcb.Shaped() && Fits(c, seg) && Accepted(c, seg) && Heeded(c, seg)
    requires c.status in {Established, FinWait1, FinWait2}
    requires seg.flags.fin && seg.seqNum == Wrap(c.tcb.irs, c.tcb.rcvNxt)
    ensures var nxt, nxt' := c.tcb.rcvNxt, Handle(c, seg).conn.tcb.rcvNxt;
            && (nxt' == nxt + |seg.payload| + 1
                <==> |seg.payload| == 2 || (seg.payload == [] && seg.seqNum + 1 < TWO32))
            && (seg.payload != [] ==> nxt' == nxt + 2 * |seg.payload| - 1)
  {
    hide Wrap, SegmentAcceptable, Process, HandleAck, AckRefused, TcbState.Shaped;
    InPlaceIsBelowTop(c, seg);
    if !seg.flags.ack {
      FinPart(c, [], seg);
    } else {
      RefusedIff(c, seg);
      AckStatus(c, seg);
      var r := HandleAck(c, seg);
      FinPart(r.conn, r.out, seg);
    }
  }

  /** (a, b) comes before or is (c, d), in lexicographic order. */
  predicate NotAfter(a: uint32, b: uint32, c: uint32, d: uint32) {
    a < c || (a == c && b <= d)
  }

  /** The send window is that of the newest segment, by sequence and then acknowledgment number, that acknowledged. */
  lemma WindowIsOfNewest(c: Conn, seg: Segment)
    ensures var t, t' := c.tcb, HandleAck(c, seg).conn.tcb;
            if AckAcceptable(t.WrappedUna(), t.WrappedSendNxt(), seg.ackNum)
               && NotAfter(t.sendWl1, t.sendWl2, seg.seqNum, seg.ackNum)
            then t'.sendWl1 == seg.seqNum && t'.sendWl2 == seg.ackNum && t'.sendWnd == seg.window
            else t'.sendWl1 == t.sendWl1 && t'.sendWl2 == t.sendWl2 && t'.sendWnd == t.sendWnd
  {
    hide Wrap, Kept, WrappedDist;
  }

  // ---------------------------------------------------------------------------------------------------
  // Runs: the peer's FIN
  // ---------------------------------------------------------------------------------------------------

  predicate TakesFin(c: Conn, ev: Event) {
    ev.Receive? && ev.seg.flags.fin && Accepted(c, ev.seg) && Heeded(c, ev.seg)
    && c.status in {Established, FinWait1, FinWait2}
  }

  predicate PeerFinished(s: Status) {
    s in {CloseWait, Closing, LastAck, TimeWait}
  }

  lemma ReceiveFinIff(c: Conn, seg: Segment)
    requires c.tcb.Shaped() && Fits(c, seg)
    requires c.status in {Established, FinWait1, FinWait2} || PeerFinished(c.status)
    ensures var s := Handle(c, seg).conn.status;
            s != Closed ==>
              && (s in {Established, FinWait1, FinWait2} || PeerFinished(s))
              && (PeerFinished(s) <==> PeerFinished(c.status) || TakesFin(c, Receive(seg)))
  {
    hide Handle, Wrap, AckRefused, SegmentAcceptable, TcbState.Shaped, Fits;
    if !InWindow(c, seg) {
      UnacceptableIsAnswered(c, seg);
    } else if !Accepted(c, seg) {
      ResetDeletes(c, seg);
    } else if !seg.flags.ack {
      BareSegmentMovesOn(c, seg);
    } else if !Heeded(c, seg) {
      if c.status !in {LastAck, TimeWait} {
        UnheededIsAnswered(c, seg);
      } else {
        LateAck(c, seg);
      }
    } else if seg.flags.fin {
      FinMovesOn(c, seg);
    } else {
      AckMovesOn(c, seg);
    }
  }

  /** LAST-ACK and TIME-WAIT do not look at the number of the acknowledgment. */
  lemma LateAck(c: Conn, seg: Segment)
    requires c.tcb.Shaped() && Fits(c, seg) && Accepted(c, seg) && seg.flags.ack
    ensures c.status == LastAck ==>
              Handle(c, seg).conn == c.(status := Closed, registered := false, queue := []) && Handle(c, seg).out == []
    ensures c.status == TimeWait ==> Handle(c, seg).conn.status == TimeWait
  {
    hide Wrap, SegmentAcceptable, Process, HandleAck;
    if c.status == TimeWait {
      FinStatus(c, [], seg);
    }
  }

  lemma StepFinIff(c: Conn, ev: Event)
    requires Allowed(c, ev) && (c.status in {Established, FinWait1, FinWait2} || PeerFinished(c.status))
    ensures var s := Lifecycle.Next(c, ev).status;
            s != Closed ==>
              && (s in {Established, FinWait1, FinWait2} || PeerFinished(s))
              && (PeerFinished(s) <==> PeerFinished(c.status) || TakesFin(c, ev))
  {
    hide Wrap, Handle, WriteSegment, Accepted, Heeded;
    if ev.Receive? {
      ReceiveFinIff(c, ev.seg);
    } else if ev.WriteData? {
      WriteSegmentSends(c, ev.data);
    }
  }

  /** Over any run from ESTABLISHED: the status says that the peer has finished exactly if a FIN was taken. */
  lemma {:induction false} FinTakenIff(states: seq<Conn>, events: seq<Event>)
    requires Lifecycle.IsRun(states, events) && states[0].status == Established
    ensures var s := states[|events|].status;
            s != Closed ==>
              && (s in {Established, FinWait1, FinWait2} || PeerFinished(s))
              && (PeerFinished(s) <==> exists i :: 0 <= i < |events| && TakesFin(states[i], events[i]))
  {
    if events != [] {
      hide Lifecycle.Next, Allowed, TakesFin;
      var n := |events| - 1;
      var before, earlier := states[..n + 1], events[..n];
      FinTakenIff(before, earlier);
      assert states[n + 1] == Lifecycle.Next(states[n], events[n]);
      StepFollowsFigure5(states[n], events[n]);
      if states[n].status != Closed {
        StepFinIff(states[n], events[n]);
        assert forall i :: 0 <= i < n ==> before[i] == states[i] && earlier[i] == events[i];
        TakenEarlierOrNow(states, events);
      }
    }
  }

  lemma TakenEarlierOrNow(states: seq<Conn>, events: seq<Event>)
    requires |states| == |events| + 1 && events != []
    ensures var n := |events| - 1;
            (exists i :: 0 <= i < |events| && TakesFin(states[i], events[i]))
            <==> TakesFin(states[n], events[n])
                 || exists i :: 0 <= i < n && TakesFin(states[..n + 1][i], events[..n][i])
  {
    hide TakesFin;
    var n := |events| - 1;
    if i :| 0 <= i < |events| && TakesFin(states[i], events[i]) {
      if i < n {
        assert TakesFin(states[..n + 1][i], events[..n][i]);
      }
    }
    if i :| 0 <= i < n && TakesFin(states[..n + 1][i], events[..n][i]) {
      assert TakesFin(states[i], events[i]);
    }
  }

  // ---------------------------------------------------------------------------------------------------
  // Runs: our FIN
  // ---------------------------------------------------------------------------------------------------

  /** No timer, no reset, no close before there was an answer. */
  predicate Regular(c: Conn, ev: Event) {
    ev != Expire && (ev.Receive? ==> !ev.seg.flags.rst) && (ev == Shut ==> c.status != SynSent)
  }

  lemma ReceiveClosesIff(c: Conn, seg: Segment)
    requires c.tcb.Shaped() && Fits(c, seg) && !seg.flags.rst && c.status != Closed
    ensures var s := Handle(c, seg).conn.status;
            && (s == Closed <==> c.status == LastAck && InWindow(c, seg) && seg.flags.ack)
            && (s == LastAck ==> c.status == LastAck)
  {
    hide Handle, Wrap, AckRefused, SegmentAcceptable, TcbState.Shaped, Fits, HandleSynSent;
    if c.status == SynSent || c.status == Listen {
      UnsynchronizedStays(c, seg);
    } else if !InWindow(c, seg) {
      UnacceptableIsAnswered(c, seg);
    } else if !seg.flags.ack {
      BareSegmentMovesOn(c, seg);
    } else if c.status in {LastAck, TimeWait} {
      LateAck(c, seg);
    } else if !Heeded(c, seg) {
      UnheededIsAnswered(c, seg);
    } else if seg.flags.fin {
      FinMovesOn(c, seg);
    } else {
      AckMovesOn(c, seg);
    }
  }

  lemma UnsynchronizedStays(c: Conn, seg: Segment)
    requires c.tcb.Shaped() && Fits(c, seg) && !seg.flags.rst && c.status in {SynSent, Listen}
    ensures Handle(c, seg).conn.status in {SynSent, Listen, SynRecv, Established}
  {
    hide Wrap, Kept, WrappedDist;
  }

  lemma StepClosesOnlyFromLastAck(c: Conn, ev: Event)
    requires Allowed(c, ev) && Regular(c, ev) && c.status != Closed
    ensures var c' := Lifecycle.Next(c, ev);
            && (c'.status == Closed ==> c.status == LastAck && ev.Receive? && ev.seg.flags.ack)
            && (c'.status == LastAck && c.status != LastAck ==>
                  c.status == CloseWait && ev == Shut && FinGoesOut(c, c', Close(c).out, LastAck))
  {
    hide Wrap, Handle, WriteSegment, Close;
    if ev.Receive? {
      ReceiveClosesIff(c, ev.seg);
    } else if ev == Shut {
      CloseLaw(c);
    } else if ev.WriteData? {
      WriteSegmentSends(c, ev.data);
    }
  }

  /** The step in which our FIN went out, and the connection to LAST-ACK. */
  predicate LastAckEntered(states: seq<Conn>, events: seq<Event>, j: nat)
    requires |states| == |events| + 1 && j < |events|
  {
    states[j].status == CloseWait && events[j] == Shut
    && FinGoesOut(states[j], states[j + 1], Close(states[j]).out, LastAck)
  }

  /**
   Over any run without a timer, a reset or a close in SYN-SENT: a connection that is in LAST-ACK, or was there and
   is deleted, has sent its FIN from CLOSE-WAIT; and one is deleted only from LAST-ACK, by an acknowledgment.
   */
  lemma {:induction false} ClosedThroughLastAck(states: seq<Conn>, events: seq<Event>)
    requires Lifecycle.IsRun(states, events) && states[0].status !in {LastAck, Closed}
    requires forall i :: 0 <= i < |events| ==> Regular(states[i], events[i])
    ensures states[|events|].status in {LastAck, Closed} ==>
              exists j: nat :: j < |events| && LastAckEntered(states, events, j)
    ensures states[|events|].status == Closed ==>
              exists i :: 0 <= i < |events| && states[i].status == LastAck && states[i + 1].status == Closed
                && events[i].Receive? && events[i].seg.flags.ack
  {
    if events != [] {
      hide Lifecycle.Next, Allowed, Regular, FinGoesOut, Close;
      var n := |events| - 1;
      var before, earlier := states[..n + 1], events[..n];
      ClosedThroughLastAck(before, earlier);
      assert states[n + 1] == Lifecycle.Next(states[n], events[n]);
      if states[n].status == Closed {
        StepFollowsFigure5(states[n], events[n]);
        var i :| 0 <= i < n && before[i].status == LastAck && before[i + 1].status == Closed
          && earlier[i].Receive? && earlier[i].seg.flags.ack;
        assert states[i].status == LastAck && states[i + 1].status == Closed && events[i] == earlier[i];
      } else {
        StepClosesOnlyFromLastAck(states[n], events[n]);
      }
      if states[n].status in {LastAck, Closed} {
        var j: nat :| j < n && LastAckEntered(before, earlier, j);
        assert LastAckEntered(states, events, j);
      } else if states[n + 1].status in {LastAck, Closed} {
        assert LastAckEntered(states, events, n);
      }
    }
  }
}
