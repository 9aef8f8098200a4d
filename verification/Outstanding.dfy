/**
 What is sent and not yet acknowledged, over whole runs of one connection: the retransmission queue never
 forgets it, and the closing statuses tell the truth about it.
 */
module Outstanding {
  import opened Words
  import opened Sequence
  import opened Segments
  import opened RetransmitQueue
  import opened Tcb
  import opened ConnectionModel
  import opened Lifecycle

  /** At most 65535 sequence numbers outstanding, and one more for a FIN. */
  predicate SendOk(c: Conn) {
    var t := c.tcb;
    && t.Shaped()
    && t.sendUna <= t.sendNxt <= t.sendUna + TCB_SIZE + (if FinSent(c.status) then 1 else 0)
    && (c.status == SynSent ==> t.sendUna == 0 && t.sendNxt == 1)
  }

  /** Where an acknowledgment moves SND.UNA. */
  function Moved(t: TcbState, ack: uint32): nat {
    t.sendUna + WrappedDist(t.WrappedUna(), ack)
  }

  // ---------------------------------------------------------------------------------------------------
  // What a segment does to the send side
  // ---------------------------------------------------------------------------------------------------

  predicate SameSendSide(t: TcbState, t': TcbState) {
    t'.iss == t.iss && t'.sendNxt == t.sendNxt && t'.sendLbr == t.sendLbr && t'.sendBuf == t.sendBuf
  }

  /** The send side is left alone, or an acceptable acknowledgment moves SND.UNA and cleans the queue up. */
  predicate SendSideStep(c: Conn, ack: uint32, c': Conn) {
    && SameSendSide(c.tcb, c'.tcb)
    && (|| (c'.tcb.sendUna == c.tcb.sendUna && c'.queue == c.queue)
        || (AckAcceptable(c.tcb.WrappedUna(), c.tcb.WrappedSendNxt(), ack)
            && c'.tcb.sendUna == Moved(c.tcb, ack)
            && c'.queue == Kept(c.queue, c'.tcb.WrappedUna())))
  }

  lemma ProcessSendSide(c: Conn, out: seq<Segment>, seg: Segment)
    requires c.tcb.Shaped() && (Stores(c.status) ==> |seg.payload| <= c.tcb.rcvWnd)
    ensures var c' := Process(c, out, seg).conn;
            SameSendSide(c.tcb, c'.tcb) && c'.tcb.sendUna == c.tcb.sendUna && c'.queue == c.queue && c'.tcb.Shaped()
  {
    hide Wrap, Store, Window, WrappedDist;
  }

  lemma AckSendSide(c: Conn, seg: Segment)
    ensures var r := HandleAck(c, seg);
            SendSideStep(c, seg.ackNum, r.conn)
            && (AckAcceptable(c.tcb.WrappedUna(), c.tcb.WrappedSendNxt(), seg.ackNum)
                ==> r.conn.tcb.sendUna == Moved(c.tcb, seg.ackNum))
  {
    hide Wrap, Kept, WrappedDist;
  }

  lemma HandleSendSide(c: Conn, seg: Segment)
    requires c.tcb.Shaped() && Fits(c, seg) && c.status != SynSent
    ensures var c' := Handle(c, seg).conn;
            c'.tcb.Shaped()
            && (SendSideStep(c, seg.ackNum, c')
                || (c'.status == Closed && SameSendSide(c.tcb, c'.tcb)
                    && c'.tcb.sendUna == c.tcb.sendUna && c'.queue == []))
  {
    hide Wrap, Process, HandleAck, SegmentAcceptable, Kept, WrappedDist, OnlyAcknowledges, Moved, TcbState.Shaped;
    if c.status != Closed && c.status != Listen && InWindow(c, seg) && !Resets(c, seg) {
      if !seg.flags.ack {
        ProcessSendSide(c, [], seg);
      } else {
        var c1 := OpenIfAcked(c, seg.ackNum);
        if c1.status == TimeWait {
          ProcessSendSide(c1, [], seg);
        } else if c1.status != LastAck {
          AckSendSide(c1, seg);
          var r := HandleAck(c1, seg);
          if !r.dropped {
            ProcessSendSide(r.conn, r.out, seg);
          }
        }
      }
    }
  }

  /** In SYN-SENT: nothing, a reset, our SYN acknowledged, or (simultaneous open) a second entry for our SYN. */
  lemma SynSentSendSide(c: Conn, seg: Segment)
    requires SendOk(c) && c.status == SynSent
    ensures var c' := HandleSynSent(c, seg).conn;
            && c'.tcb.Shaped() && SameSendSide(c.tcb, c'.tcb)
            && match c'.status
               case SynSent => c'.tcb.sendUna == 0 && c'.queue == c.queue
               case Closed => c'.tcb.sendUna == 0 && c'.queue == []
               case Established => c'.tcb.sendUna == 1 && seg.ackNum == Wrap(c.tcb.iss, 1)
                                   && c'.queue == Kept(c.queue, c'.tcb.WrappedUna())
               case SynRecv => c'.tcb.sendUna == 0 && c'.queue == c.queue + [Entry(c.tcb.iss, SYN_ACK, [])]
               case _ => false
  {
    hide Kept;
    var t := c.tcb;
    assert t.WrappedUna() == t.iss;
    if seg.flags.ack && t.iss < seg.ackNum && seg.ackNum <= t.WrappedSendNxt() {
      AcceptedAckIsExact(t.iss, 0, 1, seg.ackNum);
    }
  }

  // ---------------------------------------------------------------------------------------------------
  // The bound on what is outstanding
  // ---------------------------------------------------------------------------------------------------

  lemma StepKeepsSendOk(c: Conn, ev: Event)
    requires SendOk(c) && Allowed(c, ev)
    ensures SendOk(Next(c, ev)) && Next(c, ev).tcb.iss == c.tcb.iss
  {
    hide Wrap, Window, Handle, WriteSegment;
    match ev
    case Receive(seg) => ReceiveKeepsSendOk(c, seg);
    case WriteData(data) => WriteKeepsSendOk(c, data);
    case _ =>
  }

  lemma WriteKeepsSendOk(c: Conn, data: seq<byte>)
    requires SendOk(c) && Allowed(c, WriteData(data))
    ensures SendOk(WriteSegment(c, data).0) && WriteSegment(c, data).0.tcb.iss == c.tcb.iss
  {
    hide Wrap, Store, Window, SendCapacity, WriteSegment;
    CapacityIsSound(c.tcb);
    WriteSegmentSends(c, data);
  }

  lemma ReceiveKeepsSendOk(c: Conn, seg: Segment)
    requires SendOk(c) && Allowed(c, Receive(seg))
    ensures SendOk(Handle(c, seg).conn) && Handle(c, seg).conn.tcb.iss == c.tcb.iss
  {
    hide Wrap, Kept, WrappedDist, HandleSynSent, HandleOther, SegmentAcceptable;
    if c.status == SynSent {
      SynSentSendSide(c, seg);
    } else {
      HandleSendSide(c, seg);
      HandleStatus(c, seg);
      StepFollowsFigure5(c, Receive(seg));
      if AckAcceptable(c.tcb.WrappedUna(), c.tcb.WrappedSendNxt(), seg.ackNum) {
        AcceptedAckIsExact(c.tcb.iss, c.tcb.sendUna, c.tcb.sendNxt, seg.ackNum);
      }
    }
  }

  // ---------------------------------------------------------------------------------------------------
  // The retransmission queue never forgets
  // ---------------------------------------------------------------------------------------------------

  /** Until the connection is deleted, the queue can resend whatever is not acknowledged, contents included. */
  ghost predicate Remembers(c: Conn, written: seq<byte>) {
    c.status != Closed ==>
      && Covers(c.queue, c.tcb.iss, c.tcb.sendUna, c.tcb.sendNxt, written)
      && c.tcb.sendNxt == 1 + |written| + (if FinSent(c.status) then 1 else 0)
  }

  function WrittenAfter(written: seq<byte>, ev: Event): seq<byte> {
    if ev.WriteData? then written + ev.data else written
  }

  /** The acknowledgment does not land inside the newest segment of the queue. */
  predicate AckOnSegmentEnd(c: Conn, ev: Event) {
    ev.Receive? && AckAcceptable(c.tcb.WrappedUna(), c.tcb.WrappedSendNxt(), ev.seg.ackNum) ==>
      var moved := Moved(c.tcb, ev.seg.ackNum);
      moved == c.tcb.sendNxt || (c.queue != [] && moved + Span(c.queue[|c.queue| - 1]) <= c.tcb.sendNxt)
  }

  lemma WriteRemembers(c: Conn, data: seq<byte>, written: seq<byte>)
    requires SendOk(c) && Allowed(c, WriteData(data)) && Remembers(c, written)
    ensures Remembers(WriteSegment(c, data).0, written + data)
  {
    hide Wrap, Store, Window, SendCapacity, Covers;
    WriteSegmentSends(c, data);
    var e := Entry(c.tcb.WrappedSendNxt(), ACK, data);
    assert (written + data)[|written|..|written| + |data|] == data;
    PushCovers(c.queue, c.tcb.iss, c.tcb.sendUna, c.tcb.sendNxt, written, data, e);
  }

  /** An entry that ends at `nxt` does not end at `nxt + 1`. */
  lemma NotOneFurther(q: seq<Entry>, iss: uint32, una: nat, nxt: nat, written: seq<byte>, lo: nat, written': seq<byte>)
    requires Covers(q, iss, una, nxt, written) && (una == nxt ==> q == []) && una <= nxt && lo <= una
    ensures forall k: nat :: k <= |q| ==> !Tiles(q[k..], iss, lo, nxt + 1, written')
  {
    forall k: nat | k <= |q|
      ensures !Tiles(q[k..], iss, lo, nxt + 1, written')
    {
      if k < |q| {
        CoverEndsWithNewest(q, iss, una, nxt, written);
        var span := Span(q[|q| - 1]);
        assert q[k..][|q[k..]| - 1] == q[|q| - 1];
        WrapInjective(iss, nxt + 1 - span, nxt - span);
      }
    }
  }

  lemma TilesWithoutNewest(q: seq<Entry>, e: Entry, iss: uint32, lo: nat, hi: nat, written: seq<byte>, k: nat)
    requires k <= |q| && Tiles((q + [e])[k..], iss, lo, hi + Span(e), written)
    ensures Tiles(q[k..], iss, lo, hi, written)
  {
    hide Wrap;
    assert (q + [e])[k..] == q[k..] + [e];
    assert (q[k..] + [e])[..|q[k..]|] == q[k..];
  }

  /** When a byte is skipped, nothing covers it. */
  lemma SkippedByteIsNotCovered(
    q: seq<Entry>, iss: uint32, una: nat, nxt: nat, written: seq<byte>, e: Entry, written': seq<byte>)
    requires Covers(q, iss, una, nxt, written) && (una == nxt ==> q == []) && una <= nxt
    ensures !Covers(q, iss, una, nxt + 1, written')
    ensures Span(e) > 0 ==> !Covers(q + [e], iss, una, nxt + 1 + Span(e), written')
  {
    hide Wrap;
    var hi := nxt + 1;
    forall k: nat, lo: nat {:trigger Tiles(q[k..], iss, lo, hi, written')} | k <= |q| && lo <= una
      ensures !Tiles(q[k..], iss, lo, hi, written')
    {
      NotOneFurther(q, iss, una, nxt, written, lo, written');
    }
    var more, end := q + [e], hi + Span(e);
    forall k: nat, lo: nat {:trigger Tiles(more[k..], iss, lo, end, written')} | k <= |more| && lo <= una && Span(e) > 0
      ensures !Tiles(more[k..], iss, lo, end, written')
    {
      if k <= |q| && Tiles(more[k..], iss, lo, end, written') {
        TilesWithoutNewest(q, e, iss, lo, hi, written', k);
      }
    }
  }

  /** A turn of `VWrite` keeps everything resendable if and only if it finds the window open. */
  lemma WriteTurnRemembersIff(c: Conn, data: seq<byte>, written: seq<byte>)
    requires SendOk(c) && Remembers(c, written) && (c.tcb.sendUna == c.tcb.sendNxt ==> c.queue == [])
    requires c.status == Established && c.tcb.sendLbr == c.tcb.sendNxt && 0 < |data| <= MSS
    requires |data| <= SendCapacity(c.tcb)
    ensures Remembers(WriteTurn(c, data).0, written + data) <==> c.tcb.sendWnd > 0
  {
    hide Wrap, Store, Window, SendCapacity, Covers, SendRest, TakeProbe, WriteSegment;
    if c.tcb.sendWnd > 0 {
      WriteRemembers(c, data, written);
    } else {
      TurnSendsExactlyIff(c, data);
      var e := Entry(Wrap(c.tcb.iss, c.tcb.sendNxt + 1), ACK, data[1..]);
      SkippedByteIsNotCovered(c.queue, c.tcb.iss, c.tcb.sendUna, c.tcb.sendNxt, written, e, written + data);
    }
  }

  lemma ShutRemembers(c: Conn, written: seq<byte>)
    requires SendOk(c) && Allowed(c, Shut) && Remembers(c, written)
    ensures Remembers(Close(c).conn, written)
  {
    hide Wrap, Covers;
    if c.status != SynSent && c.status != FinWait2 && c.status != TimeWait {
      var e := Entry(c.tcb.WrappedSendNxt(), FIN_ACK, []);
      assert written + [] == written;
      PushCovers(c.queue, c.tcb.iss, c.tcb.sendUna, c.tcb.sendNxt, written, [], e);
    }
  }

  lemma SynSentRemembers(c: Conn, seg: Segment, written: seq<byte>)
    requires SendOk(c) && c.status == SynSent && Remembers(c, written)
    ensures Remembers(HandleSynSent(c, seg).conn, written)
  {
    hide HandleSynSent, Covers;
    SynSentSendSide(c, seg);
    match HandleSynSent(c, seg).conn.status
    case Established =>
      CleanupCovers(c.queue, c.tcb.iss, 0, 1, 1, written);
    case SynRecv =>
      var q := c.queue + [Entry(c.tcb.iss, SYN_ACK, [])];
      assert q[|c.queue|..] == [Entry(c.tcb.iss, SYN_ACK, [])];
      OneEntryCovers(q, c.tcb.iss, written);
    case _ =>
  }

  lemma OneEntryCovers(q: seq<Entry>, iss: uint32, written: seq<byte>)
    requires q != [] && q[|q| - 1] in {Entry(iss, SYN, []), Entry(iss, SYN_ACK, [])}
    ensures Covers(q, iss, 0, 1, written)
  {
    var suffix := q[|q| - 1..];
    assert suffix == [q[|q| - 1]] && suffix[..0] == [];
    assert Tiles(q[|q| - 1..], iss, 0, 1, written);
  }

  lemma ReceiveRemembers(c: Conn, seg: Segment, written: seq<byte>)
    requires SendOk(c) && Allowed(c, Receive(seg)) && c.status != SynSent
    requires Remembers(c, written) && AckOnSegmentEnd(c, Receive(seg))
    ensures Remembers(Handle(c, seg).conn, written)
  {
    hide Wrap, Kept, WrappedDist, HandleSynSent, HandleOther, SegmentAcceptable, Covers;
    HandleSendSide(c, seg);
    HandleStatus(c, seg);
    if c.status != Closed && AckAcceptable(c.tcb.WrappedUna(), c.tcb.WrappedSendNxt(), seg.ackNum) {
      AcceptedAckIsExact(c.tcb.iss, c.tcb.sendUna, c.tcb.sendNxt, seg.ackNum);
      CleanupCovers(c.queue, c.tcb.iss, c.tcb.sendUna, Moved(c.tcb, seg.ackNum), c.tcb.sendNxt, written);
    }
  }

  lemma StepRemembers(c: Conn, ev: Event, written: seq<byte>)
    requires SendOk(c) && Allowed(c, ev) && Remembers(c, written) && AckOnSegmentEnd(c, ev)
    ensures Remembers(Next(c, ev), WrittenAfter(written, ev))
  {
    hide Wrap, Covers, HandleSynSent, HandleOther, AckOnSegmentEnd, WriteSegment;
    match ev
    case Receive(seg) =>
      if c.status == SynSent { SynSentRemembers(c, seg, written); } else { ReceiveRemembers(c, seg, written); }
    case WriteData(data) => WriteRemembers(c, data, written);
    case ReadData(count) =>
    case Shut => ShutRemembers(c, written);
    case Expire =>
    case Resend =>
  }

  function Written(events: seq<Event>): seq<byte> {
    if events == [] then [] else WrittenAfter(Written(events[..|events| - 1]), events[|events| - 1])
  }

  /**
   Over any run from an opening, as long as acknowledgments land on segment ends: every byte that is written
   and not acknowledged, and an outstanding SYN or FIN, can be resent from the queue.
   */
  lemma {:induction false} QueueNeverForgets(states: seq<Conn>, events: seq<Event>)
    requires IsRun(states, events) && SendOk(states[0]) && Remembers(states[0], [])
    requires forall i :: 0 <= i < |events| ==> AckOnSegmentEnd(states[i], events[i])
    ensures SendOk(states[|events|]) && Remembers(states[|events|], Written(events))
  {
    if events != [] {
      var n := |events| - 1;
      hide Next, Allowed, SendOk, Remembers, AckOnSegmentEnd;
      QueueNeverForgets(states[..n + 1], events[..n]);
      StepKeepsSendOk(states[n], events[n]);
      StepRemembers(states[n], events[n], Written(events[..n]));
      assert states[n + 1] == Next(states[n], events[n]);
    }
  }

  /** Both openings start out remembering their SYN. */
  lemma OpeningsRemember(t: TcbState, syn: Segment)
    requires t.Shaped() && t.sendUna == 0 && t.sendNxt == 1
    ensures SendOk(Connect(t).conn) && Remembers(Connect(t).conn, [])
    ensures SendOk(Accept(t, syn).conn) && Remembers(Accept(t, syn).conn, [])
  {
    hide Covers;
    OneEntryCovers([] + [Entry(t.iss, SYN, [])], t.iss, []);
    OneEntryCovers([] + [Entry(t.iss, SYN_ACK, [])], t.iss, []);
  }

  // ---------------------------------------------------------------------------------------------------
  // What the closing statuses mean
  // ---------------------------------------------------------------------------------------------------

  /** While our FIN is in doubt something is outstanding; afterwards nothing is. */
  predicate ClosingIsSound(c: Conn) {
    && (c.status == FinWait1 || c.status == Closing ==> c.tcb.sendUna < c.tcb.sendNxt)
    && (c.status == FinWait2 || c.status == TimeWait ==> c.tcb.sendUna == c.tcb.sendNxt)
  }

  /** The conditions under which it is: a bound, no crossing of 2^32, and peers that always acknowledge. */
  predicate Tame(c: Conn) {
    c.tcb.sendNxt <= c.tcb.sendUna + TCB_SIZE && c.tcb.WrappedUna() <= c.tcb.WrappedSendNxt()
  }

  predicate CarriesAck(ev: Event) {
    ev.Receive? ==> ev.seg.flags.ack
  }

  lemma AckClosing(c: Conn, seg: Segment)
    requires SendOk(c) && Tame(c) && ClosingIsSound(c)
    ensures var r := HandleAck(c, seg);
            && ClosingIsSound(r.conn) && r.conn.tcb.sendNxt == c.tcb.sendNxt && r.conn.tcb.iss == c.tcb.iss
            && (!r.dropped && r.conn.status == FinWait1 ==> seg.ackNum != c.tcb.WrappedSendNxt())
  {
    hide Wrap, Kept, WrappedDist;
    var t := c.tcb;
    if AckAcceptable(t.WrappedUna(), t.WrappedSendNxt(), seg.ackNum) {
      AcceptedAckIsExact(t.iss, t.sendUna, t.sendNxt, seg.ackNum);
    } else if seg.ackNum == t.WrappedSendNxt() {
      WrapInjective(t.iss, t.sendUna, t.sendNxt);
    }
  }

  lemma ProcessClosing(c: Conn, out: seq<Segment>, seg: Segment)
    requires c.tcb.Shaped() && (Stores(c.status) ==> |seg.payload| <= c.tcb.rcvWnd)
    requires ClosingIsSound(c)
    requires c.status == FinWait1 ==> seg.ackNum != c.tcb.WrappedSendNxt()
    ensures ClosingIsSound(Process(c, out, seg).conn)
  {
    hide Wrap, Store, Window, WrappedDist;
  }

  lemma ReceiveClosing(c: Conn, seg: Segment)
    requires SendOk(c) && Tame(c) && ClosingIsSound(c) && Allowed(c, Receive(seg)) && seg.flags.ack
    ensures ClosingIsSound(Handle(c, seg).conn)
  {
    hide Wrap, Process, HandleAck, SegmentAcceptable, Kept, WrappedDist, OnlyAcknowledges, HandleSynSent;
    if c.status == SynSent {
      HandleSynSentStatus(c, seg);
    } else if c.status != Closed && c.status != Listen && InWindow(c, seg) && !Resets(c, seg) {
      var c1 := OpenIfAcked(c, seg.ackNum);
      if c1.status == TimeWait {
        ProcessClosing(c1, [], seg);
      } else if c1.status != LastAck {
        AckClosing(c1, seg);
        var r := HandleAck(c1, seg);
        if !r.dropped {
          ProcessClosing(r.conn, r.out, seg);
        }
      }
    }
  }

  lemma StepClosing(c: Conn, ev: Event)
    requires SendOk(c) && Tame(c) && ClosingIsSound(c) && Allowed(c, ev) && CarriesAck(ev)
    ensures ClosingIsSound(Next(c, ev))
  {
    hide Wrap, Handle, WriteSegment, SendCapacity, Tame;
    match ev
    case Receive(seg) => ReceiveClosing(c, seg);
    case WriteData(data) => WriteSegmentSends(c, data);
    case _ =>
  }

  /** Over any run whose states are tame and whose segments acknowledge, every closing status is sound. */
  lemma {:induction false} ClosingIsSoundOverRuns(states: seq<Conn>, events: seq<Event>)
    requires IsRun(states, events) && SendOk(states[0]) && ClosingIsSound(states[0])
    requires forall i :: 0 <= i < |events| ==> Tame(states[i]) && CarriesAck(events[i])
    ensures SendOk(states[|events|]) && ClosingIsSound(states[|events|])
  {
    if events != [] {
      var n := |events| - 1;
      hide Next, Allowed, SendOk, ClosingIsSound, Tame;
      ClosingIsSoundOverRuns(states[..n + 1], events[..n]);
      StepKeepsSendOk(states[n], events[n]);
      StepClosing(states[n], events[n]);
      assert states[n + 1] == Next(states[n], events[n]);
    }
  }

  /**
   `Tame` is exactly the condition: an acknowledgment of everything takes FIN-WAIT-1 to FIN-WAIT-2 in any case,
   but with 65536 sequence numbers outstanding, or 2^32 among them, it leaves the FIN unacknowledged there.
   */
  lemma FinWait2IsSoundIff(c: Conn, seg: Segment)
    requires SendOk(c) && ClosingIsSound(c) && c.status == FinWait1 && Fits(c, seg) && InWindow(c, seg)
    requires seg.flags == ACK && seg.ackNum == c.tcb.WrappedSendNxt()
    ensures Handle(c, seg).conn.status == FinWait2
    ensures ClosingIsSound(Handle(c, seg).conn) <==> Tame(c)
  {
    hide Wrap, SegmentAcceptable, Kept, Process, HandleAck, WrappedDist;
    var t := c.tcb;
    AheadOfPointers(t.iss, t.sendUna, t.sendNxt);
    if t.WrappedUna() < t.WrappedSendNxt() {
      AcceptedAckIsExact(t.iss, t.sendUna, t.sendNxt, seg.ackNum);
    }
    AckSendSide(c, seg);
    AckInFinWait1(c, seg);
    var r := HandleAck(c, seg);
    ProcessSendSide(r.conn, r.out, seg);
    ProcessKeepsStatus(r.conn, r.out, seg);
  }

  lemma AckInFinWait1(c: Conn, seg: Segment)
    requires c.status == FinWait1 && seg.ackNum == c.tcb.WrappedSendNxt()
    ensures !HandleAck(c, seg).dropped && HandleAck(c, seg).conn.status == FinWait2
  {
    hide Wrap, Kept, WrappedDist;
  }

  lemma ProcessKeepsStatus(c: Conn, out: seq<Segment>, seg: Segment)
    requires c.tcb.Shaped() && (Stores(c.status) ==> |seg.payload| <= c.tcb.rcvWnd) && !seg.flags.fin
    ensures Process(c, out, seg).conn.status == c.status
  {
    hide Wrap, Store, Window;
  }
}
