/** When the retransmission queue is empty, over whole runs of one connection. */
module QueueRuns {
  import opened Words
  import opened Sequence
  import opened Segments
  import opened RetransmitQueue
  import opened Tcb
  import opened ConnectionModel
  import opened Lifecycle
  import opened Outstanding

  /** What one would expect of the queue of a connection that is not deleted. */
  predicate EmptyExactlyWhenAcked(c: Conn) {
    c.status != Closed ==> (c.queue == [] <==> c.tcb.sendUna == c.tcb.sendNxt)
  }

  /** The whole queue is contiguous up to what was sent last. */
  predicate WholeQueue(c: Conn, written: seq<byte>) {
    c.status != Closed ==> Whole(c.queue, c.tcb.iss, c.tcb.sendNxt, written)
  }

  /** The step acknowledges all that was outstanding. */
  predicate AcksEverything(c: Conn, ev: Event)
    requires Allowed(c, ev)
  {
    var c' := Next(c, ev);
    c.tcb.sendUna < c.tcb.sendNxt && c'.tcb.sendUna == c'.tcb.sendNxt && c'.status != Closed
  }

  /** If the step acknowledges everything, the queue does not go back too far for that. */
  predicate InTime(c: Conn, ev: Event) {
    Allowed(c, ev) && AcksEverything(c, ev) ==> Timely(c.queue, c.tcb.WrappedSendNxt())
  }

  // ---------------------------------------------------------------------------------------------------
  // One step
  // ---------------------------------------------------------------------------------------------------

  ghost predicate Good(c: Conn, written: seq<byte>) {
    SendOk(c) && Remembers(c, written) && WholeQueue(c, written) && EmptyExactlyWhenAcked(c)
  }

  /** What a step is to achieve: emptiness exactly if it is in time, and then contiguity again. */
  ghost predicate StepDone(c: Conn, ev: Event, c': Conn, written': seq<byte>) {
    (EmptyExactlyWhenAcked(c') <==> InTime(c, ev)) && (InTime(c, ev) ==> WholeQueue(c', written'))
  }

  lemma NothingAcked(c: Conn, ev: Event, written': seq<byte>)
    requires Allowed(c, ev)
    requires var c' := Next(c, ev);
             c'.status == Closed || c'.tcb.sendUna < c'.tcb.sendNxt || c.tcb.sendUna == c.tcb.sendNxt
    requires WholeQueue(Next(c, ev), written') && EmptyExactlyWhenAcked(Next(c, ev))
    ensures StepDone(c, ev, Next(c, ev), written')
  {
    hide Wrap, Next, Allowed, Whole;
  }

  lemma GoodFacts(c: Conn, written: seq<byte>)
    requires Good(c, written) && c.status == Established
    ensures c.tcb.Shaped() && c.tcb.sendUna <= c.tcb.sendNxt == 1 + |written|
    ensures Whole(c.queue, c.tcb.iss, c.tcb.sendNxt, written)
  {
    hide Covers, Whole, Wrap;
  }

  lemma WritePushes(c: Conn, data: seq<byte>, written: seq<byte>)
    requires Good(c, written) && Allowed(c, WriteData(data))
    ensures var c' := WriteSegment(c, data).0;
            WholeQueue(c', written + data) && c'.queue != [] && c'.tcb.sendUna < c'.tcb.sendNxt
  {
    hide Good, Wrap, Store, Window, SendCapacity, Whole, WriteSegment;
    GoodFacts(c, written);
    WriteSegmentSends(c, data);
    var e := Entry(c.tcb.WrappedSendNxt(), ACK, data);
    assert (written + data)[|written|..|written| + |data|] == data;
    PushKeepsWhole(c.queue, c.tcb.iss, c.tcb.sendNxt, written, data, e);
  }

  lemma WriteStep(c: Conn, data: seq<byte>, written: seq<byte>)
    requires Good(c, written) && Allowed(c, WriteData(data))
    ensures StepDone(c, WriteData(data), WriteSegment(c, data).0, written + data)
  {
    hide Good, Allowed, StepDone, WholeQueue, WriteSegment, Handle, Close, Read;
    WritePushes(c, data, written);
    NothingAcked(c, WriteData(data), written + data);
  }

  lemma ShutStep(c: Conn, written: seq<byte>)
    requires Good(c, written) && Allowed(c, Shut)
    ensures StepDone(c, Shut, Close(c).conn, written)
  {
    hide Wrap, Covers, Whole;
    if c.status != SynSent && c.status != FinWait2 && c.status != TimeWait {
      var e := Entry(c.tcb.WrappedSendNxt(), FIN_ACK, []);
      assert written + [] == written;
      PushKeepsWhole(c.queue, c.tcb.iss, c.tcb.sendNxt, written, [], e);
    }
    NothingAcked(c, Shut, written);
  }

  /** Everything is acknowledged and the queue cleaned up. */
  lemma AllAcked(c: Conn, ev: Event, written: seq<byte>)
    requires Good(c, written) && c.status != Closed && Allowed(c, ev)
    requires c.tcb.sendUna < c.tcb.sendNxt
    requires var c' := Next(c, ev);
             && c'.status != Closed && SameSendSide(c.tcb, c'.tcb) && c'.tcb.sendUna == c.tcb.sendNxt
             && c'.queue == Kept(c.queue, c'.tcb.WrappedUna())
    ensures StepDone(c, ev, Next(c, ev), written)
  {
    hide Wrap, Next, Allowed, Whole, Timely, Kept, Covers;
    QueueEmptiesIff(c.queue, c.tcb.iss, c.tcb.sendNxt, c.tcb.sendNxt, written);
    EmptyIsWhole(c.tcb.iss, c.tcb.sendNxt, written);
    TimelyIsShort(c.queue, c.tcb.WrappedSendNxt());
  }

  lemma EmptyIsWhole(iss: uint32, nxt: nat, written: seq<byte>)
    ensures Whole([], iss, nxt, written)
  {
  }

  lemma TimelyIsShort(q: seq<Entry>, ack: uint32)
    ensures Timely(q, ack) ==> Backlog(q) <= TCB_SIZE
  {
  }

  lemma SynSentStep(c: Conn, seg: Segment, written: seq<byte>)
    requires Good(c, written) && c.status == SynSent && Allowed(c, Receive(seg))
    ensures StepDone(c, Receive(seg), HandleSynSent(c, seg).conn, written)
  {
    hide HandleSynSent, Covers, Whole, Kept, Timely, HandleOther, Wrap;
    SynSentSendSide(c, seg);
    var c' := HandleSynSent(c, seg).conn;
    if c'.status == Established {
      AllAcked(c, Receive(seg), written);
    } else if c'.status == SynRecv {
      RepeatedSynIsWhole(c.queue, c.tcb.iss, written);
      NothingAcked(c, Receive(seg), written);
    } else {
      NothingAcked(c, Receive(seg), written);
    }
  }

  lemma RepeatedSynIsWhole(q: seq<Entry>, iss: uint32, written: seq<byte>)
    requires q != [] && Whole(q, iss, 1, written)
    ensures Whole(q + [Entry(iss, SYN_ACK, [])], iss, 1, written)
  {
    assert (q + [Entry(iss, SYN_ACK, [])])[..|q|] == q;
  }

  lemma ReceiveStep(c: Conn, seg: Segment, written: seq<byte>)
    requires Good(c, written) && c.status != SynSent && Allowed(c, Receive(seg)) && AckOnSegmentEnd(c, Receive(seg))
    ensures StepDone(c, Receive(seg), Handle(c, seg).conn, written)
  {
    hide Wrap, Kept, WrappedDist, HandleSynSent, HandleOther, SegmentAcceptable, Covers, Whole, Timely;
    HandleSendSide(c, seg);
    StepFollowsFigure5(c, Receive(seg));
    var c' := Handle(c, seg).conn;
    if c'.status == Closed || (c'.tcb.sendUna == c.tcb.sendUna && c'.queue == c.queue) {
      NothingAcked(c, Receive(seg), written);
    } else {
      AcceptedAckIsExact(c.tcb.iss, c.tcb.sendUna, c.tcb.sendNxt, seg.ackNum);
      var moved := Moved(c.tcb, seg.ackNum);
      if moved == c.tcb.sendNxt {
        AllAcked(c, Receive(seg), written);
      } else {
        CleanupCovers(c.queue, c.tcb.iss, c.tcb.sendUna, moved, c.tcb.sendNxt, written);
        NothingAcked(c, Receive(seg), written);
      }
    }
  }

  lemma StepIff(c: Conn, ev: Event, written: seq<byte>)
    requires Good(c, written) && Allowed(c, ev) && AckOnSegmentEnd(c, ev)
    ensures StepDone(c, ev, Next(c, ev), WrittenAfter(written, ev))
  {
    hide Wrap, Covers, Whole, HandleSynSent, HandleOther, AckOnSegmentEnd, WriteSegment, StepDone;
    match ev
    case Receive(seg) =>
      if c.status == SynSent { SynSentStep(c, seg, written); } else { ReceiveStep(c, seg, written); }
    case WriteData(data) => WriteStep(c, data, written);
    case Shut => ShutStep(c, written);
    case _ => NothingAcked(c, ev, written);
  }

  // ---------------------------------------------------------------------------------------------------
  // Runs
  // ---------------------------------------------------------------------------------------------------

  ghost predicate AllInTime(states: seq<Conn>, events: seq<Event>)
    requires |states| == |events| + 1
  {
    forall i :: 0 <= i < |events| ==> InTime(states[i], events[i])
  }

  predicate AllEmptyExactlyWhenAcked(states: seq<Conn>) {
    forall c :: c in states ==> EmptyExactlyWhenAcked(c)
  }

  lemma OneMoreInTime(states: seq<Conn>, events: seq<Event>)
    requires |states| == |events| + 1 && events != []
    ensures var n := |events| - 1;
            AllInTime(states, events) <==> AllInTime(states[..n + 1], events[..n]) && InTime(states[n], events[n])
  {
    hide InTime;
    var n := |events| - 1;
    var before, earlier := states[..n + 1], events[..n];
    assert forall i :: 0 <= i < n ==> before[i] == states[i] && earlier[i] == events[i];
    if AllInTime(states, events) {
      forall i | 0 <= i < n ensures InTime(before[i], earlier[i]) { assert InTime(states[i], events[i]); }
    }
    if AllInTime(before, earlier) && InTime(states[n], events[n]) {
      forall i | 0 <= i < |events| ensures InTime(states[i], events[i]) {
        if i < n { assert InTime(before[i], earlier[i]); }
      }
    }
  }

  lemma OneMoreEmpty(states: seq<Conn>)
    requires states != []
    ensures var n := |states| - 1;
            AllEmptyExactlyWhenAcked(states)
            <==> AllEmptyExactlyWhenAcked(states[..n]) && EmptyExactlyWhenAcked(states[n])
  {
    hide EmptyExactlyWhenAcked;
    var n := |states| - 1;
    assert states == states[..n] + [states[n]];
  }

  lemma StepKeepsGood(c: Conn, ev: Event, written: seq<byte>)
    requires Good(c, written) && Allowed(c, ev) && AckOnSegmentEnd(c, ev)
    ensures EmptyExactlyWhenAcked(Next(c, ev)) <==> InTime(c, ev)
    ensures InTime(c, ev) ==> Good(Next(c, ev), WrittenAfter(written, ev))
  {
    hide Next, Allowed, SendOk, Remembers, AckOnSegmentEnd, WholeQueue, EmptyExactlyWhenAcked, InTime;
    StepKeepsSendOk(c, ev);
    StepRemembers(c, ev, written);
    StepIff(c, ev, written);
  }

  /**
   Over any run from an opening, as long as acknowledgments land on segment ends: the queue is empty exactly when
   everything is acknowledged, in every state, if and only if each step that acknowledged everything came in time.
   */
  lemma {:induction false} QueueEmptyExactlyWhenAckedIff(states: seq<Conn>, events: seq<Event>)
    requires IsRun(states, events) && Good(states[0], [])
    requires forall i :: 0 <= i < |events| ==> AckOnSegmentEnd(states[i], events[i])
    ensures AllEmptyExactlyWhenAcked(states) <==> AllInTime(states, events)
    ensures AllInTime(states, events) ==> Good(states[|events|], Written(events))
  {
    hide Next, Allowed, Good, AckOnSegmentEnd, AllInTime, AllEmptyExactlyWhenAcked, InTime;
    if events == [] {
      OpeningIsEmptyExactly(states, events);
    } else {
      var n := |events| - 1;
      QueueEmptyExactlyWhenAckedIff(states[..n + 1], events[..n]);
      OneMoreInTime(states, events);
      OneMoreEmpty(states);
      assert states[n + 1] == Next(states[n], events[n]);
      if AllInTime(states[..n + 1], events[..n]) {
        StepKeepsGood(states[n], events[n], Written(events[..n]));
      }
    }
  }

  lemma OpeningIsEmptyExactly(states: seq<Conn>, events: seq<Event>)
    requires |states| == 1 && events == [] && Good(states[0], [])
    ensures AllEmptyExactlyWhenAcked(states) && AllInTime(states, events) && Written(events) == []
  {
    hide SendOk, Remembers, WholeQueue, EmptyExactlyWhenAcked;
  }

  lemma SynIsWhole(e: Entry, iss: uint32)
    requires e == Entry(iss, SYN, []) || e == Entry(iss, SYN_ACK, [])
    ensures Whole([e], iss, 1, [])
  {
    assert [e][..0] == [];
  }

  /** Both openings start out well. */
  lemma OpeningsAreGood(t: TcbState, syn: Segment)
    requires t.Shaped() && t.sendUna == 0 && t.sendNxt == 1
    ensures Good(Connect(t).conn, []) && Good(Accept(t, syn).conn, [])
  {
    hide Covers, Wrap;
    OpeningsRemember(t, syn);
    SynIsWhole(Entry(t.iss, SYN, []), t.iss);
    SynIsWhole(Entry(t.iss, SYN_ACK, []), t.iss);
    assert [] + [Entry(t.iss, SYN, [])] == [Entry(t.iss, SYN, [])];
    assert [] + [Entry(t.iss, SYN_ACK, [])] == [Entry(t.iss, SYN_ACK, [])];
  }
}
