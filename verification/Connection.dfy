/**
 The connection object. Each method changes the fields step by step as the source does, and its postcondition
 ties the new state, and what is put on the wire, to the functions of module `ConnectionModel`.
 */
module Connection {
  import opened Words
  import opened Sequence
  import opened Segments
  import opened RetransmitQueue
  import opened Tcb
  import opened ConnectionModel
  import Lifecycle
  import Outstanding

  /** Timers, channels and the mutex are left out; `wire` is what the connection has sent, in order. */
  class VTcpConn {
    var status: Status
    var registered: bool
    const tcb: TCB
    const queue: RtoQueue
    var wire: seq<Segment>

    ghost function Repr(): set<object> {
      {this, tcb, tcb.sendBuf, tcb.rcvBuf, queue}
    }

    ghost predicate Valid()
      reads this, tcb, tcb.sendBuf, tcb.rcvBuf
    {
      tcb.Valid()
    }

    ghost function State(): Conn
      reads this, tcb, tcb.sendBuf, tcb.rcvBuf, queue
    {
      Conn(status, registered, tcb.State(), queue.entries)
    }

    /** VConnect up to the wait for the answer. */
    constructor Connect(iss: uint32)
      ensures Valid() && fresh(Repr())
      ensures exists t: TcbState :: t.Shaped() && t.sendNxt == 1 && t.sendUna == 0 && t.sendLbr == 1
                && t.iss == iss && t.irs == 0 && t.rcvWnd == TCB_SIZE
                && State() == ConnectionModel.Connect(t).conn && wire == ConnectionModel.Connect(t).out
    {
      status, registered := SynSent, true;
      tcb := new TCB(iss);
      queue := new RtoQueue();
      wire := [];
      new;
      ghost var t := tcb.State();
      Send(tcb.iss, tcb.irs, SYN, []);
      assert State() == ConnectionModel.Connect(t).conn && wire == ConnectionModel.Connect(t).out;
    }

    /** VAccept up to the wait for the acknowledgment of our SYN. */
    constructor Accept(iss: uint32, syn: Segment)
      ensures Valid() && fresh(Repr())
      ensures exists t: TcbState :: t.Shaped() && t.sendNxt == 1 && t.sendUna == 0 && t.sendLbr == 1
                && t.iss == iss && t.rcvWnd == TCB_SIZE
                && State() == ConnectionModel.Accept(t, syn).conn && wire == ConnectionModel.Accept(t, syn).out
    {
      status, registered := SynRecv, true;
      tcb := new TCB(iss);
      queue := new RtoQueue();
      wire := [];
      new;
      ghost var t := tcb.State();
      tcb.SetSynReceivedState(syn.seqNum, syn.ackNum, syn.window);
      Send(tcb.iss, Wrap(tcb.irs, tcb.rcvNxt), SYN_ACK, []);
      assert State() == ConnectionModel.Accept(t, syn).conn && wire == ConnectionModel.Accept(t, syn).out;
    }

    /** The general send: whatever takes sequence space is remembered for retransmission. */
    method Send(seqNum: uint32, ackNum: uint32, flags: Flags, payload: seq<byte>)
      requires Valid()
      modifies `wire, queue
      ensures Valid() && State() == Enqueue(old(State()), seqNum, flags, payload)
      ensures wire == old(wire) + [Packet(old(State()), seqNum, ackNum, flags, payload)]
    {
      var packet := Segment(seqNum, ackNum, flags, tcb.rcvWnd, payload);
      if flags.syn || flags.fin || |payload| > 0 {
        queue.Push(Entry(seqNum, flags, payload));
      }
      wire := wire + [packet];
    }

    /** A reset is sent past the retransmission queue. */
    method SendRst(ackNum: uint32)
      requires Valid()
      modifies `wire
      ensures wire == old(wire) + [Packet(State(), 0, ackNum, RST, [])]
    {
      wire := wire + [Segment(0, ackNum, RST, tcb.rcvWnd, [])];
    }

    method DoCloseDelete()
      requires Valid()
      modifies `status, `registered, queue
      ensures Valid() && State() == CloseDelete(old(State()))
    {
      status := Closed;
      registered := false;
      queue.entries := [];
    }

    method DoAcknowledge(ack: uint32)
      requires Valid()
      modifies tcb`sendUna, queue
      ensures Valid() && State() == Acknowledge(old(State()), ack)
    {
      var dist := WrappedDist(Wrap(tcb.iss, tcb.sendUna), ack);
      tcb.sendUna := tcb.sendUna + dist;
      var popped := queue.Cleanup(Wrap(tcb.iss, tcb.sendUna));
    }

    method HandleSegment(seg: Segment) returns (error: Error)
      requires Valid() && Fits(State(), seg)
      modifies Repr()
      ensures Valid()
      ensures var r := Handle(old(State()), seg);
              State() == r.conn && wire == old(wire) + r.out && error == r.error
      ensures Lifecycle.Path(old(status), status)
      ensures old(Outstanding.SendOk(State())) ==> Outstanding.SendOk(State())
    {
      hide Handle, Fits;
      HandleKeeps(State(), seg);
      error := Dispatch(seg);
    }

    method Dispatch(seg: Segment) returns (error: Error)
      requires Valid() && Fits(State(), seg)
      modifies Repr()
      ensures Valid()
      ensures var r := Handle(old(State()), seg);
              State() == r.conn && wire == old(wire) + r.out && error == r.error
    {
      if status == Closed || status == Listen {
        error := NoError;
      } else if status == SynSent {
        error := HandleSynSentState(seg);
      } else {
        error := HandleOtherStates(seg);
      }
    }

    method HandleSynSentState(seg: Segment) returns (error: Error)
      requires Valid()
      modifies `status, `registered, `wire, tcb, queue
      ensures Valid()
      ensures var r := HandleSynSent(old(State()), seg);
              State() == r.conn && wire == old(wire) + r.out && error == r.error
    {
      var wrappedSendNxt := Wrap(tcb.iss, tcb.sendNxt);
      var wrappedUna := Wrap(tcb.iss, tcb.sendUna);
      var acceptable := false;
      if seg.flags.ack {
        if seg.ackNum <= tcb.iss || seg.ackNum > wrappedSendNxt {
          SendRst(seg.ackNum);
          return IncorrectAck;
        }
        if wrappedUna <= seg.ackNum && seg.ackNum <= wrappedSendNxt {
          acceptable := true;
        }
        if seg.flags.rst {
          if acceptable {
            DoCloseDelete();
            return ConnectionReset;
          }
          return NoError;
        }
      }
      if seg.flags.syn {
        SynInSynSent(seg, acceptable);
      }
      return NoError;
    }

    method SynInSynSent(seg: Segment, acceptable: bool)
      requires Valid()
      modifies `status, `wire, tcb, queue
      ensures Valid()
      ensures var r := SynOnSynSent(old(State()), seg, acceptable);
              State() == r.conn && wire == old(wire) + r.out
    {
      hide Wrap, Acknowledge;
      tcb.rcvNxt := 1;
      tcb.rcvLbr := tcb.rcvNxt;
      tcb.irs := seg.seqNum;
      ghost var c1 := State();
      assert c1 == old(State()).(tcb := old(State()).tcb.(rcvNxt := 1, rcvLbr := 1, irs := seg.seqNum));
      if acceptable {
        DoAcknowledge(seg.ackNum);
      }
      ghost var c2 := State();
      assert c2 == if acceptable then Acknowledge(c1, seg.ackNum) else c1;
      var wrappedUna := Wrap(tcb.iss, tcb.sendUna);
      if wrappedUna > tcb.iss {
        BecomeEstablished(seg);
      } else {
        Send(tcb.iss, Wrap(tcb.irs, tcb.rcvNxt), SYN_ACK, []);
        status := SynRecv;
      }
    }

    /** Our SYN is acknowledged: so is the peer's, and its window is taken over. */
    method BecomeEstablished(seg: Segment)
      requires Valid()
      modifies `status, `wire, tcb`sendWnd, tcb`sendWl1, tcb`sendWl2, queue
      ensures Valid()
      ensures var c := old(State());
              && State() == c.(status := Established,
                               tcb := c.tcb.(sendWnd := seg.window, sendWl1 := seg.seqNum, sendWl2 := seg.ackNum))
              && wire == old(wire) + [Packet(c, c.tcb.WrappedSendNxt(), c.tcb.WrappedRcvNxt(), ACK, [])]
    {
      hide Wrap;
      status := Established;
      Send(Wrap(tcb.iss, tcb.sendNxt), Wrap(tcb.irs, tcb.rcvNxt), ACK, []);
      tcb.sendWnd := seg.window;
      tcb.sendWl1 := seg.seqNum;
      tcb.sendWl2 := seg.ackNum;
    }

    method HandleOtherStates(seg: Segment) returns (error: Error)
      requires Valid() && Fits(State(), seg)
      modifies Repr()
      ensures Valid()
      ensures var r := HandleOther(old(State()), seg);
              State() == r.conn && wire == old(wire) + r.out && error == r.error
    {
      var inWindow := SegmentAcceptable(Wrap(tcb.irs, tcb.rcvNxt), tcb.rcvWnd, seg.seqNum, |seg.payload|);
      if inWindow {
        error := HandleSegmentInWindow(seg);
      } else {
        if seg.flags.rst {
          return NoError;
        }
        Send(Wrap(tcb.iss, tcb.sendNxt), Wrap(tcb.irs, tcb.rcvNxt), ACK, []);
        return NoError;
      }
    }

    method HandleSegmentInWindow(seg: Segment) returns (error: Error)
      requires Valid() && (TakesInWindow(State(), seg) ==> |seg.payload| <= tcb.rcvWnd)
      modifies Repr()
      ensures Valid()
      ensures var r := HandleInWindow(old(State()), seg);
              State() == r.conn && wire == old(wire) + r.out && error == r.error
    {
      hide Wrap, Process, HandleAckInWindow;
      if seg.flags.rst {
        if seg.seqNum == Wrap(tcb.irs, tcb.rcvNxt) {
          SendRst(seg.seqNum);
          DoCloseDelete();
          return ConnectionReset;
        }
      }
      if seg.flags.ack {
        HandleAckOfSegmentInWindow(seg);
      } else {
        ProcessSegment(seg);
      }
      return NoError;
    }

    method HandleAckOfSegmentInWindow(seg: Segment)
      requires Valid() && seg.flags.ack && !Resets(State(), seg)
      requires TakesInWindow(State(), seg) ==> |seg.payload| <= tcb.rcvWnd
      modifies Repr()
      ensures Valid()
      ensures var r := HandleAckInWindow(old(State()), seg);
              State() == r.conn && wire == old(wire) + r.out
    {
      hide Wrap, Process, HandleAck, OnlyAcknowledges, OpenIfAcked, AckRefused, TcbState.Shaped;
      TakenAfterOpening(State(), seg);
      DoOpenIfAcked(seg.ackNum);
      if status == LastAck {
        DoCloseDelete();
      } else if status == TimeWait {
        ProcessSegment(seg);
      } else {
        HandleAckThenProcess(seg);
      }
    }

    method HandleAckThenProcess(seg: Segment)
      requires Valid() && (Stores(status) && !AckRefused(tcb.State(), seg.ackNum) ==> |seg.payload| <= tcb.rcvWnd)
      modifies Repr()
      ensures Valid()
      ensures var r := HandleAck(old(State()), seg);
              if r.dropped then State() == r.conn && wire == old(wire) + r.out
              else var p := Process(r.conn, r.out, seg); State() == p.conn && wire == old(wire) + p.out
    {
      hide Wrap, Process, HandleAck, AckRefused, TcbState.Shaped;
      var dropped := HandleAckOtherStates(seg);
      if !dropped {
        ProcessSegment(seg);
      }
    }

    method DoOpenIfAcked(ack: uint32)
      requires Valid()
      modifies `status
      ensures Valid() && State() == OpenIfAcked(old(State()), ack)
    {
      hide Wrap;
      if status == SynRecv {
        if Wrap(tcb.iss, tcb.sendUna) <= ack && ack <= Wrap(tcb.iss, tcb.sendNxt) {
          status := Established;
        }
      }
    }

    method HandleAckOtherStates(seg: Segment) returns (dropped: bool)
      requires Valid()
      modifies `status, `wire, tcb, queue
      ensures Valid()
      ensures var r := HandleAck(old(State()), seg);
              State() == r.conn && wire == old(wire) + r.out && dropped == r.dropped
    {
      hide Wrap, Acknowledge;
      var wrappedSendNxt := Wrap(tcb.iss, tcb.sendNxt);
      var wrappedSendUna := Wrap(tcb.iss, tcb.sendUna);
      if AckAcceptable(wrappedSendUna, wrappedSendNxt, seg.ackNum) {
        DoAcknowledge(seg.ackNum);
        DoUpdateWindow(seg);
      } else if seg.ackNum <= wrappedSendUna {
      } else if seg.ackNum > wrappedSendNxt {
        Send(wrappedSendNxt, Wrap(tcb.irs, tcb.rcvNxt), ACK, []);
        return true;
      }
      if status == FinWait1 {
        if seg.ackNum == wrappedSendNxt {
          status := FinWait2;
        }
      } else if status == Closing {
        if seg.ackNum == wrappedSendNxt {
          status := TimeWait;
        }
      }
      return false;
    }

    method DoUpdateWindow(seg: Segment)
      requires Valid()
      modifies tcb`sendWnd, tcb`sendWl1, tcb`sendWl2
      ensures Valid() && State() == UpdateWindow(old(State()), seg)
    {
      var wl1, wl2 := tcb.sendWl1, tcb.sendWl2;
      if wl1 < seg.seqNum || (wl1 == seg.seqNum && wl2 <= seg.ackNum) {
        tcb.sendWnd := seg.window;
        tcb.sendWl1 := seg.seqNum;
        tcb.sendWl2 := seg.ackNum;
      }
    }

    method ProcessSegment(seg: Segment)
      requires Valid() && (Stores(status) ==> |seg.payload| <= tcb.rcvWnd)
      modifies Repr()
      ensures Valid()
      ensures var r := Process(old(State()), [], seg);
              State() == r.conn && wire == old(wire) + r.out
    {
      hide Wrap, Store;
      var wrappedSendNxt := Wrap(tcb.iss, tcb.sendNxt);
      if status == Established || status == FinWait1 || status == FinWait2 {
        if |seg.payload| > 0 {
          tcb.Add2Read(seg.payload);
          Send(wrappedSendNxt, (seg.seqNum + |seg.payload|) % TWO32, ACK, []);
        }
      }
      if seg.flags.fin {
        HandleFinOtherStates(seg);
      }
    }

    method HandleFinOtherStates(seg: Segment)
      requires Valid()
      modifies `status, `wire, tcb`rcvNxt, queue
      ensures Valid()
      ensures var r := HandleFin(old(State()), [], seg);
              State() == r.conn && wire == old(wire) + r.out
    {
      var wrappedRcvNxt := Wrap(tcb.irs, tcb.rcvNxt);
      var wrappedSendNxt := Wrap(tcb.iss, tcb.sendNxt);
      var seqDist := WrappedDist(wrappedRcvNxt, (seg.seqNum + 1) % TWO32);
      tcb.rcvNxt := tcb.rcvNxt + seqDist;
      wrappedRcvNxt := Wrap(tcb.irs, tcb.rcvNxt);
      Send(wrappedSendNxt, wrappedRcvNxt, ACK, []);
      match status {
        case Established => status := CloseWait;
        case FinWait1 =>
          if seg.ackNum == wrappedSendNxt {
            status := TimeWait;
          } else {
            status := Closing;
          }
        case FinWait2 => status := TimeWait;
        case _ =>
      }
    }

    method VClose() returns (error: Error)
      requires Valid()
      modifies `status, `registered, `wire, tcb`sendNxt, queue
      ensures Valid()
      ensures var r := Close(old(State()));
              State() == r.conn && wire == old(wire) + r.out && error == r.error
      ensures old(wire) <= wire && ClosesAsIntended(old(State()), Outcome(State(), wire[|old(wire)|..], error))
      ensures Lifecycle.Path(old(status), status) <==> old(status) !in {Closing, LastAck, Closed}
      ensures old(status) !in {FinWait1, Closing, LastAck, Closed} && old(Outstanding.SendOk(State())) ==>
                Outstanding.SendOk(State())
    {
      hide Wrap, Close, ClosesAsIntended;
      CloseKeeps(State());
      CloseLaw(State());
      error := DispatchClose();
    }

    method DispatchClose() returns (error: Error)
      requires Valid()
      modifies `status, `registered, `wire, tcb`sendNxt, queue
      ensures Valid()
      ensures var r := Close(old(State()));
              State() == r.conn && wire == old(wire) + r.out && error == r.error
    {
      hide Wrap, SendFin;
      var wrappedSendNxt := Wrap(tcb.iss, tcb.sendNxt);
      var wrappedRcvNxt := Wrap(tcb.irs, tcb.rcvNxt);
      error := NoError;
      match status {
        case SynSent => DoCloseDelete();
        case FinWait2 => error := ConnectionClosing;
        case TimeWait => error := ConnectionClosing;
        case CloseWait => DoSendFin(LastAck, wrappedSendNxt, wrappedRcvNxt);
        case _ => DoSendFin(FinWait1, wrappedSendNxt, wrappedRcvNxt);
      }
    }

    method DoSendFin(next: Status, seqNum: uint32, ackNum: uint32)
      requires Valid() && seqNum == Wrap(tcb.iss, tcb.sendNxt) && ackNum == Wrap(tcb.irs, tcb.rcvNxt)
      modifies `status, `wire, tcb`sendNxt, queue
      ensures Valid()
      ensures var r := SendFin(old(State()), next);
              State() == r.conn && wire == old(wire) + r.out
    {
      hide Wrap;
      status := next;
      tcb.sendNxt := tcb.sendNxt + 1;
      Send(seqNum, ackNum, FIN_ACK, []);
    }

    /** VRead, once something has been received (the wait of the read controller). */
    method VRead(count: nat) returns (data: seq<byte>, error: Error)
      requires Valid() && (Readable(status) ==> tcb.rcvWnd != TCB_SIZE)
      modifies tcb`rcvLbr, tcb`rcvWnd
      ensures Valid() && (State(), data, error) == Read(old(State()), count)
      ensures old(status) in {Established, FinWait1, FinWait2, CloseWait} ==>
                && error == NoError
                && var b := old(State().tcb.Buffered());
                   var n := if count < |b| then count else |b|;
                   n < SLOTS ==> data == b[..n] && State().tcb.Buffered() == b[n..]
      ensures old(status) !in {Established, FinWait1, FinWait2, CloseWait} ==>
                error == ConnectionClosing && data == [] && State() == old(State())
    {
      match status {
        case Established | FinWait1 | FinWait2 | CloseWait =>
          data := tcb.ReadFromRecv(count);
          error := NoError;
        case _ =>
          data, error := [], ConnectionClosing;
      }
    }

    /** The retransmission timer fires. */
    method RtoTimeout()
      requires Valid()
      modifies `wire
      ensures wire == old(wire) + ConnectionModel.Retransmit(State())
    {
      var entry := queue.Peek();
      if entry.Some? {
        wire := wire + [Segment(entry.value.seqNum, Wrap(tcb.irs, tcb.rcvNxt), entry.value.flags, tcb.rcvWnd,
                                entry.value.payload)];
      }
    }

    // -------------------------------------------------------------------------------------------------
    // VWrite
    // -------------------------------------------------------------------------------------------------

    /**
     Whatever the segment handler, the timers and the reading application do while VWrite is between two
     steps: nothing but VWrite touches the buffer, SND.NXT and the read pointer of the send side, what was sent
     was sent, and the peer acknowledges only what was transmitted. With `open` it also has its window open.
     (Callers see the frame and the contract; the body is one of the behaviours these allow.)
     */
    method Interference(ghost open: bool)
      requires Valid() && tcb.sendUna <= tcb.sendLbr
      modifies `status, `registered, `wire, queue, tcb`sendUna, tcb`sendWnd, tcb`sendWl1, tcb`sendWl2
      modifies tcb.rcvBuf, tcb`rcvNxt, tcb`rcvWnd, tcb`rcvLbr
      ensures Valid() && old(tcb.sendUna) <= tcb.sendUna <= tcb.sendLbr && old(wire) <= wire
      ensures open ==> tcb.sendWnd > 0
    {
      tcb.sendWnd := 1;
    }

    /** The wait of the send controller before an add: acknowledgments arrive until the payload fits. */
    method WaitForSpace(length: nat)
      requires Valid() && tcb.sendUna <= tcb.sendLbr == tcb.sendNxt && length <= TCB_SIZE
      modifies `status, `registered, `wire, queue, tcb`sendUna, tcb`sendWnd, tcb`sendWl1, tcb`sendWl2
      modifies tcb.rcvBuf, tcb`rcvNxt, tcb`rcvWnd, tcb`rcvLbr
      ensures Valid() && old(tcb.sendUna) <= tcb.sendUna <= tcb.sendLbr && old(wire) <= wire
      ensures length <= SendCapacity(tcb.State())
    {
      tcb.sendUna := tcb.sendLbr;
    }

    /** Between two turns of the loop of VWrite everything written has been transmitted. */
    ghost predicate Ready()
      reads this, tcb, tcb.sendBuf, tcb.rcvBuf
    {
      Valid() && tcb.sendUna <= tcb.sendLbr == tcb.sendNxt <= tcb.sendUna + TCB_SIZE
    }

    /**
     VWrite cuts `data` into segments. `sent` is what it emitted, in order; `probes` is how often it found the
     send window closed, which is at most `patience` times: then the first byte of the slice goes into a probe,
     and is not counted. The segments tile the data exactly if that never happens. An error means that the
     connection left Established: then only a part went out, and the count returned is 0.
     */
    method VWrite(data: seq<byte>, ghost patience: nat)
      returns (bytesSent: nat, error: Error, sent: seq<Segment>, probes: nat)
      requires Ready()
      modifies Repr()
      ensures Ready() && tcb.iss == old(tcb.iss) && probes <= patience
      ensures Written(sent, probes, old(tcb.sendNxt), old(wire))
      ensures error == NoError ==> bytesSent == |data| == |Bytes(sent)|
      ensures error == NoError && probes == 0 ==> Bytes(sent) == data
      ensures error != NoError ==> bytesSent == 0 && |Bytes(sent)| < |data|
      ensures error != NoError && probes == 0 ==> Bytes(sent) < data
      ensures error == NoError && sent != [] ==> Remembered(sent[|sent| - 1])
    {
      bytesSent, error, sent, probes := 0, NoError, [], 0;
      BytesOfNothing(tcb.iss, tcb.sendNxt);
      NothingIsSubsequence(wire[|wire|..]);
      assert Written(sent, probes, tcb.sendNxt, wire);
      hide Wrap, Bytes, Tiled, SendCapacity, IsSubsequence, Written;
      var i := 0;
      while bytesSent < |data|
        invariant Ready() && tcb.iss == old(tcb.iss) && probes <= patience
        invariant i == bytesSent == |Bytes(sent)| <= |data| && error == NoError
        invariant Written(sent, probes, old(tcb.sendNxt), old(wire))
        invariant probes == 0 ==> Bytes(sent) == data[..i]
        invariant sent != [] ==> Remembered(sent[|sent| - 1])
        decreases patience - probes, |data| - bytesSent
      {
        Pause(sent, probes, old(tcb.sendNxt), old(wire));
        var capacity := tcb.GetSendCapacity();
        var lastIdx := Min(Min(MSS, |data| - bytesSent), capacity);
        if lastIdx == 0 {
          lastIdx := 1;
        }
        var segData := data[i..i + lastIdx];
        match status {
          case Established =>
            assert data[..i] + segData == data[..i + lastIdx];
            var n, probed;
            sent, n, probed := EmitSegment(sent, segData, probes == patience, old(tcb.sendNxt), probes, old(wire));
            probes := if probed then probes + 1 else probes;
            bytesSent := bytesSent + n;
            i := i + n;
          case _ =>
            return 0, ConnectionClosing, sent, probes;
        }
      }
    }

    /**
     From pointer `start` and when the wire was `first`, `sent` was put on the wire in order, and `probes` bytes
     were lost to probes; the segments tile what they carry exactly if none were.
     */
    ghost predicate Written(sent: seq<Segment>, probes: nat, start: nat, first: seq<Segment>)
      reads this, tcb
    {
      && first <= wire && IsSubsequence(sent, wire[|first|..])
      && tcb.sendNxt == start + |Bytes(sent)| + probes
      && (Tiled(sent, tcb.iss, start) <==> probes == 0)
    }

    method Pause(ghost sent: seq<Segment>, ghost probes: nat, ghost start: nat, ghost first: seq<Segment>)
      requires Ready() && Written(sent, probes, start, first)
      modifies Repr()
      ensures Ready() && tcb.iss == old(tcb.iss) && Written(sent, probes, start, first)
    {
      hide Wrap, Bytes, Tiled, IsSubsequence;
      Interference(false);
      LaterIsMore(sent, first, old(wire), wire);
    }

    /** The newest entry of the retransmission queue is for this segment; one without payload needs none. */
    ghost predicate Remembered(segment: Segment)
      reads this, queue
    {
      segment.payload != [] ==>
        queue.entries != [] && queue.entries[|queue.entries| - 1] == Entry(segment.seqNum, ACK, segment.payload)
    }

    /**
     One turn of the loop: one more segment behind those emitted so far, from pointer `start`, with `probes` bytes
     lost to probes on the way. `first` is the wire as it was when VWrite was called.
     */
    method EmitSegment(
      emitted: seq<Segment>, segData: seq<byte>, ghost open: bool, ghost start: nat, ghost probes: nat,
      ghost first: seq<Segment>)
      returns (sent: seq<Segment>, n: nat, probed: bool)
      requires Ready() && 0 < |segData| <= MSS && Written(emitted, probes, start, first)
      modifies Repr()
      ensures Ready() && tcb.iss == old(tcb.iss) && (open ==> !probed)
      ensures n == |segData| - (if probed then 1 else 0)
      ensures Bytes(sent) == Bytes(emitted) + if probed then segData[1..] else segData
      ensures Written(sent, if probed then probes + 1 else probes, start, first)
      ensures sent != [] && Remembered(sent[|sent| - 1])
    {
      hide Wrap, Bytes, Tiled, IsSubsequence;
      var segment;
      segment, probed := SendOneSegment(segData, open);
      EmittedOneMore(emitted, segment, tcb.iss, start, if probed then 1 else 0);
      SubsequenceOneMore(emitted, segment, first, old(wire), wire);
      sent, n := emitted + [segment], |segment.payload|;
    }

    /** AddSend, ReadSend and send, with the rest of the stack running in between. */
    method SendOneSegment(segData: seq<byte>, ghost open: bool) returns (segment: Segment, probed: bool)
      requires Ready()
      requires 0 < |segData| <= MSS
      modifies Repr()
      ensures Ready() && (open ==> !probed)
      ensures tcb.sendNxt == old(tcb.sendNxt) + |segData| && tcb.iss == old(tcb.iss)
      ensures segment.payload == (if probed then segData[1..] else segData) && segment.flags == ACK
      ensures segment.seqNum == Wrap(tcb.iss, old(tcb.sendNxt) + if probed then 1 else 0)
      ensures old(wire) < wire && wire[|wire| - 1] == segment
      ensures Remembered(segment)
    {
      hide Wrap;
      var dataSend;
      dataSend, probed := PassThroughSendBuffer(segData, open);
      Interference(false);
      BackFromEnd(tcb.iss, old(tcb.sendNxt) + (if probed then 1 else 0), |dataSend|);
      Send((Wrap(tcb.iss, tcb.sendNxt) - |dataSend|) % TWO32, Wrap(tcb.irs, tcb.rcvNxt), ACK, dataSend);
      segment := wire[|wire| - 1];
    }

    /** Through the send buffer: a closed window takes the first byte out for a probe. */
    method PassThroughSendBuffer(segData: seq<byte>, ghost open: bool) returns (dataSend: seq<byte>, probed: bool)
      requires Ready() && 0 < |segData| <= MSS
      modifies Repr()
      ensures Ready() && old(wire) <= wire && (open ==> !probed)
      ensures dataSend == if probed then segData[1..] else segData
      ensures tcb.sendNxt == old(tcb.sendNxt) + |segData| && tcb.iss == old(tcb.iss)
    {
      hide Wrap, Store, SendCapacity, Window;
      WaitForSpace(|segData|);
      CapacityIsSound(tcb.State());
      AddToEmpty(segData);
      Interference(open);
      dataSend, probed := ReadOut(segData);
    }

    /** ReadSend of what is pending. */
    method ReadOut(segData: seq<byte>) returns (dataSend: seq<byte>, probed: bool)
      requires Valid() && 0 < |segData| <= MSS && tcb.sendUna <= tcb.sendLbr
      requires tcb.sendNxt == tcb.sendLbr + |segData| <= tcb.sendUna + TCB_SIZE
      requires Window(tcb.sendBuf[..], tcb.sendLbr, tcb.sendNxt) == segData
      modifies `status, `registered, `wire, queue, tcb`sendUna, tcb`sendWnd, tcb`sendWl1, tcb`sendWl2
      modifies tcb.rcvBuf, tcb`rcvNxt, tcb`rcvWnd, tcb`rcvLbr, tcb`sendLbr
      ensures Ready() && old(wire) <= wire
      ensures probed == (old(tcb.sendWnd) == 0) && dataSend == if probed then segData[1..] else segData
    {
      hide Wrap, Store, SendCapacity, Window;
      probed := tcb.sendWnd == 0;
      var count := |segData|;
      if probed {
        WindowSplit(tcb.sendBuf[..], tcb.sendLbr, tcb.sendLbr + 1, tcb.sendNxt);
        var firstByte := tcb.ReadFromSend(1);
        Interference(true);
        count := count - 1;
      }
      dataSend := tcb.ReadFromSend(count);
    }

    method AddToEmpty(segData: seq<byte>)
      requires Valid() && tcb.sendLbr == tcb.sendNxt && |segData| <= MSS
      modifies tcb`sendNxt, tcb.sendBuf
      ensures Valid() && tcb.sendNxt == old(tcb.sendNxt) + |segData|
      ensures Window(tcb.sendBuf[..], tcb.sendLbr, tcb.sendNxt) == segData
      ensures tcb.rcvBuf[..] == old(tcb.rcvBuf[..])
    {
      hide Store, Window;
      StoreExtendsWindow(tcb.sendBuf[..], tcb.sendLbr, tcb.sendNxt, segData);
      assert Window(tcb.sendBuf[..], tcb.sendLbr, tcb.sendNxt) == [];
      tcb.Add2Send(segData);
    }
  }

  lemma HandleKeeps(c: Conn, seg: Segment)
    requires c.tcb.Shaped() && Fits(c, seg)
    ensures Lifecycle.Path(c.status, Handle(c, seg).conn.status)
    ensures Outstanding.SendOk(c) ==> Outstanding.SendOk(Handle(c, seg).conn)
  {
    hide Handle, Fits, Lifecycle.Path, Outstanding.SendOk;
    Lifecycle.StepFollowsFigure5(c, Lifecycle.Receive(seg));
    if Outstanding.SendOk(c) {
      Outstanding.StepKeepsSendOk(c, Lifecycle.Receive(seg));
    }
  }

  lemma CloseKeeps(c: Conn)
    requires c.tcb.Shaped()
    ensures Lifecycle.Path(c.status, Close(c).conn.status) <==> c.status !in {Closing, LastAck, Closed}
    ensures c.status !in {FinWait1, Closing, LastAck, Closed} && Outstanding.SendOk(c) ==>
              Outstanding.SendOk(Close(c).conn)
  {
    hide Wrap;
    Lifecycle.CloseFollowsFigure5Iff(c);
  }

  /** What the guard of the read controller means once our SYN may have been acknowledged. */
  lemma TakenAfterOpening(c: Conn, seg: Segment)
    requires seg.flags.ack && !Resets(c, seg) && (TakesInWindow(c, seg) ==> |seg.payload| <= c.tcb.rcvWnd)
    ensures var c1 := OpenIfAcked(c, seg.ackNum);
            && c1 == c.(status := c1.status)
            && (Stores(c1.status) && !AckRefused(c1.tcb, seg.ackNum) ==> |seg.payload| <= c.tcb.rcvWnd)
  {
    hide Wrap;
  }

  /** The payloads, joined. */
  function Bytes(sent: seq<Segment>): seq<byte> {
    if sent == [] then [] else Bytes(sent[..|sent| - 1]) + sent[|sent| - 1].payload
  }

  /** Non-empty segments of at most MSS bytes, numbered consecutively from pointer `start`. */
  predicate Tiled(sent: seq<Segment>, iss: uint32, start: nat) {
    sent == []
    || (var init, last := sent[..|sent| - 1], sent[|sent| - 1];
        0 < |last.payload| <= MSS && last.seqNum == Wrap(iss, start + |Bytes(init)|) && Tiled(init, iss, start))
  }

  lemma BytesOfNothing(iss: uint32, start: nat)
    ensures Bytes([]) == [] && Tiled([], iss, start)
  {
  }

  /** Appending a segment keeps the tiling exactly if there is one and the segment starts where it ends. */
  lemma TiledOneMore(sent: seq<Segment>, segment: Segment, iss: uint32, start: nat)
    requires 0 < |segment.payload| <= MSS
    ensures Tiled(sent + [segment], iss, start)
            <==> Tiled(sent, iss, start) && segment.seqNum == Wrap(iss, start + |Bytes(sent)|)
    ensures Bytes(sent + [segment]) == Bytes(sent) + segment.payload
  {
    assert (sent + [segment])[..|sent|] == sent;
  }

  /** A segment that starts `skipped` (0 or 1) bytes late. */
  lemma EmittedOneMore(sent: seq<Segment>, segment: Segment, iss: uint32, start: nat, skipped: nat)
    requires |segment.payload| <= MSS && skipped <= 1 && (skipped == 0 ==> segment.payload != [])
    requires Tiled(sent, iss, start) ==> segment.seqNum == Wrap(iss, start + |Bytes(sent)| + skipped)
    ensures Tiled(sent + [segment], iss, start) <==> Tiled(sent, iss, start) && skipped == 0
    ensures Bytes(sent + [segment]) == Bytes(sent) + segment.payload
  {
    hide Wrap;
    if segment.payload != [] {
      TiledOneMore(sent, segment, iss, start);
      WrapInjective(iss, start + |Bytes(sent)| + skipped, start + |Bytes(sent)|);
    } else {
      assert (sent + [segment])[..|sent|] == sent;
    }
  }

  /** The segments of `sent` occur in `log`, in this order. */
  ghost predicate IsSubsequence(sent: seq<Segment>, log: seq<Segment>) {
    sent == []
    || exists k :: 0 <= k < |log| && log[k] == sent[|sent| - 1] && IsSubsequence(sent[..|sent| - 1], log[..k])
  }

  lemma NothingIsSubsequence(log: seq<Segment>)
    ensures IsSubsequence([], log)
  {
  }

  lemma SubsequenceOfMore(sent: seq<Segment>, log: seq<Segment>, more: seq<Segment>)
    requires IsSubsequence(sent, log) && log <= more
    ensures IsSubsequence(sent, more)
  {
    if sent != [] {
      var k :| 0 <= k < |log| && log[k] == sent[|sent| - 1] && IsSubsequence(sent[..|sent| - 1], log[..k]);
      assert more[..k] == log[..k] && more[k] == log[k];
    }
  }

  lemma LaterIsMore(sent: seq<Segment>, first: seq<Segment>, before: seq<Segment>, after: seq<Segment>)
    requires first <= before <= after && IsSubsequence(sent, before[|first|..])
    ensures first <= after && IsSubsequence(sent, after[|first|..])
  {
    assert before[|first|..] <= after[|first|..];
    SubsequenceOfMore(sent, before[|first|..], after[|first|..]);
  }

  lemma SubsequenceOneMore(
    sent: seq<Segment>, segment: Segment, first: seq<Segment>, before: seq<Segment>, after: seq<Segment>)
    requires first <= before < after && IsSubsequence(sent, before[|first|..]) && after[|after| - 1] == segment
    ensures first <= after && IsSubsequence(sent + [segment], after[|first|..])
  {
    var init := after[..|after| - 1];
    LaterIsMore(sent, first, before, init);
    var log, all := after[|first|..], sent + [segment];
    assert log[..|log| - 1] == init[|first|..];
    assert all[..|all| - 1] == sent && log[|log| - 1] == all[|all| - 1];
  }
}
