/**
 A connection as a value, and what each event does to it: the segment handlers, open, close, write and read.
 The class in `Connection` performs the same steps in place; the theorems about runs are about these functions.
 */
module ConnectionModel {
  import opened Words
  import opened Sequence
  import opened Segments
  import opened RetransmitQueue
  import opened Tcb

  datatype Status =
    | Listen | Established | SynSent | SynRecv | FinWait1 | FinWait2
    | TimeWait | Closed | CloseWait | LastAck | Closing

  datatype Error = NoError | IncorrectAck | ConnectionReset | ConnectionClosing

  /** `registered`: the connection is in the connection table, so that segments reach it. */
  datatype Conn = Conn(status: Status, registered: bool, tcb: TcbState, queue: seq<Entry>)

  /** The new state, the segments handed to the network in order, and the error returned. */
  datatype Outcome = Outcome(conn: Conn, out: seq<Segment>, error: Error)

  // ---------------------------------------------------------------------------------------------------
  // Sending
  // ---------------------------------------------------------------------------------------------------

  function Packet(c: Conn, seqNum: uint32, ackNum: uint32, flags: Flags, payload: seq<byte>): Segment {
    Segment(seqNum, ackNum, flags, c.tcb.rcvWnd, payload)
  }

  predicate NeedsRetransmission(flags: Flags, payload: seq<byte>) {
    flags.syn || flags.fin || |payload| > 0
  }

  function Enqueue(c: Conn, seqNum: uint32, flags: Flags, payload: seq<byte>): Conn {
    if NeedsRetransmission(flags, payload) then c.(queue := c.queue + [Entry(seqNum, flags, payload)]) else c
  }

  function CloseDelete(c: Conn): Conn {
    c.(status := Closed, registered := false, queue := [])
  }

  // ---------------------------------------------------------------------------------------------------
  // Segment handlers
  // ---------------------------------------------------------------------------------------------------

  /** Moves the oldest unacknowledged pointer up to `ack` and drops what that acknowledges from the queue. */
  function Acknowledge(c: Conn, ack: uint32): Conn {
    var t := c.tcb.(sendUna := c.tcb.sendUna + WrappedDist(c.tcb.WrappedUna(), ack));
    c.(tcb := t, queue := Kept(c.queue, t.WrappedUna()))
  }

  predicate InSynWindow(t: TcbState, ack: uint32) {
    t.WrappedUna() <= ack && ack <= t.WrappedSendNxt()
  }

  function HandleSynSent(c: Conn, seg: Segment): Outcome {
    var t := c.tcb;
    if seg.flags.ack && (seg.ackNum <= t.iss || seg.ackNum > t.WrappedSendNxt()) then
      Outcome(c, [Packet(c, 0, seg.ackNum, RST, [])], IncorrectAck)
    else
      var acceptable := seg.flags.ack && InSynWindow(t, seg.ackNum);
      if seg.flags.ack && seg.flags.rst then
        if acceptable then Outcome(CloseDelete(c), [], ConnectionReset) else Outcome(c, [], NoError)
      else if seg.flags.syn then
        SynOnSynSent(c, seg, acceptable)
      else
        Outcome(c, [], NoError)
  }

  function SynOnSynSent(c: Conn, seg: Segment, acceptable: bool): Outcome {
    var c1 := c.(tcb := c.tcb.(rcvNxt := 1, rcvLbr := 1, irs := seg.seqNum));
    var c2 := if acceptable then Acknowledge(c1, seg.ackNum) else c1;
    var t := c2.tcb;
    if t.WrappedUna() > t.iss then
      var ack := Packet(c2, t.WrappedSendNxt(), t.WrappedRcvNxt(), ACK, []);
      Outcome(c2.(status := Established,
                  tcb := t.(sendWnd := seg.window, sendWl1 := seg.seqNum, sendWl2 := seg.ackNum)), [ack], NoError)
    else
      var synAck := Packet(c2, t.iss, t.WrappedRcvNxt(), SYN_ACK, []);
      Outcome(Enqueue(c2, t.iss, SYN_ACK, []).(status := SynRecv), [synAck], NoError)
  }

  /** What the handler does with the acknowledgment; `dropped` when it refuses the whole segment. */
  datatype AckOutcome = AckOutcome(conn: Conn, out: seq<Segment>, dropped: bool)

  /** The acknowledgment is for something not sent yet, as plain 32-bit numbers go. */
  predicate AckRefused(t: TcbState, ack: uint32) {
    && !AckAcceptable(t.WrappedUna(), t.WrappedSendNxt(), ack)
    && ack > t.WrappedUna() && ack > t.WrappedSendNxt()
  }

  /** Processing an acknowledgment leaves the receive side and the bytes of the send buffer alone. */
  predicate OnlyAcknowledges(t: TcbState, t': TcbState) {
    && t'.rcvBuf == t.rcvBuf && t'.rcvNxt == t.rcvNxt && t'.rcvWnd == t.rcvWnd && t'.rcvLbr == t.rcvLbr
    && t'.irs == t.irs && t'.iss == t.iss
    && t'.sendBuf == t.sendBuf && t'.sendNxt == t.sendNxt && t'.sendLbr == t.sendLbr
  }

  function HandleAck(c: Conn, seg: Segment): (r: AckOutcome)
    ensures r.dropped == AckRefused(c.tcb, seg.ackNum)
    ensures OnlyAcknowledges(c.tcb, r.conn.tcb) && (!r.dropped ==> r.out == [])
    ensures r.conn.tcb.rcvWnd == c.tcb.rcvWnd && (c.tcb.Shaped() ==> r.conn.tcb.Shaped())
    ensures r.conn.status == c.status || (c.status == FinWait1 && r.conn.status == FinWait2)
            || (c.status == Closing && r.conn.status == TimeWait)
  {
    var t := c.tcb;
    if AckRefused(t, seg.ackNum) then
      AckOutcome(c, [Packet(c, t.WrappedSendNxt(), t.WrappedRcvNxt(), ACK, [])], true)
    else
      var c1 :=
        if AckAcceptable(t.WrappedUna(), t.WrappedSendNxt(), seg.ackNum) then
          UpdateWindow(Acknowledge(c, seg.ackNum), seg)
        else c;
      var c2 :=
        if c1.status == FinWait1 && seg.ackNum == t.WrappedSendNxt() then c1.(status := FinWait2)
        else if c1.status == Closing && seg.ackNum == t.WrappedSendNxt() then c1.(status := TimeWait)
        else c1;
      AckOutcome(c2, [], false)
  }

  lemma RefusedIff(c: Conn, seg: Segment)
    ensures HandleAck(c, seg).dropped <==> AckRefused(c.tcb, seg.ackNum)
    ensures AckRefused(c.tcb, seg.ackNum) ==>
              HandleAck(c, seg).conn == c
              && HandleAck(c, seg).out == [Packet(c, c.tcb.WrappedSendNxt(), c.tcb.WrappedRcvNxt(), ACK, [])]
  {
    hide Wrap, Kept, WrappedDist;
  }

  function UpdateWindow(c: Conn, seg: Segment): Conn {
    var t := c.tcb;
    if t.sendWl1 < seg.seqNum || (t.sendWl1 == seg.seqNum && t.sendWl2 <= seg.ackNum) then
      c.(tcb := t.(sendWnd := seg.window, sendWl1 := seg.seqNum, sendWl2 := seg.ackNum))
    else c
  }

  predicate Stores(status: Status) {
    status == Established || status == FinWait1 || status == FinWait2
  }

  predicate InWindow(c: Conn, seg: Segment) {
    SegmentAcceptable(c.tcb.WrappedRcvNxt(), c.tcb.rcvWnd, seg.seqNum, |seg.payload|)
  }

  /** The reset is for exactly the next byte. */
  predicate Resets(c: Conn, seg: Segment) {
    seg.flags.rst && seg.seqNum == c.tcb.WrappedRcvNxt()
  }

  /**
   The payload of the segment is going to be stored: neither its sequence number nor its acknowledgment gets it
   dropped.
   */
  predicate Takes(c: Conn, seg: Segment) {
    InWindow(c, seg) && TakesInWindow(c, seg)
  }

  predicate TakesInWindow(c: Conn, seg: Segment) {
    && !Resets(c, seg)
    && (Stores(c.status) || (c.status == SynRecv && seg.flags.ack && InSynWindow(c.tcb, seg.ackNum)))
    && !(seg.flags.ack && AckRefused(c.tcb, seg.ackNum))
  }

  /** The guard of the read controller: a payload is taken only once there is room for it. */
  predicate Fits(c: Conn, seg: Segment) {
    Takes(c, seg) ==> |seg.payload| <= c.tcb.rcvWnd
  }

  function HandleOther(c: Conn, seg: Segment): Outcome
    requires c.tcb.Shaped() && Fits(c, seg)
  {
    var t := c.tcb;
    if InWindow(c, seg) then
      HandleInWindow(c, seg)
    else if seg.flags.rst then
      Outcome(c, [], NoError)
    else
      Outcome(c, [Packet(c, t.WrappedSendNxt(), t.WrappedRcvNxt(), ACK, [])], NoError)
  }

  function HandleInWindow(c: Conn, seg: Segment): Outcome
    requires c.tcb.Shaped() && (TakesInWindow(c, seg) ==> |seg.payload| <= c.tcb.rcvWnd)
  {
    if Resets(c, seg) then
      Outcome(CloseDelete(c), [Packet(c, 0, seg.seqNum, RST, [])], ConnectionReset)
    else if seg.flags.ack then
      HandleAckInWindow(c, seg)
    else
      Process(c, [], seg)
  }

  /** The acknowledgment of our SYN. */
  function OpenIfAcked(c: Conn, ack: uint32): Conn {
    if c.status == SynRecv && InSynWindow(c.tcb, ack) then c.(status := Established) else c
  }

  function HandleAckInWindow(c: Conn, seg: Segment): (r: Outcome)
    requires c.tcb.Shaped() && seg.flags.ack && !Resets(c, seg)
    requires TakesInWindow(c, seg) ==> |seg.payload| <= c.tcb.rcvWnd
    ensures r.error == NoError
  {
    var c1 := OpenIfAcked(c, seg.ackNum);
    if c1.status == TimeWait then
      Process(c1, [], seg)
    else if c1.status == LastAck then
      Outcome(CloseDelete(c1), [], NoError)
    else
      var r := HandleAck(c1, seg);
      if r.dropped then Outcome(r.conn, r.out, NoError) else Process(r.conn, r.out, seg)
  }

  /** The payload and the FIN of an acceptable segment. */
  function Process(c: Conn, out: seq<Segment>, seg: Segment): (r: Outcome)
    requires c.tcb.Shaped() && (Stores(c.status) ==> |seg.payload| <= c.tcb.rcvWnd)
    ensures r.error == NoError
  {
    var (c1, out1) :=
      if Stores(c.status) && |seg.payload| > 0 then
        var c1 := c.(tcb := AddRead(c.tcb, seg.payload));
        var ackNum := (seg.seqNum + |seg.payload|) % TWO32;
        (c1, out + [Packet(c1, c.tcb.WrappedSendNxt(), ackNum, ACK, [])])
      else
        (c, out);
    if seg.flags.fin then HandleFin(c1, out1, seg) else Outcome(c1, out1, NoError)
  }

  function HandleFin(c: Conn, out: seq<Segment>, seg: Segment): Outcome {
    var t := c.tcb;
    var t1 := t.(rcvNxt := t.rcvNxt + WrappedDist(t.WrappedRcvNxt(), (seg.seqNum + 1) % TWO32));
    var c1 := c.(tcb := t1);
    var out1 := out + [Packet(c1, t.WrappedSendNxt(), t1.WrappedRcvNxt(), ACK, [])];
    var status :=
      match c.status
      case Established => CloseWait
      case FinWait1 => if seg.ackNum == t.WrappedSendNxt() then TimeWait else Closing
      case FinWait2 => TimeWait
      case s => s;
    Outcome(c1.(status := status), out1, NoError)
  }

  function Handle(c: Conn, seg: Segment): Outcome
    requires c.tcb.Shaped() && Fits(c, seg)
  {
    if c.status == Closed || c.status == Listen then Outcome(c, [], NoError)
    else if c.status == SynSent then HandleSynSent(c, seg)
    else HandleOther(c, seg)
  }

  // ---------------------------------------------------------------------------------------------------
  // Calls of the application
  // ---------------------------------------------------------------------------------------------------

  /** VConnect up to the wait: the SYN is sent and queued. */
  function Connect(t: TcbState): Outcome {
    var c := Conn(SynSent, true, t, []);
    Outcome(Enqueue(c, t.iss, SYN, []), [Packet(c, t.iss, t.irs, SYN, [])], NoError)
  }

  /** VAccept up to the wait, for the SYN `syn`. */
  function Accept(blank: TcbState, syn: Segment): Outcome {
    var t := blank.(irs := syn.seqNum, sendWl1 := syn.seqNum, sendWl2 := syn.ackNum, rcvNxt := 1, rcvLbr := 1,
                    sendWnd := syn.window);
    var c := Conn(SynRecv, true, t, []);
    Outcome(Enqueue(c, t.iss, SYN_ACK, []), [Packet(c, t.iss, t.WrappedRcvNxt(), SYN_ACK, [])], NoError)
  }

  function SendFin(c: Conn, status: Status): (r: Outcome)
    ensures r.error == NoError
  {
    var t := c.tcb;
    var c1 := c.(status := status, tcb := t.(sendNxt := t.sendNxt + 1));
    Outcome(Enqueue(c1, t.WrappedSendNxt(), FIN_ACK, []),
            [Packet(c1, t.WrappedSendNxt(), t.WrappedRcvNxt(), FIN_ACK, [])], NoError)
  }

  function Close(c: Conn): Outcome {
    if c.status == SynSent then Outcome(CloseDelete(c), [], NoError)
    else if c.status == FinWait2 || c.status == TimeWait then Outcome(c, [], ConnectionClosing)
    else if c.status == CloseWait then SendFin(c, LastAck)
    else SendFin(c, FinWait1)
  }

  /** One FIN+ACK, numbered SND.NXT, goes out and into the queue; nothing else changes but SND.NXT and the status. */
  predicate FinGoesOut(c: Conn, c': Conn, out: seq<Segment>, status: Status) {
    var t, fin := c.tcb, Flags(false, true, false, true);
    && out == [Segment(Wrap(t.iss, t.sendNxt), Wrap(t.irs, t.rcvNxt), fin, t.rcvWnd, [])]
    && c' == Conn(status, c.registered, t.(sendNxt := t.sendNxt + 1),
                  c.queue + [Entry(Wrap(t.iss, t.sendNxt), fin, [])])
  }

  /** What closing a connection does: a FIN, which leaves CLOSE-WAIT for LAST-ACK; nothing to say; or too late. */
  predicate ClosesAsIntended(c: Conn, r: Outcome) {
    if c.status == SynSent then
      r.conn == c.(status := Closed, registered := false, queue := []) && r.out == [] && r.error == NoError
    else if c.status == FinWait2 || c.status == TimeWait then
      r.conn == c && r.out == [] && r.error == ConnectionClosing
    else
      FinGoesOut(c, r.conn, r.out, if c.status == CloseWait then LastAck else FinWait1) && r.error == NoError
  }

  lemma CloseLaw(c: Conn)
    ensures ClosesAsIntended(c, Close(c))
  {
    hide Wrap;
  }

  predicate Readable(status: Status) {
    Stores(status) || status == CloseWait
  }

  /** VRead: at most `count` of the bytes received. */
  function Read(c: Conn, count: nat): (Conn, seq<byte>, Error)
    requires c.tcb.Shaped()
  {
    if Readable(c.status) then
      var (t, data) := ReadRecv(c.tcb, count);
      (c.(tcb := t), data, NoError)
    else
      (c, [], ConnectionClosing)
  }

  /** The retransmission timer resends the newest entry; the queue is not changed. */
  function Retransmit(c: Conn): seq<Segment> {
    if c.queue == [] then [] else
      var e := c.queue[|c.queue| - 1];
      [Packet(c, e.seqNum, c.tcb.WrappedRcvNxt(), e.flags, e.payload)]
  }

  /** One turn of the loop of VWrite in Established: the data goes through the send buffer into one segment. */
  function WriteSegment(c: Conn, data: seq<byte>): (Conn, Segment)
    requires c.tcb.Shaped()
  {
    var (t, sent) := ReadSend(AddSend(c.tcb, data), |data|);
    var c1 := c.(tcb := t);
    var seqNum := (t.WrappedSendNxt() - |sent|) % TWO32;
    (Enqueue(c1, seqNum, ACK, sent), Packet(c1, seqNum, t.WrappedRcvNxt(), ACK, sent))
  }

  /** With nothing pending, a turn sends exactly its data, numbered from the old SND.NXT. */
  lemma WriteSegmentSends(c: Conn, data: seq<byte>)
    requires c.tcb.Shaped() && c.tcb.sendLbr == c.tcb.sendNxt && |data| <= MSS
    ensures var (c', seg) := WriteSegment(c, data);
            && seg == Packet(c', c.tcb.WrappedSendNxt(), c.tcb.WrappedRcvNxt(), ACK, data)
            && c'.tcb.sendNxt == c.tcb.sendNxt + |data| && c'.tcb.sendLbr == c'.tcb.sendNxt
            && c' == Enqueue(c.(tcb := c'.tcb), seg.seqNum, ACK, data)
            && c'.tcb == c.tcb.(sendBuf := c'.tcb.sendBuf, sendNxt := c'.tcb.sendNxt, sendLbr := c'.tcb.sendNxt)
            && c'.tcb.Shaped()
  {
    hide Wrap, Store;
    var t1 := AddSend(c.tcb, data);
    AddThenReadAll(c.tcb, data);
    BackFromEnd(c.tcb.iss, c.tcb.sendNxt, |data|);
  }

  /** A turn that finds the send window closed: the send controller takes the first byte out, for a probe. */
  function TakeProbe(c: Conn, data: seq<byte>): (r: Conn)
    requires c.tcb.Shaped()
    ensures r.tcb.Shaped()
  {
    c.(tcb := ReadSend(AddSend(c.tcb, data), 1).0)
  }

  /**
   Once the window has opened, the controller hands over one byte less than it was asked for. `VWrite` counts
   those bytes only, so its next slice starts with the last of them again.
   */
  function SendRest(c: Conn, count: nat): (Conn, Segment)
    requires c.tcb.Shaped()
  {
    var (t, sent) := ReadSend(c.tcb, count);
    var c1 := c.(tcb := t);
    var seqNum := (t.WrappedSendNxt() - |sent|) % TWO32;
    (Enqueue(c1, seqNum, ACK, sent), Packet(c1, seqNum, t.WrappedRcvNxt(), ACK, sent))
  }

  /** One turn of the loop of VWrite, with nothing else happening in between. */
  function WriteTurn(c: Conn, data: seq<byte>): (Conn, Segment)
    requires c.tcb.Shaped() && |data| > 0
  {
    if c.tcb.sendWnd == 0 then SendRest(TakeProbe(c, data), |data| - 1) else WriteSegment(c, data)
  }

  lemma TakeProbeLeavesRest(c: Conn, data: seq<byte>)
    requires c.tcb.Shaped() && c.tcb.sendLbr == c.tcb.sendNxt && 0 < |data| <= MSS
    ensures var t := TakeProbe(c, data).tcb;
            && t.sendLbr == c.tcb.sendNxt + 1 && t.sendNxt == c.tcb.sendNxt + |data| && t.Pending() == data[1..]
            && TakeProbe(c, data) == c.(tcb := t)
            && t == c.tcb.(sendBuf := t.sendBuf, sendNxt := t.sendNxt, sendLbr := t.sendLbr)
  {
    hide Store, Window;
    var at := c.tcb.sendNxt;
    StoreExtendsWindow(c.tcb.sendBuf, at, at, data);
    assert Window(c.tcb.sendBuf, at, at) == [];
    WindowSplit(Store(c.tcb.sendBuf, at, data), at, at + 1, at + |data|);
  }

  /** What is handed over then is all that is pending, numbered from where it is. */
  lemma RestIsSent(c: Conn)
    requires c.tcb.Shaped() && c.tcb.sendNxt - c.tcb.sendLbr <= MSS
    ensures var t, rest := c.tcb, c.tcb.Pending();
            var (c', seg) := SendRest(c, |rest|);
            && seg == Packet(c', Wrap(t.iss, t.sendLbr), t.WrappedRcvNxt(), ACK, rest)
            && c' == Enqueue(c.(tcb := t.(sendLbr := t.sendNxt)), seg.seqNum, ACK, rest)
  {
    hide Wrap;
    BackFromEnd(c.tcb.iss, c.tcb.sendLbr, c.tcb.sendNxt - c.tcb.sendLbr);
  }

  /** A turn sends its data, numbered from SND.NXT, exactly if the window is open; else the first byte is missing. */
  lemma TurnSendsExactlyIff(c: Conn, data: seq<byte>)
    requires c.tcb.Shaped() && c.tcb.sendLbr == c.tcb.sendNxt && 0 < |data| <= MSS
    ensures var (c', seg) := WriteTurn(c, data);
            && c'.tcb.sendNxt == c'.tcb.sendLbr == c.tcb.sendNxt + |data|
            && (seg.payload == data && seg.seqNum == c.tcb.WrappedSendNxt() <==> c.tcb.sendWnd > 0)
            && (c.tcb.sendWnd == 0 ==>
                  && seg.payload == data[1..] && seg.seqNum == Wrap(c.tcb.iss, c.tcb.sendNxt + 1)
                  && c' == Enqueue(c.(tcb := c'.tcb), seg.seqNum, ACK, data[1..])
                  && c'.tcb.iss == c.tcb.iss && c'.tcb.sendUna == c.tcb.sendUna)
  {
    hide Wrap, Store, WriteSegment, SendRest, TakeProbe;
    if c.tcb.sendWnd > 0 {
      WriteSegmentSends(c, data);
    } else {
      TakeProbeLeavesRest(c, data);
      RestIsSent(TakeProbe(c, data));
    }
  }

  lemma AddThenReadAll(t: TcbState, data: seq<byte>)
    requires t.Shaped() && t.sendLbr == t.sendNxt && |data| <= MSS
    ensures var (t', sent) := ReadSend(AddSend(t, data), |data|);
            sent == data && t' == AddSend(t, data).(sendLbr := t.sendNxt + |data|)
  {
    hide Store;
    StoreExtendsWindow(t.sendBuf, t.sendNxt, t.sendNxt, data);
    assert Window(t.sendBuf, t.sendNxt, t.sendNxt) + data == data;
  }

  lemma BackFromEnd(base: uint32, pointer: nat, n: nat)
    ensures (Wrap(base, pointer + n) - n) % TWO32 == Wrap(base, pointer)
  {
    var x := base + pointer + n;
    var q := x / TWO32;
    assert Wrap(base, pointer + n) - n == base + pointer - q * TWO32;
    assert (base + pointer) % TWO32 == (base + pointer - q * TWO32) % TWO32;
  }
}
