/** A completed opening is where the data path starts. */
module Openings {
  import opened Words
  import opened Sequence
  import opened Segments
  import opened RetransmitQueue
  import opened Tcb
  import opened ConnectionModel
  import Outstanding
  import opened Handshake
  import opened DataPath

  /** The initial sequence numbers for which an opening completes. */
  predicate Completes(client: TcbState, server: TcbState) {
    client.iss + TCB_SIZE + 1 < TWO32 && server.iss + 1 < TWO32
  }

  /** Both sides after an opening in which nothing was lost. */
  function Opened(client: TcbState, server: TcbState): System
    requires Blank(client) && Blank(server)
  {
    var (c, s) := Opening(client, server);
    System(Side(c, [], []), Side(s, [], []), [], [])
  }

  lemma ClientAfterOpening(client: TcbState, synAck: Segment)
    requires Blank(client) && client.iss + 1 < TWO32
    requires synAck.flags == SYN_ACK && synAck.ackNum == Wrap(client.iss, 1)
    ensures var c := HandleSynSent(Connect(client).conn, synAck).conn; var t := c.tcb;
            && c.status == Established && c.registered && t.Shaped() && t.iss == client.iss && t.irs == synAck.seqNum
            && t.sendWl1 == synAck.seqNum && t.sendWl2 == synAck.ackNum
            && t.sendUna == 1 && t.sendNxt == 1 && t.sendLbr == 1 && t.sendWnd == synAck.window
            && t.rcvNxt == 1 && t.rcvLbr == 1 && t.rcvWnd == TCB_SIZE
  {
    hide Kept;
    WrapOfOne(client.iss);
    assert client.WrappedUna() == client.iss;
  }

  lemma ServerAfterOpening(server: TcbState, syn: Segment, ack: Segment)
    requires Blank(server) && server.iss + 1 < TWO32 && syn.seqNum + TCB_SIZE + 1 < TWO32
    requires ack.flags == ACK && ack.payload == []
    requires ack.seqNum == Wrap(syn.seqNum, 1) && ack.ackNum == Wrap(server.iss, 1)
    ensures var s := Handle(Accept(server, syn).conn, ack).conn; var t := s.tcb;
            && s.status == Established && t.Shaped() && t.iss == server.iss && t.irs == syn.seqNum
            && t.sendUna == 1 && t.sendNxt == 1 && t.sendLbr == 1
            && t.rcvNxt == 1 && t.rcvLbr == 1 && t.rcvWnd == TCB_SIZE
            && Accept(server, syn).conn.tcb.sendWnd == syn.window && Accept(server, syn).conn.tcb.sendWl1 == syn.seqNum
  {
    hide Kept, HandleAck;
    var c := Accept(server, syn).conn;
    WrapOfOne(server.iss);
    WrapOfOne(syn.seqNum);
    assert c.tcb.WrappedRcvNxt() == ack.seqNum && c.tcb.WrappedUna() == server.iss;
    assert InWindow(c, ack) && InSynWindow(c.tcb, ack.ackNum);
    SynAcknowledged(c.(status := Established), ack);
  }

  /** A completed opening is a start of the data path. */
  lemma OpenedIsStart(client: TcbState, server: TcbState)
    requires Blank(client) && Blank(server) && Completes(client, server)
    ensures DataPath.Start(Opened(client, server))
  {
    hide HandleSynSent, Handle, Wrap;
    var o1 := Connect(client);
    var o2 := Accept(server, o1.out[0]);
    ClientAfterOpening(client, o2.out[0]);
    ClientEstablishesIff(client, o2.out[0]);
    var ack := HandleSynSent(o1.conn, o2.out[0]).out[0];
    ServerAfterOpening(server, o1.out[0], ack);
  }

  /** From an opening on, whatever follows, both streams are safe. */
  lemma OpenedStreamsAreSafe(client: TcbState, server: TcbState, states: seq<System>, steps: seq<DataPath.Step>)
    requires Blank(client) && Blank(server) && Completes(client, server)
    requires DataPath.IsRun(states, steps) && states[0] == Opened(client, server)
    ensures var s := states[|steps|]; StreamSafe(s.a, s.b, s.ba) && StreamSafe(s.b, s.a, s.ab)
  {
    OpenedIsStart(client, server);
    hide Opened, StreamSafe, StepEnabled, DataPath.Do;
    StreamsAreSafe(states, steps);
  }

  /** A completed opening leaves the client stuck exactly if the window behind the server's SYN reaches 2^32. */
  lemma OpenedIsStuckIff(client: TcbState, server: TcbState)
    requires Blank(client) && Blank(server) && Completes(client, server)
    ensures Stuck(Opened(client, server)) <==> server.iss + TCB_SIZE + 1 >= TWO32
    ensures !Stuck(Flip(Opened(client, server)))
  {
    hide Opened, Stuck, DataPath.Start, Wrap;
    var s := Opened(client, server);
    OpenedIsStart(client, server);
    OpenedNumbers(client, server);
    WrapOfOne(client.iss);
    WrapOfOne(server.iss);
    StartIsStuckIff(s, true);
    StartIsStuckIff(s, false);
  }

  lemma OpenedNumbers(client: TcbState, server: TcbState)
    requires Blank(client) && Blank(server) && Completes(client, server)
    ensures var s := Opened(client, server); s.a.conn.tcb.iss == client.iss && s.b.conn.tcb.iss == server.iss
  {
    hide HandleSynSent, Handle, Wrap;
    var o1 := Connect(client);
    var o2 := Accept(server, o1.out[0]);
    ClientAfterOpening(client, o2.out[0]);
    ClientEstablishesIff(client, o2.out[0]);
    ServerAfterOpening(server, o1.out[0], HandleSynSent(o1.conn, o2.out[0]).out[0]);
  }

  /** For the rest of such a connection, the client receives nothing. */
  lemma StuckOpeningReceivesNothing(
    client: TcbState, server: TcbState, states: seq<System>, steps: seq<DataPath.Step>)
    requires Blank(client) && Blank(server) && Completes(client, server) && server.iss + TCB_SIZE + 1 >= TWO32
    requires DataPath.IsRun(states, steps) && states[0] == Opened(client, server)
    ensures states[|steps|].a.conn.tcb.rcvNxt == 1
  {
    OpenedIsStart(client, server);
    OpenedNumbers(client, server);
    WrapOfOne(server.iss);
    hide Opened, StepEnabled, DataPath.Do, DataPath.Start;
    StuckStartReceivesNothing(states, steps, true);
  }
}
