# A verified model of the IP/TCP stack

This project models three parts of the stack and proves what they keep.

**Sequence numbers, buffers and one connection.** A connection addresses its byte streams with unbounded pointers;
segments carry 32-bit numbers that the code compares as plain unsigned words. `Sequence` says what those comparisons
mean modulo 2^32. `Tcb` has the two ring buffers of 65536 slots, `RetransmitQueue` the queue of segments sent (in fact
a stack), `ConnectionModel` what every event does to a connection as a value, and `Connection` the object that does
the same in place. `SegmentLaws` says what each kind of segment does, status by status.

**Whole runs of TCP.** `Lifecycle`: the statuses. `Outstanding`: what is sent and not yet acknowledged. `QueueRuns`:
when the queue is empty. `DataPath`: two established endpoints, data both ways, over a channel that keeps order and
may carry old copies. `Handshake`: a client and a listener, which may accept again, over a channel that loses,
duplicates and reorders. `Openings`: a completed opening is where the data path starts. `CornerCases`: runs that end
where one would not expect.

**Routing.** `RipWire`: masks and the packet format. `RipRouter`: one router. `RipNetwork`: any graph of routers with
packets lost, duplicated and reordered, and neighbours timing out. `RipConvergence`: rounds, in which each router
sends its table to every neighbour it has. `RipRounds`: such rounds exist. `RipLimits` and `RipLists`: how the size of
a packet and the lists of neighbours bound convergence, exactly. `Forwarding`: longest-prefix match, and where
`findIp` sends packets, from a host with a default route too, once the tables have converged. `SocketIds` is the
numbering of sockets in the user interface.

Class methods change fields, arrays and maps step by step as the code does, and each is proved against a function on
values; the theorems about runs are about those functions. Where the code waits (the two buffer controllers), the step
is enabled only when the wait would be over; each handler call is one step. The random initial sequence number, the
time and the order in which Go visits a map are parameters or arbitrary choices. A timer may run out at any time,
which allows more than the code does; the runs that show where a property fails use none, but for one timeout of
`VAccept`.

## What turned out not to hold, and exactly when it does

- The segment and acknowledgment tests never accept what RFC 9293 rejects, but they reject too much as soon as their
  interval reaches 2^32 (`SegmentTestIsExactIff`, `AckTestIsSoundAndExactIff`). A new payload that fits is taken if
  and only if the receive window ends below 2^32 and no acknowledgment is refused (`NewPayloadTakenIff`). Otherwise
  the stream is stalled, for good (`StallIsForGood`): from the start exactly if the window behind the peer's SYN
  reaches 2^32 (`StartIsStuckIff`), so that an opening may complete and leave the client without a single byte
  (`OpenedIsStuckIff`), or later (`DeafIsReachable`). While writes find the send window open, no wrong byte is
  delivered (`StreamsAreSafe`).
- `Cleanup` compares capped distances. Over runs in which acknowledgments land on segment ends, the queue is empty
  exactly when everything is acknowledged if and only if, whenever everything was acknowledged, the queue went back at
  most 65535 and no entry was numbered above the acknowledgment, except one exactly 65535 behind
  (`QueueEmptyExactlyWhenAckedIff`). `AnAckedEntryStays` is a run where it went back 65537; what stays, stays until
  SND.UNA is 2^32 ahead of it (`OldestStays`).
- An acknowledgment inside the newest entry makes the queue forget the rest of that entry, unless 2^32 lies in between
  (`PartialAckForgets`; run: `HalfASegmentIsForgotten`).
- FIN-WAIT-2 means that our FIN is acknowledged if and only if at most 65535 sequence numbers are outstanding and 2^32
  is not among them (`FinWait2IsSoundIff`; run: `FinWait2TooEarly`).
- A turn of `VWrite` sends its data if and only if the send window is open; otherwise the probe takes the first byte,
  which is not counted (`TurnSendsExactlyIff`). The segments of a call tile its data if and only if that never happens
  (`VWrite`). Once it has, no entry of the queue holds the byte (`WriteTurnRemembersIff`; run: `ClosedWindowForgets`),
  and the peer takes the rest for the next stretch of the stream, which is then wrong unless all bytes of the turn are
  equal (`ClosedTurnShiftsStream`).
- `VClose` leaves the edges of Figure 5 in section 3.3.2 of RFC 9293 in CLOSING, LAST-ACK and CLOSED, and only there
  (`StepFollowsFigure5Iff`); then a connection may change status without end (`ClosingAgainNeverEnds`, from an
  opening).
- A FIN in its place moves RCV.NXT just behind itself if and only if it comes with exactly two bytes, or without
  payload and not numbered 2^32 - 1 (`FinIsCountedIff`). No byte is stored for it: a read that finds anything in front
  of it returns one byte more than was sent, and then the window is 0 (`ReadAfterFin`). After a full buffer and a FIN,
  a read of 65536 bytes returns none (`WholeTurnReadsNothing`).
- An opening in which nothing is lost establishes both sides if and only if the client's initial sequence number is at
  most 2^32 - 65537 and the server's is not 2^32 - 1 (`OpeningCompletesIff`).
- A listener may accept again, after its connection was deleted, while the client still holds the old number. The two
  sides then disagree exactly after an acknowledgment that is not for this connection and yet passes the test of
  SYN-RECEIVED (`StepDisagreesIff`). If the deleted connection had sent nothing but its SYN, that can happen if and
  only if the new initial sequence number is one more than the old, as plain words, and the client's leaves the server
  a window (`SecondAcceptIff`; run: `StaleAckRun`).
- A routing table of more than 64 entries is never sent, not even in parts. From wherever a run has led, once the
  routers within k hops of a prefix are right about it, one round makes those k + 1 hops away right, if and only if
  each of them has an adjacent router at distance k with at most 64 prefixes within 15 hops (`RoundsAdvanceIff`).
- A timeout takes a router off a list, and only a packet from it puts it back: a link that is on neither end's list
  never carries anything again (`StrangersForGood`). From a reachable state that has drained, sixteen rounds converge
  if and only if every router is acquainted, on one list or the other, with a router one hop closer to each prefix
  (`ListsDecide`); after two timeouts two routers may never be (`TwoRoutersNeverConvergeAgain`).
- The parser slices up to the capacity of the receive buffer, not to the length of the packet. Its entries come from
  the packet if and only if the packet is as long as its header says (`EntriesAreContentsIff`): an empty response that
  claims one entry installs a default route (`EmptyResponseAddsDefaultRoute`), and one that claims 65535 panics
  (`LongResponsePanics`).

## Model

| member | source | states |
|---|---|---|
| Sequence.SegmentTestIsSound | pkg/protocol/normalsocket.go:359-376 | whatever the segment test accepts, Table 6 of section 3.10.7.4 of RFC 9293 accepts modulo 2^32, for all values |
| Sequence.SegmentTestIsExactIff | pkg/protocol/normalsocket.go:359-376 | it agrees with RFC 9293 on every segment exactly when the window is 0 or ends below 2^32 |
| Sequence.AckTestIsSoundAndExactIff | pkg/protocol/normalsocket.go:352-356 | the acknowledgment test implies SND.UNA < SEG.ACK =< SND.NXT modulo 2^32 for all values, and is that exactly when the send interval does not wrap |
| Sequence.CompareMeansBehind | pkg/protocol/tcb.go:109-127 | `wrappedCompare` is negative only for 1..65535 behind on the circle, exactly that without a wrap, and past a wrap only at distance 65535 |
| Sequence.AheadOfPointers | pkg/protocol/tcb.go:129-135 | wrapping pointers less than 2^32 apart keeps their distance on the circle, and says how it shows in plain comparisons |
| Sequence.AcceptedAckIsExact | pkg/protocol/socketHandlers.go:206-213 | an accepted acknowledgment moves SND.UNA forward, not past SND.NXT, and to exactly the acknowledged number unless 65536 are acknowledged at once |
| RetransmitQueue.RtoQueue.Push | pkg/protocol/retransmitQueue.go:35-37 | appends at the tail |
| RetransmitQueue.RtoQueue.Pop | pkg/protocol/retransmitQueue.go:39-48 | takes the newest entry, or nothing from an empty queue |
| RetransmitQueue.RtoQueue.Peek | pkg/protocol/retransmitQueue.go:50-55 | the newest entry, if any |
| RetransmitQueue.RtoQueue.Cleanup | pkg/protocol/retransmitQueue.go:57-70 | drops from the tail while the tail compares below SND.UNA; what is kept and what is popped make up the old queue |
| RetransmitQueue.Kept | pkg/protocol/retransmitQueue.go:57-70 | what cleaning up keeps is a prefix that ends in an entry not below SND.UNA, and all dropped entries are below |
| RetransmitQueue.TilesHold | pkg/protocol/retransmitQueue.go:35-37 | in a contiguous queue every sequence number of the interval belongs to an entry with the right number and bytes |
| RetransmitQueue.PushCovers | pkg/protocol/normalsocket.go:318-326 | sending the next bytes, a SYN or a FIN keeps everything outstanding covered |
| RetransmitQueue.CleanupCovers | pkg/protocol/retransmitQueue.go:57-70 | an acknowledgment of all, or of nothing of the newest entry, forgets nothing unacknowledged, whether or not numbers wrap |
| RetransmitQueue.CoverEndsWithNewest | pkg/protocol/retransmitQueue.go:50-55 | while something is outstanding, the newest entry is the last segment sent |
| RetransmitQueue.PartialAckForgets | pkg/protocol/retransmitQueue.go:57-70 | outstanding data is forgotten exactly when the acknowledgment lands inside the newest entry and 2^32 does not lie between the start of that entry and it |
| RetransmitQueue.QueueEmptiesIff | pkg/protocol/retransmitQueue.go:57-70 | with all of a contiguous queue acknowledged (the SYN may be in it twice), it is emptied exactly when it goes back at most 65535 and no entry is numbered above the acknowledgment, except one exactly 65535 behind |
| Tcb.StoreExtendsWindow | pkg/protocol/tcb.go:238-250 | writing behind a window of the ring appends to it and overwrites none of it while at most 65536 slots are used |
| Tcb.SlicesAreWindow | pkg/protocol/tcb.go:262-270 | the one- or two-slice copy is the bytes in pointer order across the end of the ring |
| Tcb.CapacityIsSound | pkg/protocol/tcb.go:102-104 | the send capacity never exceeds the free space; it is exact unless the pointers straddle a multiple of 2^32, and 0 there |
| Tcb.RunRefines | pkg/protocol/tcb.go:141-334 | any run of adds, reads and acknowledgments refines two first-in first-out byte queues |
| Tcb.BuffersAreFifo | pkg/protocol/tcb.go:53-93 | from a fresh connection, bytes come out in order with none lost or overwritten, unread plus free is 65535, at most 65535 are outstanding |
| Tcb.ReadIsFront | pkg/protocol/tcb.go:311-334 | a read returns the first min(count, there are) bytes, leaves the rest, and before a FIN adds exactly that to the window |
| Tcb.WholeTurnReadsNothing | pkg/protocol/tcb.go:311-334 | with all 65536 slots in use, a read of at least 65536 bytes returns none |
| Tcb.ReadSendIsFront | pkg/protocol/tcb.go:258-279 | the same for the send side, at most 1360 bytes at a time |
| Tcb.TCB.constructor | pkg/protocol/tcb.go:53-76 | the initial pointers and two zeroed buffers of 65536 slots |
| Tcb.TCB.SetSynReceivedState | pkg/protocol/tcb.go:85-93 | the receive pointers start at 1 after the peer's SYN; nothing else but window fields changes |
| Tcb.TCB.GetSendCapacity | pkg/protocol/tcb.go:102-104 | is the capacity of `CapacityIsSound` |
| Tcb.TCB.Add2Send | pkg/protocol/tcb.go:238-250 | the in-place loop stores the payload at SND.NXT as `StoreExtendsWindow` describes |
| Tcb.TCB.CopyOut | pkg/protocol/tcb.go:261-270 | returns the bytes between two pointers, less whole turns of the ring |
| Tcb.TCB.ReadFromSend | pkg/protocol/tcb.go:258-279 | returns exactly the first pending bytes: as many as asked for and there are, at most 1360; the rest stays pending |
| Tcb.TCB.Add2Read | pkg/protocol/tcb.go:289-303 | stores the payload at RCV.NXT and takes it from the window |
| Tcb.TCB.ReadFromRecv | pkg/protocol/tcb.go:311-334 | returns exactly the oldest received bytes, as many as asked for and there are, and gives them back to the 16-bit window; the rest stays (but for whole turns of the ring) |
| ConnectionModel.HandleAck | pkg/protocol/socketHandlers.go:197-256 | an acknowledgment leaves the receive side and the send bytes alone, and changes the status only from FIN-WAIT-1 to FIN-WAIT-2 or CLOSING to TIME-WAIT |
| ConnectionModel.WriteSegmentSends | pkg/protocol/normalsocket.go:137-144 | with nothing pending, a turn of `VWrite` sends exactly its data from the old SND.NXT, across 2^32 |
| ConnectionModel.TurnSendsExactlyIff | pkg/protocol/tcb.go:191-224 | a turn sends exactly its data from SND.NXT if and only if the window is open; otherwise all but the first byte, one number later |
| ConnectionModel.TakeProbeLeavesRest | pkg/protocol/tcb.go:193-198 | a closed window takes the first byte out and leaves the rest pending |
| ConnectionModel.RestIsSent | pkg/protocol/tcb.go:219-224 | what is handed over then is all that is pending, numbered from where it is |
| ConnectionModel.CloseLaw | pkg/protocol/normalsocket.go:166-190 | closing: SYN-SENT is deleted, FIN-WAIT-2 and TIME-WAIT refuse, any other status puts one FIN+ACK numbered by the old SND.NXT on the wire and in the queue, takes one number, and leads to FIN-WAIT-1, from CLOSE-WAIT to LAST-ACK |
| Connection.VTcpConn.Connect | pkg/protocol/normalsocket.go:65-78 | SYN-SENT, registered, one SYN sent and queued |
| Connection.VTcpConn.Accept | pkg/protocol/listensocket.go:48-61 | SYN-RECEIVED, registered, the peer's number taken over, one SYN+ACK sent and queued |
| Connection.VTcpConn.Send | pkg/protocol/normalsocket.go:318-326 | one packet with the current window; queued exactly if it has a SYN, a FIN or data |
| Connection.VTcpConn.SendRst | pkg/protocol/normalsocket.go:341-344 | a reset goes out past the queue |
| Connection.VTcpConn.HandleSegment | pkg/protocol/socketHandlers.go:9-25 | new state, packets sent and error of a segment in any status; the status moves along Figure 5 of RFC 9293, and the bound on what is outstanding is kept |
| Connection.VTcpConn.HandleSynSentState | pkg/protocol/socketHandlers.go:56-117 | the same in SYN-SENT, with its reset and error cases |
| Connection.VTcpConn.SynInSynSent | pkg/protocol/socketHandlers.go:81-113 | the SYN part: established if it acknowledges ours, else SYN-RECEIVED with a SYN+ACK queued |
| Connection.VTcpConn.BecomeEstablished | pkg/protocol/socketHandlers.go:97-107 | the status, the acknowledgment sent and the window taken over |
| Connection.VTcpConn.HandleOtherStates | pkg/protocol/socketHandlers.go:122-194 | the same in the other statuses, inside and outside the window |
| Connection.VTcpConn.HandleSegmentInWindow | pkg/protocol/socketHandlers.go:135-182 | reset, acknowledgment, payload and FIN in that order |
| Connection.VTcpConn.HandleAckOfSegmentInWindow | pkg/protocol/socketHandlers.go:142-182 | the acknowledgment of an acceptable segment, by status |
| Connection.VTcpConn.DoOpenIfAcked | pkg/protocol/socketHandlers.go:143-148 | SYN-RECEIVED becomes established exactly on an acknowledgment from SND.UNA to SND.NXT |
| Connection.VTcpConn.DoAcknowledge | pkg/protocol/socketHandlers.go:210-214 | SND.UNA moves by the capped distance, and the queue is cleaned up for it |
| Connection.VTcpConn.DoUpdateWindow | pkg/protocol/socketHandlers.go:225-237 | the window is taken from segments that are not older |
| Connection.VTcpConn.HandleAckOtherStates | pkg/protocol/socketHandlers.go:197-256 | SND.UNA, queue, window and status; whether the segment is dropped |
| Connection.VTcpConn.ProcessSegment | pkg/protocol/socketHandlers.go:167-182 | stores and acknowledges the payload where the status allows, then the FIN |
| Connection.VTcpConn.HandleFinOtherStates | pkg/protocol/socketHandlers.go:258-290 | RCV.NXT past the FIN, an acknowledgment, the new status |
| Connection.VTcpConn.VClose | pkg/protocol/normalsocket.go:166-190 | exactly what `CloseLaw` says, on the wire, in the queue and for the status; stays on Figure 5 exactly outside CLOSING, LAST-ACK and CLOSED |
| Connection.VTcpConn.DoCloseDelete | pkg/protocol/normalsocket.go:192-198 | closed, unregistered, empty queue |
| Connection.VTcpConn.VRead | pkg/protocol/normalsocket.go:98-117 | in the four readable statuses exactly the first min(count, buffered) bytes of the buffer, the rest stays; in the others an error and no change |
| Connection.VTcpConn.RtoTimeout | pkg/protocol/normalsocket.go:235-253 | resends the newest entry with the current acknowledgment; queue unchanged |
| Connection.VTcpConn.VWrite | pkg/protocol/normalsocket.go:119-164 | whatever else happens meanwhile, `sent` went onto the wire in that order; its segments are of 1..1360 bytes and consecutive from the old SND.NXT modulo 2^32 if and only if no probe took a byte, and then they make up exactly the data (a proper prefix, and count 0, if the status changed); SND.NXT moves by what was sent and probed; the last segment is the newest in the queue |
| Connection.VTcpConn.EmitSegment | pkg/protocol/normalsocket.go:134-150 | one turn of the loop puts one more segment on the wire, and keeps the tiling exactly if no probe takes a byte |
| Connection.VTcpConn.SendOneSegment | pkg/protocol/normalsocket.go:134-150 | one turn: the packet on the wire and the queue entry hold exactly the slice, numbered from SND.NXT, or all but its first byte, one later, if the window was closed |
| Connection.VTcpConn.PassThroughSendBuffer | pkg/protocol/normalsocket.go:137-139 | what comes out of the send buffer is what went in, less its first byte if the window was closed |
| Connection.VTcpConn.ReadOut | pkg/protocol/tcb.go:191-224 | the read of the send controller, with and without a probe |
| Connection.TiledOneMore | pkg/protocol/normalsocket.go:140-150 | appending a segment keeps the tiling if and only if it is numbered by what was sent so far |
| SegmentLaws.ResetDeletes | pkg/protocol/socketHandlers.go:135-141 | a reset for exactly the next byte deletes the connection in every status from SYN-RECEIVED on, and is answered by a reset |
| SegmentLaws.OtherResetIsNone | pkg/protocol/socketHandlers.go:135-142 | any other acceptable reset is processed as a segment without the flag |
| SegmentLaws.UnacceptableIsAnswered | pkg/protocol/socketHandlers.go:183-192 | an unacceptable segment changes nothing and is acknowledged, unless it is a reset |
| SegmentLaws.UnheededIsAnswered | pkg/protocol/socketHandlers.go:238-243 | so is one with an acknowledgment for something not sent, as plain words go |
| SegmentLaws.FinMovesOn | pkg/protocol/socketHandlers.go:258-290 | the exact next status after an acceptable segment with ACK and FIN, in each of the eight statuses |
| SegmentLaws.AckMovesOn | pkg/protocol/socketHandlers.go:142-166 | the exact next status after one with ACK and without FIN |
| SegmentLaws.BareSegmentMovesOn | pkg/protocol/socketHandlers.go:167-182 | the exact next status after one without ACK |
| SegmentLaws.LateAck | pkg/protocol/socketHandlers.go:149-158 | in LAST-ACK any acceptable acknowledgment, whatever its number, deletes the connection; in TIME-WAIT none changes the status |
| SegmentLaws.SynSentMovesOn | pkg/protocol/socketHandlers.go:56-117 | the four outcomes of a segment in SYN-SENT, with the exact condition, packet, queue and error of each |
| SegmentLaws.PayloadIsReceivedIff | pkg/protocol/socketHandlers.go:167-178 | a payload is appended to what is buffered, and acknowledged, exactly if the segment is acceptable and heeded and the status is ESTABLISHED, FIN-WAIT-1 or FIN-WAIT-2, or the segment opens the connection |
| SegmentLaws.WindowIsOfNewest | pkg/protocol/socketHandlers.go:225-237 | the send window is that of the last acceptable acknowledgment that is not older, in the order of sequence and acknowledgment number |
| SegmentLaws.FinIsReadAsAByte | pkg/protocol/socketHandlers.go:258-269 | a FIN in its place is acknowledged and makes the old content of a slot count as received |
| SegmentLaws.ReadAfterFin | pkg/protocol/tcb.go:311-334 | a read then returns one byte that was never sent, and leaves a window of 0 |
| SegmentLaws.FinIsCountedIff | pkg/protocol/socketHandlers.go:260-264 | a FIN in its place moves RCV.NXT just behind itself if and only if it has no payload (and is not numbered 2^32 - 1), or two bytes; with n bytes it moves it by 2n - 1 |
| SegmentLaws.FinTakenIff | pkg/protocol/socketHandlers.go:258-290 | over any run from ESTABLISHED, until it is closed, a connection is in CLOSE-WAIT, CLOSING, LAST-ACK or TIME-WAIT if and only if a FIN was taken |
| SegmentLaws.ReceiveClosesIff | pkg/protocol/socketHandlers.go:155-158 | without a reset, a segment closes a connection exactly if it is an acceptable acknowledgment in LAST-ACK |
| SegmentLaws.ClosedThroughLastAck | pkg/protocol/normalsocket.go:179-182 | over any run without timer, reset or a close in SYN-SENT: who is closed was in LAST-ACK and got an acknowledgment there, and went there from CLOSE-WAIT by sending exactly one FIN+ACK |
| Lifecycle.StepFollowsFigure5Iff | pkg/protocol/socketHandlers.go:9-290 | an event moves the status along edges of Figure 5 of RFC 9293 (or to CLOSED) exactly if it is not `VClose` in CLOSING, LAST-ACK or CLOSED; then it raises a rank if it changes the status, and never leaves CLOSED |
| Lifecycle.HandleStatus | pkg/protocol/socketHandlers.go:122-290 | a segment takes at most two edges, and only closing can make or unmake the having sent of a FIN |
| Lifecycle.CloseFollowsFigure5Iff | pkg/protocol/normalsocket.go:166-190 | `VClose` stays on those edges exactly outside CLOSING, LAST-ACK and CLOSED |
| Lifecycle.ChangesAreBounded | pkg/protocol/socketHandlers.go:9-290 | over any run without such a `VClose` a connection changes status at most seven times; a deleted one stays deleted |
| CornerCases.ClosingAgainNeverEnds | pkg/protocol/normalsocket.go:183-186 | with such calls, a run from an opening, without any timer, changes the status any number of times |
| Outstanding.StepKeepsSendOk | pkg/protocol/tcb.go:177-182 | at most 65535 sequence numbers, plus one for a FIN, are ever outstanding |
| Outstanding.HandleSendSide | pkg/protocol/socketHandlers.go:122-256 | a segment leaves the send side alone, or acknowledges and cleans up, or deletes the connection |
| Outstanding.SynSentSendSide | pkg/protocol/socketHandlers.go:56-117 | in SYN-SENT exactly one outcome: nothing, deleted, our SYN acknowledged, or a second entry for it |
| Outstanding.OpeningsRemember | pkg/protocol/listensocket.go:48-61 | both kinds of opening start with their SYN covered |
| Outstanding.QueueNeverForgets | pkg/protocol/retransmitQueue.go:35-70 | over any run with acknowledgments on segment ends, the queue holds every unacknowledged byte, SYN and FIN, with number and contents |
| Outstanding.WriteTurnRemembersIff | pkg/protocol/tcb.go:191-224 | a turn of `VWrite` keeps everything unacknowledged in the queue if and only if it finds the window open |
| CornerCases.ClosedWindowForgets | pkg/protocol/tcb.go:191-224 | a run to a closed window; two bytes written there leave one that is not acknowledged and that nothing holds |
| QueueRuns.OpeningsAreGood | pkg/protocol/listensocket.go:48-61 | both kinds of opening start with a contiguous queue that is not empty |
| QueueRuns.QueueEmptyExactlyWhenAckedIff | pkg/protocol/retransmitQueue.go:57-70 | over any run with acknowledgments on segment ends: the queue is empty exactly when everything is acknowledged, in every state, if and only if each acknowledgment of everything came in time |
| CornerCases.AnAckedEntryStays | pkg/protocol/tcb.go:109-127 | a run from an opening that ends with everything acknowledged and the first segment still in the queue |
| CornerCases.OldestStays | pkg/protocol/retransmitQueue.go:57-70 | over any run, an oldest entry more than 65535 behind stays until SND.UNA is 2^32 ahead of it or the connection is deleted |
| CornerCases.HalfASegmentIsForgotten | pkg/protocol/retransmitQueue.go:57-70 | a run with two bytes written and one acknowledged, after which nothing holds the other |
| Outstanding.ClosingIsSoundOverRuns | pkg/protocol/socketHandlers.go:197-290 | over any run with the bound, no wrap and segments with ACK: FIN-WAIT-1 and CLOSING mean something is outstanding, FIN-WAIT-2 and TIME-WAIT that nothing is |
| Outstanding.FinWait2IsSoundIff | pkg/protocol/socketHandlers.go:244-248 | the acknowledgment of everything leads to a truthful FIN-WAIT-2 exactly under that bound and without the wrap |
| CornerCases.FinWait2TooEarly | pkg/protocol/socketHandlers.go:244-248 | a run from iss 2^32 - 2 that ends in FIN-WAIT-2 with the FIN unacknowledged |
| DataPath.CopyRejected | pkg/protocol/normalsocket.go:359-376 | a retransmitted copy less than 2^32 - 65535 old is never taken for new data, however the numbers wrap |
| DataPath.NewPayloadAccepted | pkg/protocol/normalsocket.go:359-376 | a next payload that fits is accepted unless the window reaches 2^32 |
| DataPath.NewPayloadTakenIff | pkg/protocol/socketHandlers.go:133-178 | over reachable states, a next payload that fits is stored if and only if the window ends below 2^32 and its acknowledgment is not refused |
| DataPath.RefusedMeans | pkg/protocol/socketHandlers.go:238-243 | between honest peers a segment is refused exactly while the send interval wraps and the acknowledgment is new |
| DataPath.StepKeepsInv | pkg/protocol/socketHandlers.go:122-256 | each step of either endpoint keeps the joint invariant of the two streams |
| DataPath.RunKeepsInv | pkg/protocol/socketHandlers.go:122-256 | every reachable state has it |
| DataPath.StreamsAreSafe | pkg/protocol/socketHandlers.go:133-178 | after any run, from any initial sequence numbers: read plus buffered is a prefix of written, acknowledgments in flight are for bytes received, SND.UNA <= RCV.NXT <= SND.NXT, in both directions |
| DataPath.RunReadsEverything | pkg/protocol/tcb.go:311-334 | after any run, a read of at least 65535 bytes makes what was read exactly the first RCV.NXT - 1 bytes the peer wrote, and the window 65535; all it wrote, if everything has arrived at an endpoint that is not stuck |
| DataPath.StallIsForGood | pkg/protocol/socketHandlers.go:183-192 | over any run, once its window reaches 2^32 or it refuses all acknowledgments, an endpoint never receives another byte |
| DataPath.StartIsStuckIff | pkg/protocol/normalsocket.go:359-376 | from the start an endpoint is stuck exactly if the window behind the peer's SYN reaches 2^32 |
| DataPath.StuckStartReceivesNothing | pkg/protocol/normalsocket.go:359-376 | then RCV.NXT is 1 after every run |
| DataPath.DeafIsReachable | pkg/protocol/socketHandlers.go:238-243 | a run after which an endpoint refuses all acknowledgments though its window is below 2^32 |
| DataPath.ClosedTurnShiftsStream | pkg/protocol/socketHandlers.go:174-176 | a turn that found the window closed is stored as the next stretch; the stream is still a prefix if and only if all bytes of the turn are equal |
| DataPath.TimerSendsACopy | pkg/protocol/normalsocket.go:241-248 | what the retransmission timer sends is such a copy |
| Handshake.SynSentOut | pkg/protocol/socketHandlers.go:56-117 | against a listener the client stays, is deleted, or becomes established with both numbers right |
| Handshake.SynRecvStep | pkg/protocol/socketHandlers.go:142-166 | SYN-RECEIVED is left for established by exactly the acceptable segments that acknowledge from SND.UNA to SND.NXT; SND.UNA moves only if it is SND.NXT |
| Handshake.StepKeepsInv | pkg/protocol/socketHandlers.go:9-166 | each step of client, server or listener, accepting again included, keeps what both know of each other |
| Handshake.RunKeepsInv | pkg/utils/utils.go:242-247 | every reachable state has it, whatever is lost, duplicated, reordered, written, closed, timed out or accepted again |
| Handshake.HandshakeAgreement | pkg/protocol/socketHandlers.go:142-166 | if the passive side has been established, so has the client; each side's irs is the other's iss; SND.UNA and RCV.NXT are at least 1 on both: over any run that replaces only connections that sent nothing but their SYN, by numbers not one more than a former one |
| Handshake.AgreementUnlessStale | pkg/protocol/socketHandlers.go:142-166 | the same over any run at all in which no stale acknowledgment is about while the server is in SYN-RECEIVED |
| Handshake.StepDisagreesIff | pkg/protocol/socketHandlers.go:143-148 | in SYN-RECEIVED, a segment breaks the agreement if and only if it is acceptable and its acknowledgment is stale |
| Handshake.SecondAcceptIff | pkg/utils/utils.go:242-247 | after a first connection that sent nothing but its SYN, some run disagrees if and only if the second number is one more, as plain words, and the window behind the client's SYN ends below 2^32 |
| Handshake.StaleAckRun | pkg/protocol/listensocket.go:65-74 | that run: accepted, timed out, accepted again, and the old acknowledgment arrives |
| Handshake.HopelessRunsAgree | pkg/protocol/normalsocket.go:359-376 | without that window nobody on the passive side is ever established |
| Handshake.ClientEstablishesIff | pkg/protocol/socketHandlers.go:62-66 | the right SYN+ACK establishes the client exactly if its iss is not 2^32 - 1; otherwise the client resets it and reports an error |
| Handshake.ServerEstablishesIff | pkg/protocol/socketHandlers.go:133-148 | the right acknowledgment establishes the server exactly if the window that starts behind the client's SYN ends below 2^32 and the server's own SYN is not numbered 2^32 - 1 |
| Handshake.OpeningCompletesIff | pkg/protocol/listensocket.go:48-75 | an opening in which nothing is lost establishes both sides exactly for those initial sequence numbers |
| Openings.OpenedIsStart | pkg/protocol/listensocket.go:48-75 | a completed opening is a start of the data path |
| Openings.OpenedStreamsAreSafe | pkg/protocol/socketHandlers.go:133-178 | from an opening on, both streams are safe over every run |
| Openings.OpenedIsStuckIff | pkg/protocol/normalsocket.go:359-376 | a completed opening leaves the client stuck if and only if the window behind the server's SYN reaches 2^32, and never the server |
| Openings.StuckOpeningReceivesNothing | pkg/protocol/normalsocket.go:359-376 | then the client receives nothing over every run |
| RipWire.Marshal | pkg/rip-headers/ripheader.go:45-79 | succeeds exactly on valid commands and counts, with the big-endian encoding; which error otherwise |
| RipWire.Parse | pkg/rip-headers/ripheader.go:81-120 | exactly when it returns a header (four bytes of contents, and cells that start with the encoding of a consistent header), each error, or panics |
| RipWire.ParseEntries | pkg/rip-headers/ripheader.go:97-119 | the entry loop: panics exactly when the cells are too few, fails on more than 64, else returns the one header encoded |
| RipWire.EntriesAreContentsIff | pkg/rip-headers/ripheader.go:98-104 | what is parsed depends on the contents alone exactly when they are as long as the header says |
| RipWire.EmptyResponseParses | pkg/protocol/protocol.go:155-173 | four bytes that claim one entry parse to one of zeros in a receive buffer |
| RipWire.LongResponsePanics | pkg/protocol/protocol.go:155-173 | four bytes that claim 65535 entries panic in it |
| RipWire.EncodingIsInjective | pkg/rip-headers/ripheader.go:45-120 | no buffer starts with the encodings of two consistent headers |
| RipWire.WireLayout | pkg/rip-headers/ripheader.go:64-79 | entry i is at byte 4 + 12 i: cost, address and mask, in that order |
| RipWire.EncodingOfOneRoute | pkg/rip-headers/ripheader.go:45-79 | the sixteen bytes of a response with 10.1.2.0/24 at cost 7 |
| RipWire.MaskIsLeadingOnes | pkg/rip-headers/ripheader.go:135-137 | the shifted word is n leading ones, for 0..32 |
| RipWire.MaskRoundTrip | pkg/rip-headers/ripheader.go:130-137 | counting the ones gives n back, for 0..32 |
| RipWire.PrefixRoundTrip | pkg/protocol/rip.go:20-34 | a prefix survives being sent as address and mask |
| RipRouter.Device.ProcessEntry | pkg/protocol/rip.go:36-69 | the update rule on one entry, on the table and on what is to be announced |
| RipRouter.Device.ProcessResponse | pkg/protocol/rip.go:18-70 | the entry loop applies it to each entry in turn |
| RipRouter.Device.RipHandler | pkg/protocol/rip.go:11-82 | panics exactly when the parser does; what does not parse changes nothing; each entry mentioned once has the effect of `RouteFollowsResponse`, and if it changes, every neighbour is told the new cost, 16 for a route that is gone or goes via itself; a request is answered with the whole table |
| RipRouter.Device.AddNeighbourIfStale | pkg/protocol/protocol.go:416-430 | a sender that is no neighbour is appended to them; otherwise nothing changes |
| RipRouter.Device.CreateRipResponse | pkg/protocol/rip.go:84-107 | one entry for each route, with 16 exactly where the next hop is the addressee, in any order |
| RipRouter.Device.SendRip | pkg/protocol/rip.go:124-144 | sends that, and nothing if the table is empty or has more than 64 entries, even where the 16-bit count wraps |
| RipRouter.Device.SendToAll | pkg/protocol/rip.go:71-76 | one such packet for each neighbour in turn |
| RipRouter.Device.CollectRoutes | pkg/protocol/protocol.go:387-396 | the keys learned from a neighbour, and the table with those at 16 |
| RipRouter.Device.DeleteRoutes | pkg/protocol/protocol.go:398-400 | deletes exactly the keys given |
| RipRouter.Device.Timeout | pkg/protocol/protocol.go:364-409 | a silent neighbour goes, exactly the routes via it go, and every other neighbour is told all routes, those at 16; an unknown one changes nothing |
| RipRouter.Remove | pkg/protocol/protocol.go:411-414 | removes one occurrence and keeps all others |
| RipRouter.MentionedOnce | pkg/protocol/rip.go:20-69 | a prefix mentioned once in a response, whatever else it mentions, is treated by that entry alone |
| RipRouter.RouteFollowsResponse | pkg/protocol/rip.go:36-69 | an entry via the sender follows its cost, rises included, and is gone at 15 or more; one via another router changes only to a strictly lower cost; exactly the changes are announced, a deletion with 16 |
| RipRouter.FarewellTells | pkg/protocol/protocol.go:387-403 | what another neighbour rebuilds after a timeout has 16 exactly at the routes via the silent neighbour, or via itself, and the old cost elsewhere |
| RipRouter.OrderIsIrrelevant | pkg/protocol/rip.go:20-69 | the order of the entries of a response has no effect |
| RipRouter.AdvertisementRoundTrip | pkg/protocol/rip.go:84-107 | for at most 64 routes, what the addressee rebuilds from the bytes is the table, with 16 exactly where it is itself the next hop |
| RipRouter.EmptyResponseAddsDefaultRoute | pkg/protocol/rip.go:36-49 | the empty response that claims one entry adds a default route at cost 1 |
| RipNetwork.WithinIsWalk | pkg/protocol/rip.go:36-69 | the distance that costs are judged by is the length of a shortest walk |
| RipNetwork.SendingsAreAnnounced | pkg/protocol/rip.go:109-144 | what one router hands over is what the network model lets it announce |
| RipNetwork.ResponseKeepsTableOk | pkg/protocol/rip.go:18-70 | own prefixes keep cost 0, learned costs lie in 1..15, via a current adjacent neighbour, at least 1 + its distance |
| RipNetwork.TimeoutIsSafe | pkg/protocol/protocol.go:364-409 | purging a neighbour keeps all that |
| RipNetwork.StepIsSafe | pkg/protocol/rip.go:11-144 | so does every step of the network, and no packet carries a cost below the distance |
| RipNetwork.RunIsSafe | pkg/protocol/protocol.go:88-109 | every reachable state is safe, whatever is lost, duplicated, reordered or timed out |
| RipNetwork.CostsAreNotBelowDistance | pkg/protocol/rip.go:36-69 | no cost is below the distance, none via h below 1 + h's distance, and nothing 16 or more hops away is in a table |
| RipConvergence.RightEntryIsKept | pkg/protocol/rip.go:51-68 | no advertisement, late or poisoned, changes a right entry |
| RipConvergence.RightCostsAreLearned | pkg/protocol/rip.go:44-60 | one right advertisement from one hop closer makes the entry right, whatever else the packet says |
| RipConvergence.OwnerIsNotAddressee | pkg/protocol/rip.go:94-97 | poisoned reverse never hides a right cost from a router that needs it |
| RipConvergence.StepKeepsExact | pkg/protocol/rip.go:11-144 | routers right about a prefix within k hops stay so under every step but a timeout |
| RipConvergence.AdvertiseServes | pkg/protocol/rip.go:109-144 | an advertisement of a table that fits puts the right cost on its way over the link |
| RipConvergence.RoundAdvances | pkg/protocol/rip.go:109-122 | a round makes the routers one hop further away right too, if each is on the list of a router at distance k whose table fits |
| RipConvergence.Converges | pkg/protocol/rip.go:19-69 | from any reachable drained state, k <= 15 rounds, handled in any order, give exact distances within k hops via a router one hop closer, under that condition |
| RipConvergence.FifteenRoundsConverge | pkg/protocol/rip.go:19-69 | after fifteen rounds the tables hold exactly the prefixes at most 15 hops away |
| RipRounds.RoundsExist | pkg/protocol/rip.go:109-122 | from any safe drained state, any number of rounds can follow |
| RipRounds.ConvergenceIsReachable | pkg/protocol/rip.go:109-122 | from the initial tables, fifteen rounds reach converged tables under that condition |
| RipLimits.OversizeLeavesWrong | pkg/rip-headers/ripheader.go:55-57 | where a router has nobody one hop closer whose table fits, one timeout and one round from a state in which all is right leave it wrong |
| RipLimits.RoundsAdvanceIff | pkg/rip-headers/ripheader.go:55-57 | from every reachable drained state right within k hops, every round makes the routers k + 1 hops away right, if and only if each has an adjacent router at distance k whose table fits |
| RipLimits.LargeTablesNeverSpread | pkg/rip-headers/ripheader.go:55-57 | if every router is attached to more than 64 prefixes, no run teaches anybody anything |
| RipLists.StrangersForGood | pkg/protocol/protocol.go:416-430 | two routers neither of which lists the other, with nothing in flight between them, stay so over every run |
| RipLists.TwoTimeoutsEstrange | pkg/protocol/protocol.go:374-385 | a timeout at each end leads there |
| RipLists.CutOffNeverRight | pkg/protocol/rip.go:36-69 | a router that is a stranger to everybody one hop closer is wrong after every run |
| RipLists.RoundIntroduces | pkg/protocol/protocol.go:416-430 | whoever is on the list of a router when a round starts has it on its own list at the end, if tables fit |
| RipLists.ListedLinksBridge | pkg/protocol/rip.go:109-122 | it is enough that each link is on the list of one of its ends |
| RipLists.AcquaintedConverges | pkg/protocol/rip.go:109-122 | one round among acquaintances and k further ones give exact tables within k hops |
| RipLists.ListsDecide | pkg/protocol/rip.go:109-122 | in a network whose tables fit, sixteen rounds from a reachable drained state converge if and only if everybody is acquainted with a router one hop closer to each prefix |
| RipLists.TwoRoutersNeverConvergeAgain | pkg/protocol/protocol.go:364-409 | two routers with one link: a run of two timeouts after which no run converges |
| Forwarding.GetDstPrefix | pkg/protocol/protocol.go:302-314 | finds a prefix exactly if some entry contains the address; it is the mask of every longest match, whatever the order of the map |
| Forwarding.LongestMatchIsUnique | pkg/protocol/protocol.go:302-314 | all longest matches are the same once masked |
| Forwarding.ContainsIsRange | pkg/protocol/protocol.go:302-314 | a prefix contains exactly the block of addresses from its masked address on, as long as the complement of its mask |
| Forwarding.FindIp | pkg/protocol/protocol.go:210-242 | no route exactly if nothing matches; a longest match of positive cost, or for everything, leads to the first neighbour with its hop address, one of cost 0 to the first with the destination address, also where the table has unmasked keys |
| Forwarding.FindNeighbour | pkg/protocol/protocol.go:228-239 | the first neighbour with the address decides; none without an interface name |
| Forwarding.HostLookup | pkg/protocol/protocol.go:210-242 | a host with prefixes of its own and a default route finds the first neighbour with the address of the destination inside its prefixes, and of its gateway for every other |
| Forwarding.LookupFollowsTable | pkg/protocol/protocol.go:210-242 | over converged tables `findIp` returns the port of the next hop while the cost is positive, and of the destination itself at an attached router |
| Forwarding.HopDecreasesCost | pkg/protocol/protocol.go:221-226 | a hop that `findIp` chooses lowers the cost by one, or at cost 0 reaches the owner of the address |
| Forwarding.RoutesAreShort | pkg/protocol/protocol.go:316-327 | no loops: following `findIp` takes at most the first router's cost in hops to an attached router, and one more to the destination |
| Forwarding.ForwardingDelivers | pkg/protocol/protocol.go:316-327 | from every router that knows the prefix, following `findIp` reaches an attached router in exactly the table's cost, and from there the destination if it is a neighbour |
| Forwarding.HostDelivers | pkg/protocol/protocol.go:107-109 | from such a host, a packet for elsewhere goes to the gateway, and from there to a router attached to the prefix in exactly the cost of the gateway's table |
| SocketIds.SocketIds.Update | pkg/utils/utils.go:475-524 | after a refresh the two maps are mutual inverses over exactly the live sockets, and survivors keep their ids |
| SocketIds.SocketIds.KeepLive | pkg/utils/utils.go:486-502 | the first loop keeps the live sockets with their ids |
| SocketIds.SocketIds.AddNew | pkg/utils/utils.go:504-521 | the second loop gives every other live socket an id and changes none |
| SocketIds.SocketIds.AddWithFreeId | pkg/utils/utils.go:513-520 | the search ends, at the first free id not below the running count |
| SocketIds.IdsAreStable | pkg/utils/utils.go:475-524 | over any number of refreshes a socket that stays alive keeps its id, and no other socket gets it |

## Left out

- DataPath.StreamsAreSafe: assumes a channel that keeps the order of new payloads and delivers one only if it fits the receive window (the code appends an in-window payload at RCV.NXT whatever its number), copies less than 2^32 - 65535 old, no FIN (which moves RCV.NXT without storing a byte), and writes that find the send window open (`ClosedTurnShiftsStream` says what happens otherwise).
- DataPath.StepKeepsInv: under the same assumptions, as are `RunKeepsInv` and `Openings.OpenedStreamsAreSafe`.
- SegmentLaws.FinTakenIff: `VClose` is not called again on a connection that is already closing (`ClosingAgainNeverEnds`), and writes find the send window open; so for `ClosedThroughLastAck`.
- DataPath.CopyRejected: a copy more than 2^32 - 65535 sequence numbers old is not covered.
- Outstanding.QueueNeverForgets: assumes acknowledgments on segment ends and writes that find the send window open; `RetransmitQueue.PartialAckForgets` and `WriteTurnRemembersIff` say what happens otherwise.
- QueueRuns.QueueEmptyExactlyWhenAckedIff: under the same assumptions.
- Tcb.BuffersAreFifo: a peer acknowledges only what was transmitted.
- Connection.VTcpConn.VWrite: the peer acknowledges only what was sent (`Interference`, `WaitForSpace`), and the window is found closed only finitely often in one call (`patience`). The probe packets themselves are not modelled. Send errors of the IP layer are losses.
- Handshake.HandshakeAgreement: replaced connections had sent nothing but their SYN, and new numbers are fresh; `AgreementUnlessStale` and `StepDisagreesIff` cover the rest. One client, with one port.
- RetransmitQueue.PartialAckForgets: for a queue that is contiguous as a whole and shorter than 2^32.
- Outstanding.StepKeepsSendOk: `VClose` is called outside LISTEN, FIN-WAIT-1, CLOSING, LAST-ACK and CLOSED; the code would send another FIN there, for which the bound has no room.
- RipConvergence.Converges: no timeout, loss or static route during the rounds; announcements of changes may be lost.
- RipLimits.RoundsAdvanceIff: is about one round at a time; it does not say whether further rounds repair what one leaves wrong.
- Forwarding.ForwardingDelivers: assumes masked, disjoint prefixes, addresses that lie in a prefix of their router, link partners configured behind the right ports, and converged tables.
- Pointers wrap at 2^64 in the code and never here; a payload is shorter than 65536 bytes, so its length is not truncated.
- Probes of a closed window on the wire, and retransmission as recovery from loss: the code resends only the newest entry.
- Timers, their durations and the round-trip estimate: a timeout is a step that may happen at any time.
- Channels, mutexes, goroutines and deadlock: a wait is a guard, a handler call one step.
- UDP sockets, IPv4 headers, TTL and checksums: input, output and packages that are not part of this model.
- Addresses of a host with several interfaces as keys of the connection table: a connection is registered or not.
- Routers with static routes (lookups in them are covered by `FindIp`, a host's default route by `HostDelivers`), and the loopback of packets to an own address.
- Sending and receiving urgent data, options and congestion control: not implemented by the code.
- Configuration files, the command line and printing: text handling.
- `isAckCorrectBound`, `ackedBytesMap`, `Less` and `Swap`: unused by the code.
