/**
 The transmission control block: two ring buffers of 65536 slots addressed by unbounded pointers.

 `TcbState` and the functions on it say what each operation does to the state as a value. The class `TCB`
 performs the same operations in place, slot by slot, and is proved to agree with them. The theorems are about
 the values: the buffers refine first-in first-out byte queues.
 */
module Tcb {
  import opened Words
  import opened Sequence

  const SLOTS: int := TCB_SIZE + 1

  datatype TcbState = TcbState(
    iss: uint32, irs: uint32,
    sendBuf: seq<byte>, sendUna: nat, sendNxt: nat, sendLbr: nat,
    sendWnd: uint16, sendWl1: uint32, sendWl2: uint32,
    rcvBuf: seq<byte>, rcvNxt: nat, rcvWnd: uint16, rcvLbr: nat)
  {
    predicate Shaped() {
      && |sendBuf| == SLOTS && sendLbr <= sendNxt
      && |rcvBuf| == SLOTS && rcvLbr <= rcvNxt
    }

    /** Written by the application and not yet cut into segments. */
    function Pending(): seq<byte>
      requires Shaped()
    {
      Window(sendBuf, sendLbr, sendNxt)
    }

    /** Received in order and not yet read by the application. */
    function Buffered(): seq<byte>
      requires Shaped()
    {
      Window(rcvBuf, rcvLbr, rcvNxt)
    }

    function WrappedUna(): uint32 { Wrap(iss, sendUna) }

    function WrappedSendNxt(): uint32 { Wrap(iss, sendNxt) }

    function WrappedRcvNxt(): uint32 { Wrap(irs, rcvNxt) }
  }

  /** The bytes that a ring buffer holds for the pointers lo, lo + 1, .., hi - 1. */
  function Window(buf: seq<byte>, lo: nat, hi: nat): (w: seq<byte>)
    requires |buf| == SLOTS && lo <= hi
    ensures |w| == hi - lo
  {
    seq(hi - lo, i requires 0 <= i < hi - lo => buf[(lo + i) % SLOTS])
  }

  /** `payload` written at consecutive slots from the slot of pointer `at`. */
  function Store(buf: seq<byte>, at: nat, payload: seq<byte>): (stored: seq<byte>)
    requires |buf| == SLOTS
    ensures |stored| == SLOTS
  {
    if payload == [] then buf
    else
      var last := |payload| - 1;
      Store(buf, at, payload[..last])[(at + last) % SLOTS := payload[last]]
  }

  function Min(a: nat, b: nat): nat {
    if a < b then a else b
  }

  function SendCapacity(t: TcbState): uint16 {
    TCB_SIZE - WrappedDist(t.sendNxt % TWO32, t.sendUna % TWO32)
  }

  function AddSend(t: TcbState, payload: seq<byte>): TcbState
    requires t.Shaped()
  {
    t.(sendBuf := Store(t.sendBuf, t.sendNxt, payload), sendNxt := t.sendNxt + |payload|)
  }

  function ReadSend(t: TcbState, count: nat): (r: (TcbState, seq<byte>))
    requires t.Shaped()
  {
    var dist := Min(Min(t.sendNxt - t.sendLbr, MSS), count);
    (t.(sendLbr := t.sendLbr + dist), Window(t.sendBuf, t.sendLbr, t.sendLbr + dist))
  }

  function AddRead(t: TcbState, payload: seq<byte>): TcbState
    requires t.Shaped() && |payload| <= t.rcvWnd
  {
    t.(rcvBuf := Store(t.rcvBuf, t.rcvNxt, payload), rcvNxt := t.rcvNxt + |payload|, rcvWnd := t.rcvWnd - |payload|)
  }

  /** The indexing of the source drops whole turns of the ring, and the window is a 16-bit counter. */
  function ReadRecv(t: TcbState, count: nat): (r: (TcbState, seq<byte>))
    requires t.Shaped()
  {
    var dist := Min(t.rcvNxt - t.rcvLbr, count) % SLOTS;
    (t.(rcvLbr := t.rcvLbr + dist, rcvWnd := (t.rcvWnd + dist) % 0x1_0000),
     Window(t.rcvBuf, t.rcvLbr, t.rcvLbr + dist))
  }

  // ---------------------------------------------------------------------------------------------------
  // Ring-buffer lemmas
  // ---------------------------------------------------------------------------------------------------

  lemma SlotsDistinct(i: nat, j: nat)
    requires i < j < i + SLOTS
    ensures i % SLOTS != j % SLOTS
  {
    var q := i / SLOTS;
    assert j == q * SLOTS + (i % SLOTS + (j - i));
    assert j % SLOTS == (i % SLOTS + (j - i)) % SLOTS;
  }

  /** Storing after the end of a window extends it, as long as no more than all the slots are used. */
  lemma {:induction false} StoreExtendsWindow(buf: seq<byte>, lo: nat, at: nat, payload: seq<byte>)
    requires |buf| == SLOTS && lo <= at && at + |payload| - lo <= SLOTS
    ensures Window(Store(buf, at, payload), lo, at + |payload|) == Window(buf, lo, at) + payload
  {
    if payload != [] {
      var last := |payload| - 1;
      var init := payload[..last];
      StoreExtendsWindow(buf, lo, at, init);
      var before := Store(buf, at, init);
      var after := Store(buf, at, payload);
      var wBefore, wAfter := Window(before, lo, at + last), Window(after, lo, at + |payload|);
      forall i | 0 <= i < at + last - lo
        ensures wAfter[i] == wBefore[i]
      {
        SlotsDistinct(lo + i, at + last);
      }
      assert wAfter == wBefore + [payload[last]];
      assert init + [payload[last]] == payload;
    } else {
      assert Window(buf, lo, at) + payload == Window(buf, lo, at);
    }
  }

  lemma StoreOneMore(buf: seq<byte>, at: nat, payload: seq<byte>, i: nat)
    requires |buf| == SLOTS && i < |payload|
    ensures Store(buf, at, payload[..i + 1]) == Store(buf, at, payload[..i])[(at + i) % SLOTS := payload[i]]
    ensures ((at + i) % SLOTS + 1) % SLOTS == (at + i + 1) % SLOTS
  {
    assert payload[..i + 1][..i] == payload[..i];
    NextSlot(at + i);
  }

  lemma NextSlot(pointer: nat)
    ensures (pointer % SLOTS + 1) % SLOTS == (pointer + 1) % SLOTS
  {
    IndexOfSum(pointer, 1);
  }

  lemma StoreNothing(buf: seq<byte>, at: nat, payload: seq<byte>)
    requires |buf| == SLOTS
    ensures payload[..0] == [] && Store(buf, at, []) == buf
    ensures payload[..|payload|] == payload
  {
  }

  lemma WindowSplit(buf: seq<byte>, lo: nat, mid: nat, hi: nat)
    requires |buf| == SLOTS && lo <= mid <= hi
    ensures Window(buf, lo, hi) == Window(buf, lo, mid) + Window(buf, mid, hi)
    ensures Window(buf, lo, mid) == Window(buf, lo, hi)[..mid - lo]
    ensures Window(buf, mid, hi) == Window(buf, lo, hi)[mid - lo..]
  {
  }

  /** The two-slice copy of the source is the window, less whole turns of the ring. */
  lemma SlicesAreWindow(buf: seq<byte>, lo: nat, n: nat)
    requires |buf| == SLOTS
    ensures var first, last := lo % SLOTS, (lo + n) % SLOTS;
            (if first > last then buf[first..] + buf[..last] else buf[first..last])
            == Window(buf, lo, lo + n % SLOTS)
  {
    var first, last := lo % SLOTS, (lo + n) % SLOTS;
    var len := n % SLOTS;
    IndexOfSum(lo, n);
    var slices := if first > last then buf[first..] + buf[..last] else buf[first..last];
    assert |slices| == len;
    forall i | 0 <= i < len
      ensures slices[i] == Window(buf, lo, lo + len)[i]
    {
      IndexOfSum(lo, i);
      SliceAt(buf, first, last, i);
    }
  }

  lemma SliceAt(buf: seq<byte>, first: nat, last: nat, i: nat)
    requires |buf| == SLOTS && first < SLOTS && last < SLOTS
    requires i < if first > last then SLOTS - first + last else last - first
    ensures (if first > last then buf[first..] + buf[..last] else buf[first..last])[i]
            == buf[if first + i < SLOTS then first + i else first + i - SLOTS]
  {
  }

  lemma IndexOfSum(lo: nat, n: nat)
    ensures (lo + n) % SLOTS
            == if lo % SLOTS + n % SLOTS < SLOTS then lo % SLOTS + n % SLOTS else lo % SLOTS + n % SLOTS - SLOTS
  {
    var q, r := lo / SLOTS, n / SLOTS;
    assert lo + n == (q + r) * SLOTS + (lo % SLOTS + n % SLOTS);
  }

  // ---------------------------------------------------------------------------------------------------
  // Send capacity
  // ---------------------------------------------------------------------------------------------------

  /**
   The capacity never exceeds the free space, so waiting for it before an add keeps at most 65535 bytes
   outstanding. It is exact unless the pointers straddle a multiple of 2^32, where it says 0.
   */
  lemma CapacityIsSound(t: TcbState)
    requires t.sendUna <= t.sendNxt <= t.sendUna + TCB_SIZE
    ensures SendCapacity(t) <= TCB_SIZE - (t.sendNxt - t.sendUna)
    ensures SendCapacity(t) == TCB_SIZE - (t.sendNxt - t.sendUna)
            <==> (t.sendUna % TWO32 <= t.sendNxt % TWO32 || t.sendNxt - t.sendUna == TCB_SIZE)
    ensures t.sendUna % TWO32 > t.sendNxt % TWO32 ==> SendCapacity(t) == 0
  {
    AheadOfPointers(0, t.sendUna, t.sendNxt);
    assert Wrap(0, t.sendUna) == t.sendUna % TWO32;
    assert Wrap(0, t.sendNxt) == t.sendNxt % TWO32;
  }

  // ---------------------------------------------------------------------------------------------------
  // The buffers refine first-in first-out queues
  // ---------------------------------------------------------------------------------------------------

  /** The send side before a FIN: acknowledged <= transmitted <= written, at most 65535 outstanding. */
  predicate SendSideOk(t: TcbState) {
    t.Shaped() && t.sendUna <= t.sendLbr && t.sendNxt <= t.sendUna + TCB_SIZE
  }

  /** The receive side before a FIN: a slot is either readable or advertised. */
  predicate ReceiveSideOk(t: TcbState) {
    t.Shaped() && t.rcvNxt - t.rcvLbr + t.rcvWnd == TCB_SIZE
  }

  datatype BufferOp =
    | OpAddSend(payload: seq<byte>)
    | OpReadSend(count: nat)
    | OpAcked(una: nat)
    | OpAddRead(payload: seq<byte>)
    | OpReadRecv(count: nat)

  /** The wait loops of the two controllers, as guards; a peer acknowledges only what was transmitted. */
  predicate Enabled(t: TcbState, op: BufferOp)
  {
    match op
    case OpAddSend(payload) => |payload| <= SendCapacity(t)
    case OpReadSend(_) => true
    case OpAcked(una) => t.sendUna <= una <= t.sendLbr
    case OpAddRead(payload) => |payload| <= t.rcvWnd
    case OpReadRecv(_) => t.rcvWnd != TCB_SIZE
  }

  /** What went in and came out of each buffer so far. */
  datatype Log = Log(sendIn: seq<byte>, sendOut: seq<byte>, rcvIn: seq<byte>, rcvOut: seq<byte>)

  function Apply(t: TcbState, log: Log, op: BufferOp): (TcbState, Log)
    requires t.Shaped() && Enabled(t, op)
  {
    match op
    case OpAddSend(payload) => (AddSend(t, payload), log.(sendIn := log.sendIn + payload))
    case OpReadSend(count) =>
      var (t', data) := ReadSend(t, count);
      (t', log.(sendOut := log.sendOut + data))
    case OpAcked(una) => (t.(sendUna := una), log)
    case OpAddRead(payload) => (AddRead(t, payload), log.(rcvIn := log.rcvIn + payload))
    case OpReadRecv(count) =>
      var (t', data) := ReadRecv(t, count);
      (t', log.(rcvOut := log.rcvOut + data))
  }

  /** Pointer of the oldest byte of data that is not acknowledged; the SYN at pointer 0 has no slot. */
  function OldestData(t: TcbState): nat {
    if t.sendUna == 0 then 1 else t.sendUna
  }

  /**
   Nothing lost, reordered, duplicated or overwritten: what went into a buffer is what came out followed by
   what it holds, and the send buffer still holds every byte that is not acknowledged.
   */
  predicate Refines(t: TcbState, log: Log) {
    && SendSideOk(t) && ReceiveSideOk(t)
    && t.sendNxt == |log.sendIn| + 1
    && 1 <= t.sendLbr
    && log.sendIn == log.sendOut + t.Pending()
    && log.rcvIn == log.rcvOut + t.Buffered()
    && Window(t.sendBuf, OldestData(t), t.sendNxt) == log.sendIn[OldestData(t) - 1..]
  }

  lemma AddSendRefines(t: TcbState, log: Log, payload: seq<byte>)
    requires Refines(t, log) && Enabled(t, OpAddSend(payload))
    ensures Refines(AddSend(t, payload), log.(sendIn := log.sendIn + payload))
  {
    hide Store, Window, SendCapacity;
    CapacityIsSound(t);
    StoreExtendsWindow(t.sendBuf, t.sendLbr, t.sendNxt, payload);
    StoreExtendsWindow(t.sendBuf, OldestData(t), t.sendNxt, payload);
    assert log.sendIn + payload == log.sendOut + (t.Pending() + payload);
    assert (log.sendIn + payload)[OldestData(t) - 1..] == log.sendIn[OldestData(t) - 1..] + payload;
  }

  lemma ReadSendRefines(t: TcbState, log: Log, count: nat)
    requires Refines(t, log)
    ensures var (t', data) := ReadSend(t, count); Refines(t', log.(sendOut := log.sendOut + data))
  {
    var (t', data) := ReadSend(t, count);
    WindowSplit(t.sendBuf, t.sendLbr, t'.sendLbr, t.sendNxt);
    assert log.sendIn == (log.sendOut + data) + t'.Pending();
    assert t'.Buffered() == t.Buffered();
  }

  lemma AckedRefines(t: TcbState, log: Log, una: nat)
    requires Refines(t, log) && Enabled(t, OpAcked(una))
    ensures Refines(t.(sendUna := una), log)
  {
    var t' := t.(sendUna := una);
    WindowSplit(t.sendBuf, OldestData(t), OldestData(t'), t.sendNxt);
    assert t'.Pending() == t.Pending() && t'.Buffered() == t.Buffered();
  }

  lemma AddReadRefines(t: TcbState, log: Log, payload: seq<byte>)
    requires Refines(t, log) && Enabled(t, OpAddRead(payload))
    ensures Refines(AddRead(t, payload), log.(rcvIn := log.rcvIn + payload))
  {
    var t' := AddRead(t, payload);
    StoreExtendsWindow(t.rcvBuf, t.rcvLbr, t.rcvNxt, payload);
    assert log.rcvIn + payload == log.rcvOut + (t.Buffered() + payload);
    assert t'.Pending() == t.Pending();
  }

  lemma ReadRecvRefines(t: TcbState, log: Log, count: nat)
    requires Refines(t, log)
    ensures var (t', data) := ReadRecv(t, count); Refines(t', log.(rcvOut := log.rcvOut + data))
  {
    var (t', data) := ReadRecv(t, count);
    WindowSplit(t.rcvBuf, t.rcvLbr, t'.rcvLbr, t.rcvNxt);
    assert log.rcvIn == (log.rcvOut + data) + t'.Buffered();
    assert t'.Pending() == t.Pending();
  }

  lemma StepRefines(t: TcbState, log: Log, op: BufferOp)
    requires Refines(t, log) && Enabled(t, op)
    ensures var (t', log') := Apply(t, log, op); Refines(t', log')
  {
    match op
    case OpAddSend(payload) => AddSendRefines(t, log, payload);
    case OpReadSend(count) => ReadSendRefines(t, log, count);
    case OpAcked(una) => AckedRefines(t, log, una);
    case OpAddRead(payload) => AddReadRefines(t, log, payload);
    case OpReadRecv(count) => ReadRecvRefines(t, log, count);
  }

  predicate RunEnabled(t: TcbState, log: Log, ops: seq<BufferOp>)
    requires t.Shaped()
    decreases |ops|
  {
    ops == [] || (Enabled(t, ops[0]) && var (t', log') := Apply(t, log, ops[0]); RunEnabled(t', log', ops[1..]))
  }

  function Run(t: TcbState, log: Log, ops: seq<BufferOp>): (TcbState, Log)
    requires t.Shaped() && RunEnabled(t, log, ops)
    decreases |ops|
  {
    if ops == [] then (t, log) else var (t', log') := Apply(t, log, ops[0]); Run(t', log', ops[1..])
  }

  /** Every interleaving of adds, reads and acknowledgments, of any length, from any state that refines. */
  lemma {:induction false} RunRefines(t: TcbState, log: Log, ops: seq<BufferOp>)
    requires Refines(t, log) && RunEnabled(t, log, ops)
    ensures var (t', log') := Run(t, log, ops); Refines(t', log')
    decreases |ops|
  {
    if ops != [] {
      StepRefines(t, log, ops[0]);
      var (t', log') := Apply(t, log, ops[0]);
      RunRefines(t', log', ops[1..]);
    }
  }

  /** createTCB followed by the SYN that sets the receive pointers. */
  function Opened(iss: uint32, irs: uint32, buf: seq<byte>): TcbState {
    TcbState(iss, irs, buf, 0, 1, 1, 0, 0, 0, buf, 1, TCB_SIZE, 1)
  }

  /** From a fresh connection, over any run: the bytes read are a prefix of the bytes added, on both sides. */
  lemma BuffersAreFifo(iss: uint32, irs: uint32, buf: seq<byte>, ops: seq<BufferOp>)
    requires |buf| == SLOTS && RunEnabled(Opened(iss, irs, buf), Log([], [], [], []), ops)
    ensures var (t, log) := Run(Opened(iss, irs, buf), Log([], [], [], []), ops);
            && t.Shaped()
            && log.sendOut <= log.sendIn && log.sendIn == log.sendOut + t.Pending()
            && log.rcvOut <= log.rcvIn && log.rcvIn == log.rcvOut + t.Buffered()
            && t.rcvNxt - t.rcvLbr + t.rcvWnd == TCB_SIZE
            && t.sendNxt - t.sendUna <= TCB_SIZE
  {
    RunRefines(Opened(iss, irs, buf), Log([], [], [], []), ops);
  }

  // ---------------------------------------------------------------------------------------------------
  // What a read returns
  // ---------------------------------------------------------------------------------------------------

  /** A read returns the oldest bytes received, as many as asked for and there are, and gives their slots back. */
  lemma ReadIsFront(t: TcbState, count: nat)
    requires t.Shaped() && (count < SLOTS || t.rcvNxt - t.rcvLbr < SLOTS)
    ensures var b := t.Buffered();
            var n := if count < |b| then count else |b|;
            var (t', data) := ReadRecv(t, count);
            && data == b[..n] && t'.Shaped() && t'.Buffered() == b[n..]
            && t'.rcvNxt == t.rcvNxt && t'.rcvWnd == (t.rcvWnd + n) % 0x1_0000
            && (ReceiveSideOk(t) ==> ReceiveSideOk(t') && t'.rcvWnd == t.rcvWnd + n)
  {
    var n := if count < t.rcvNxt - t.rcvLbr then count else t.rcvNxt - t.rcvLbr;
    WindowSplit(t.rcvBuf, t.rcvLbr, t.rcvLbr + n, t.rcvNxt);
  }

  /** With all 65536 slots in use (a FIN after a full buffer), a read that asks for all of them returns nothing. */
  lemma WholeTurnReadsNothing(t: TcbState, count: nat)
    requires t.Shaped() && t.rcvNxt - t.rcvLbr == SLOTS && count >= SLOTS
    ensures ReadRecv(t, count).1 == [] && ReadRecv(t, count).0 == t.(rcvWnd := t.rcvWnd % 0x1_0000)
  {
  }

  /** A read of the send side returns the oldest pending bytes: as many as asked for, at most 1360. */
  lemma ReadSendIsFront(t: TcbState, count: nat)
    requires t.Shaped()
    ensures var b := t.Pending();
            var most := if count < 1360 then count else 1360;
            var n := if most < |b| then most else |b|;
            var (t', data) := ReadSend(t, count);
            data == b[..n] && t'.Shaped() && t'.Pending() == b[n..] && t' == t.(sendLbr := t.sendLbr + n)
  {
    var most := if count < 1360 then count else 1360;
    var n := if most < t.sendNxt - t.sendLbr then most else t.sendNxt - t.sendLbr;
    WindowSplit(t.sendBuf, t.sendLbr, t.sendLbr + n, t.sendNxt);
  }

  // ---------------------------------------------------------------------------------------------------
  // The same operations in place
  // ---------------------------------------------------------------------------------------------------

  class TCB {
    var iss: uint32
    var irs: uint32
    const sendBuf: array<byte>
    var sendUna: nat
    var sendNxt: nat
    var sendLbr: nat
    var sendWnd: uint16
    var sendWl1: uint32
    var sendWl2: uint32
    const rcvBuf: array<byte>
    var rcvNxt: nat
    var rcvWnd: uint16
    var rcvLbr: nat

    ghost predicate Valid()
      reads this, sendBuf, rcvBuf
    {
      sendBuf != rcvBuf && sendBuf.Length == SLOTS && rcvBuf.Length == SLOTS && State().Shaped()
    }

    ghost function State(): TcbState
      reads this, sendBuf, rcvBuf
    {
      TcbState(iss, irs, sendBuf[..], sendUna, sendNxt, sendLbr, sendWnd, sendWl1, sendWl2,
               rcvBuf[..], rcvNxt, rcvWnd, rcvLbr)
    }

    /** The random initial sequence number is a parameter. */
    constructor (iss: uint32)
      ensures Valid() && fresh(sendBuf) && fresh(rcvBuf)
      ensures forall i :: 0 <= i < SLOTS ==> sendBuf[i] == 0 && rcvBuf[i] == 0
      ensures State() == Opened(iss, 0, sendBuf[..]).(rcvBuf := rcvBuf[..], rcvNxt := 0, rcvLbr := 0)
    {
      this.iss, irs := iss, 0;
      sendBuf := new byte[SLOTS](_ => 0);
      rcvBuf := new byte[SLOTS](_ => 0);
      sendUna, sendNxt, sendLbr := 0, 1, 1;
      sendWnd, sendWl1, sendWl2 := 0, 0, 0;
      rcvNxt, rcvWnd, rcvLbr := 0, TCB_SIZE, 0;
    }

    method SetSynReceivedState(irs: uint32, ackNum: uint32, window: uint16)
      requires Valid()
      modifies this
      ensures Valid()
      ensures State() == old(State()).(irs := irs, sendWl1 := irs, sendWl2 := ackNum, rcvNxt := 1, rcvLbr := 1,
                                       sendWnd := window)
    {
      this.irs := irs;
      sendWl1 := irs;
      sendWl2 := ackNum;
      rcvNxt := 1;
      rcvLbr := rcvNxt;
      sendWnd := window;
    }

    method GetSendCapacity() returns (capacity: uint16)
      requires Valid()
      ensures capacity == SendCapacity(State())
    {
      capacity := TCB_SIZE - WrappedDist(sendNxt % TWO32, sendUna % TWO32);
    }

    method Add2Send(payload: seq<byte>)
      requires Valid()
      modifies `sendNxt, sendBuf
      ensures Valid() && State() == AddSend(old(State()), payload)
    {
      hide Store, Window;
      var count := sendNxt % SLOTS;
      StoreNothing(sendBuf[..], sendNxt, payload);
      for i := 0 to |payload|
        invariant sendBuf[..] == Store(old(sendBuf[..]), old(sendNxt), payload[..i])
        invariant sendNxt == old(sendNxt) + i && count == (old(sendNxt) + i) % SLOTS
      {
        StoreOneMore(old(sendBuf[..]), old(sendNxt), payload, i);
        sendBuf[count] := payload[i];
        count := (count + 1) % SLOTS;
        sendNxt := sendNxt + 1;
      }
    }

    /** The copy that both reads make: one slice, or two where the bytes go round the end of the ring. */
    static method CopyOut(buf: array<byte>, pointer: nat, dist: nat) returns (data: seq<byte>)
      requires buf.Length == SLOTS
      ensures data == Window(buf[..], pointer, pointer + dist % SLOTS)
    {
      var minIdx := (pointer + dist) % SLOTS;
      var startIdx := pointer % SLOTS;
      SlicesAreWindow(buf[..], pointer, dist);
      if startIdx > minIdx {
        data := buf[startIdx..] + buf[..minIdx];
        assert data == buf[..][startIdx..] + buf[..][..minIdx];
      } else {
        data := buf[startIdx..minIdx];
        assert data == buf[..][startIdx..minIdx];
      }
    }

    method ReadFromSend(count: nat) returns (data: seq<byte>)
      requires Valid()
      modifies `sendLbr
      ensures Valid()
      ensures (State(), data) == ReadSend(old(State()), count)
      ensures var b := old(State().Pending());
              var most := if count < 1360 then count else 1360;
              var n := if most < |b| then most else |b|;
              data == b[..n] && State().Pending() == b[n..]
    {
      ReadSendIsFront(State(), count);
      var dist := Min(Min(sendNxt - sendLbr, MSS), count);
      data := CopyOut(sendBuf, sendLbr, dist);
      sendLbr := sendLbr + |data|;
    }

    method Add2Read(payload: seq<byte>)
      requires Valid() && |payload| <= rcvWnd
      modifies `rcvNxt, `rcvWnd, rcvBuf
      ensures Valid() && State() == AddRead(old(State()), payload)
    {
      hide Store, Window;
      var count := rcvNxt % SLOTS;
      StoreNothing(rcvBuf[..], rcvNxt, payload);
      for i := 0 to |payload|
        invariant rcvBuf[..] == Store(old(rcvBuf[..]), old(rcvNxt), payload[..i])
        invariant rcvNxt == old(rcvNxt) + i && rcvWnd == old(rcvWnd) - i && count == (old(rcvNxt) + i) % SLOTS
      {
        StoreOneMore(old(rcvBuf[..]), old(rcvNxt), payload, i);
        rcvBuf[count] := payload[i];
        count := (count + 1) % SLOTS;
        rcvNxt := rcvNxt + 1;
        rcvWnd := rcvWnd - 1;
      }
    }

    method ReadFromRecv(count: nat) returns (data: seq<byte>)
      requires Valid()
      modifies `rcvLbr, `rcvWnd
      ensures Valid()
      ensures (State(), data) == ReadRecv(old(State()), count)
      ensures var b := old(State().Buffered());
              var n := if count < |b| then count else |b|;
              n < SLOTS ==> data == b[..n] && State().Buffered() == b[n..]
    {
      if count < SLOTS || rcvNxt - rcvLbr < SLOTS {
        ReadIsFront(State(), count);
      }
      var dist := Min(rcvNxt - rcvLbr, count);
      data := CopyOut(rcvBuf, rcvLbr, dist);
      rcvLbr := rcvLbr + |data|;
      rcvWnd := (rcvWnd + |data|) % 0x1_0000;
    }
  }
}
