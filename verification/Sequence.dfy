/**
 32-bit sequence numbers, the plain unsigned comparisons the stack makes on them, and what those
 comparisons mean modulo 2^32.

 A connection addresses its byte stream with unbounded pointers (0 is the SYN, 1 the first byte of data);
 `Wrap` maps a pointer to the sequence number that travels in a segment.
 */
module Sequence {
  import opened Words

  const TCB_SIZE: int := 65535
  const MSS: int := 1360

  function Wrap(base: uint32, pointer: nat): uint32 {
    (base + pointer) % TWO32
  }

  /** How far `b` lies ahead of `a` on the circle of sequence numbers: the reference the tests below are judged by. */
  function Ahead(a: uint32, b: uint32): uint32 {
    (b - a) % TWO32
  }

  function WrappedDist(a: uint32, b: uint32): uint32 {
    var (hi, lo) := if a < b then (b, a) else (a, b);
    if hi - lo < TCB_SIZE then hi - lo else TCB_SIZE
  }

  /** -1, 0 or 1. The addition is a 32-bit one, so it may wrap. */
  function WrappedCompare(a: uint32, b: uint32): int {
    var dist := WrappedDist(a, b);
    if dist == 0 then 0
    else if (a + dist) % TWO32 == b then -1
    else 1
  }

  predicate AckAcceptable(una: uint32, nxt: uint32, ack: uint32) {
    una < ack && ack <= nxt
  }

  predicate SegmentAcceptable(rcvNxt: uint32, rcvWnd: uint16, seqNum: uint32, length: nat) {
    if length == 0 && rcvWnd == 0 then
      seqNum == rcvNxt
    else
      var windowEnd := (rcvNxt + rcvWnd) % TWO32;
      var startInWindow := rcvNxt <= seqNum && seqNum < windowEnd;
      if length == 0 then
        startInWindow
      else if rcvWnd == 0 then
        false
      else
        var end := (seqNum + length - 1) % TWO32;
        var endInWindow := rcvNxt <= end && end < windowEnd;
        startInWindow || endInWindow
  }

  /** Table 6 of section 3.10.7.4 of RFC 9293, read modulo 2^32. */
  predicate Rfc9293Acceptable(rcvNxt: uint32, rcvWnd: uint16, seqNum: uint32, length: nat) {
    if rcvWnd == 0 then
      length == 0 && seqNum == rcvNxt
    else
      || Ahead(rcvNxt, seqNum) < rcvWnd
      || (length > 0 && Ahead(rcvNxt, (seqNum + length - 1) % TWO32) < rcvWnd)
  }

  /** SND.UNA < SEG.ACK =< SND.NXT of section 3.4 of RFC 9293, read modulo 2^32. */
  predicate Rfc9293AckAcceptable(una: uint32, nxt: uint32, ack: uint32) {
    0 < Ahead(una, ack) <= Ahead(una, nxt)
  }

  /** The segment test never accepts what RFC 9293 rejects. */
  lemma SegmentTestIsSound(rcvNxt: uint32, rcvWnd: uint16, seqNum: uint32, length: nat)
    requires SegmentAcceptable(rcvNxt, rcvWnd, seqNum, length)
    ensures Rfc9293Acceptable(rcvNxt, rcvWnd, seqNum, length)
  {
    if rcvWnd > 0 {
      var end := (seqNum + length - 1) % TWO32;
      assert rcvNxt <= seqNum ==> Ahead(rcvNxt, seqNum) == seqNum - rcvNxt;
      if length > 0 {
        assert rcvNxt <= end ==> Ahead(rcvNxt, end) == end - rcvNxt;
      }
    }
  }

  /** It agrees with RFC 9293 on every segment exactly when the end of the window is still below 2^32. */
  lemma SegmentTestIsExactIff(rcvNxt: uint32, rcvWnd: uint16)
    ensures (forall seqNum: uint32, length: nat ::
               SegmentAcceptable(rcvNxt, rcvWnd, seqNum, length) == Rfc9293Acceptable(rcvNxt, rcvWnd, seqNum, length))
            <==> (rcvWnd == 0 || rcvNxt + rcvWnd < TWO32)
  {
    if rcvWnd == 0 || rcvNxt + rcvWnd < TWO32 {
      forall seqNum: uint32, length: nat
        ensures SegmentAcceptable(rcvNxt, rcvWnd, seqNum, length) == Rfc9293Acceptable(rcvNxt, rcvWnd, seqNum, length)
      {
        AheadWithin(rcvNxt, seqNum, rcvWnd);
        if length > 0 {
          AheadWithin(rcvNxt, (seqNum + length - 1) % TWO32, rcvWnd);
        }
      }
    } else {
      assert !SegmentAcceptable(rcvNxt, rcvWnd, rcvNxt, 0);
      assert Rfc9293Acceptable(rcvNxt, rcvWnd, rcvNxt, 0);
    }
  }

  lemma AheadWithin(a: uint32, b: uint32, n: uint16)
    requires a + n < TWO32
    ensures Ahead(a, b) < n <==> a <= b < a + n
  {
    if a <= b {
      assert Ahead(a, b) == b - a;
    } else {
      assert Ahead(a, b) == b - a + TWO32;
    }
  }

  /** The acknowledgment test is sound for all values and exact exactly when the send interval does not cross 2^32. */
  lemma AckTestIsSoundAndExactIff(una: uint32, nxt: uint32)
    ensures forall ack: uint32 :: AckAcceptable(una, nxt, ack) ==> Rfc9293AckAcceptable(una, nxt, ack)
    ensures (forall ack: uint32 :: AckAcceptable(una, nxt, ack) == Rfc9293AckAcceptable(una, nxt, ack)) <==> una <= nxt
  {
    forall ack: uint32
      ensures AckAcceptable(una, nxt, ack) ==> Rfc9293AckAcceptable(una, nxt, ack)
      ensures una <= nxt ==> AckAcceptable(una, nxt, ack) == Rfc9293AckAcceptable(una, nxt, ack)
    {
      assert Ahead(una, ack) == if una <= ack then ack - una else ack - una + TWO32;
      assert Ahead(una, nxt) == if una <= nxt then nxt - una else nxt - una + TWO32;
    }
    if una > nxt {
      assert Ahead(una, nxt) == nxt - una + TWO32;
      assert !AckAcceptable(una, nxt, nxt);
      assert Rfc9293AckAcceptable(una, nxt, nxt);
    }
  }

  /**
   "Smaller" means 1..65535 behind, even across 2^32; it is exact while b has not wrapped below a, and past
   the wrap it recognises only the distance 65535.
   */
  lemma CompareMeansBehind(a: uint32, b: uint32)
    ensures WrappedCompare(a, b) == 0 <==> a == b
    ensures WrappedCompare(a, b) < 0 ==> 1 <= Ahead(a, b) <= TCB_SIZE
    ensures a <= b ==> (WrappedCompare(a, b) < 0 <==> 1 <= Ahead(a, b) <= TCB_SIZE)
    ensures a > b ==> (WrappedCompare(a, b) < 0 <==> Ahead(a, b) == TCB_SIZE)
  {
    var dist := WrappedDist(a, b);
    if a <= b {
      assert Ahead(a, b) == b - a;
      assert (a + dist) % TWO32 == a + dist;
    } else {
      assert Ahead(a, b) == b - a + TWO32;
      assert (a + dist) % TWO32 == if a + dist < TWO32 then a + dist else a + dist - TWO32;
    }
  }

  /** Pointers at most 2^32 - 1 apart are as far apart on the circle as they are on the line. */
  lemma AheadOfPointers(base: uint32, lo: nat, hi: nat)
    requires lo <= hi < lo + TWO32
    ensures Ahead(Wrap(base, lo), Wrap(base, hi)) == hi - lo
    ensures Wrap(base, lo) <= Wrap(base, hi) ==> Wrap(base, hi) - Wrap(base, lo) == hi - lo
    ensures Wrap(base, lo) > Wrap(base, hi) ==> Wrap(base, hi) + TWO32 - Wrap(base, lo) == hi - lo
  {
    var q := (base + lo) / TWO32;
    assert base + lo == q * TWO32 + Wrap(base, lo);
    var r := Wrap(base, lo) + (hi - lo);
    assert base + hi == q * TWO32 + r;
    assert Wrap(base, hi) == r % TWO32;
    assert r % TWO32 == if r < TWO32 then r else r - TWO32;
  }

  /** Distinct pointers less than 2^32 apart have distinct sequence numbers. */
  lemma WrapInjective(base: uint32, a: nat, b: nat)
    requires -TWO32 < a - b < TWO32
    ensures Wrap(base, a) == Wrap(base, b) <==> a == b
  {
    if a <= b {
      AheadOfPointers(base, a, b);
    } else {
      AheadOfPointers(base, b, a);
    }
  }

  /**
   Processing an accepted acknowledgment: the pointer moves forward by what it acknowledges, never past the
   last byte sent, and lands exactly on the acknowledged byte unless more than 65535 bytes are acknowledged
   at once.
   */
  lemma AcceptedAckIsExact(base: uint32, una: nat, nxt: nat, ack: uint32)
    requires una <= nxt <= una + TCB_SIZE + 1
    requires AckAcceptable(Wrap(base, una), Wrap(base, nxt), ack)
    ensures var moved := una + WrappedDist(Wrap(base, una), ack);
            && una < moved <= nxt
            && (Wrap(base, moved) == ack <==> ack - Wrap(base, una) <= TCB_SIZE)
            && (nxt <= una + TCB_SIZE ==> Wrap(base, moved) == ack)
            && (Wrap(base, moved) == ack ==> (moved == nxt <==> ack == Wrap(base, nxt)))
  {
    AheadOfPointers(base, una, nxt);
    var moved := una + WrappedDist(Wrap(base, una), ack);
    AheadOfPointers(base, una, moved);
    WrapInjective(base, moved, nxt);
  }
}
