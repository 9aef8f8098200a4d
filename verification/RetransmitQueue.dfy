/**
 The retransmission queue. Every operation works at its tail: it is a stack of the segments sent, newest last.
 */
module RetransmitQueue {
  import opened Words
  import opened Sequence
  import opened Segments

  /** Sequence numbers that may be outstanding: 65535, and one for a FIN. */
  const SEND_LIMIT: int := TCB_SIZE + 1

  /** Sequence numbers that one entry may take. */
  const MAX_SPAN: int := MSS + 2

  /** The time at which the segment was sent is left out. */
  datatype Entry = Entry(seqNum: uint32, flags: Flags, payload: seq<byte>)

  /** What `Cleanup` keeps once everything before the sequence number `una` is acknowledged. */
  function Kept(q: seq<Entry>, una: uint32): (kept: seq<Entry>)
    ensures kept <= q
    ensures kept != [] ==> WrappedCompare(kept[|kept| - 1].seqNum, una) >= 0
    ensures forall i :: |kept| <= i < |q| ==> WrappedCompare(q[i].seqNum, una) < 0
  {
    if q == [] || WrappedCompare(q[|q| - 1].seqNum, una) >= 0 then q else Kept(q[..|q| - 1], una)
  }

  function Reversed(q: seq<Entry>): seq<Entry> {
    if q == [] then [] else [q[|q| - 1]] + Reversed(q[..|q| - 1])
  }

  lemma ReversedOneMore(q: seq<Entry>, e: Entry)
    ensures Reversed(q + [e]) == [e] + Reversed(q)
  {
    assert (q + [e])[..|q|] == q;
  }

  lemma ReversedNothing()
    ensures Reversed([]) == []
  {
  }

  lemma KeptStep(q: seq<Entry>, una: uint32)
    ensures q == [] || WrappedCompare(q[|q| - 1].seqNum, una) >= 0 ==> Kept(q, una) == q
    ensures q != [] && WrappedCompare(q[|q| - 1].seqNum, una) < 0 ==> Kept(q, una) == Kept(q[..|q| - 1], una)
  {
  }

  class RtoQueue {
    var entries: seq<Entry>

    constructor ()
      ensures entries == []
    {
      entries := [];
    }

    method Push(entry: Entry)
      modifies this
      ensures entries == old(entries) + [entry]
    {
      entries := entries + [entry];
    }

    method Pop() returns (entry: Option<Entry>)
      modifies this
      ensures old(entries) == [] ==> entry == None && entries == []
      ensures old(entries) != [] ==> entry.Some? && entries + [entry.value] == old(entries)
    {
      if |entries| <= 0 {
        return None;
      }
      var n := |entries|;
      entry := Some(entries[n - 1]);
      entries := entries[..n - 1];
    }

    method Peek() returns (entry: Option<Entry>)
      ensures entries == [] <==> entry == None
      ensures entries != [] ==> entry == Some(entries[|entries| - 1])
    {
      if |entries| > 0 {
        return Some(entries[|entries| - 1]);
      }
      return None;
    }

    /** `popped` holds what was dropped, newest first. */
    method Cleanup(una: uint32) returns (popped: seq<Entry>)
      modifies this
      ensures entries == Kept(old(entries), una)
      ensures old(entries) == entries + Reversed(popped)
    {
      hide WrappedCompare, Kept, Reversed;
      popped := [];
      ReversedNothing();
      ghost var q := entries;
      var curr := Peek();
      while curr != None
        invariant q == entries + Reversed(popped)
        invariant if entries == [] then curr == None else curr == Some(entries[|entries| - 1])
        invariant Kept(entries, una) == Kept(q, una)
        decreases |entries|
      {
        KeptStep(entries, una);
        if WrappedCompare(curr.value.seqNum, una) >= 0 {
          return;
        }
        ghost var before := entries;
        var entry := Pop();
        assert entries == before[..|before| - 1];
        ReversedOneMore(popped, entry.value);
        popped := popped + [entry.value];
        curr := Peek();
      }
      KeptStep(entries, una);
    }
  }

  // ---------------------------------------------------------------------------------------------------
  // What the queue covers
  // ---------------------------------------------------------------------------------------------------

  /** Sequence numbers that an entry takes: one per byte, one for a SYN, one for a FIN. */
  function Span(e: Entry): nat {
    |e.payload| + (if e.flags.syn then 1 else 0) + (if e.flags.fin then 1 else 0)
  }

  /** `e` can resend what was sent at pointer `at` of the stream `written` (its first byte has pointer 1). */
  predicate Holds(e: Entry, iss: uint32, at: nat, written: seq<byte>) {
    && e.seqNum == Wrap(iss, at)
    && (e.payload != [] ==> 1 <= at && at - 1 + |e.payload| <= |written|
                            && e.payload == written[at - 1..at - 1 + |e.payload|])
  }

  /** The entries are contiguous and ascending, from pointer `lo` up to pointer `hi`. */
  predicate Tiles(q: seq<Entry>, iss: uint32, lo: nat, hi: nat, written: seq<byte>) {
    if q == [] then
      lo == hi
    else
      var last := q[|q| - 1];
      && 1 <= Span(last) && lo + Span(last) <= hi
      && Holds(last, iss, hi - Span(last), written)
      && Tiles(q[..|q| - 1], iss, lo, hi - Span(last), written)
  }

  /** The newest entries of the queue hold everything from pointer `una` up to pointer `nxt`. */
  ghost predicate Covers(q: seq<Entry>, iss: uint32, una: nat, nxt: nat, written: seq<byte>) {
    exists k: nat, lo: nat {:trigger Tiles(q[k..], iss, lo, nxt, written)} ::
      k <= |q| && lo <= una && Tiles(q[k..], iss, lo, nxt, written)
  }

  lemma {:induction false} TilesGrow(q: seq<Entry>, iss: uint32, lo: nat, hi: nat, written: seq<byte>, more: seq<byte>)
    requires Tiles(q, iss, lo, hi, written)
    ensures Tiles(q, iss, lo, hi, written + more)
  {
    if q != [] {
      var last := q[|q| - 1];
      TilesGrow(q[..|q| - 1], iss, lo, hi - Span(last), written, more);
      HoldsGrows(last, iss, hi - Span(last), written, more);
    }
  }

  /** Every pointer of a tiled interval belongs to an entry that can resend it. */
  lemma {:induction false} TilesHold(q: seq<Entry>, iss: uint32, lo: nat, hi: nat, written: seq<byte>, p: nat)
    requires Tiles(q, iss, lo, hi, written) && lo <= p < hi
    ensures exists i, at: nat :: 0 <= i < |q| && at <= p < at + Span(q[i]) && Holds(q[i], iss, at, written)
  {
    var n := |q| - 1;
    var at := hi - Span(q[n]);
    if p < at {
      TilesHold(q[..n], iss, lo, at, written, p);
      var i, a: nat :| 0 <= i < |q[..n]| && a <= p < a + Span(q[..n][i]) && Holds(q[..n][i], iss, a, written);
      assert q[i] == q[..n][i];
    } else {
      assert Holds(q[n], iss, at, written);
    }
  }

  /** Sending: an entry for the pointers [nxt, nxt + span) keeps the cover. */
  lemma PushCovers(q: seq<Entry>, iss: uint32, una: nat, nxt: nat, written: seq<byte>, more: seq<byte>, e: Entry)
    requires Covers(q, iss, una, nxt, written)
    requires 1 <= Span(e) && Holds(e, iss, nxt, written + more)
    ensures Covers(q + [e], iss, una, nxt + Span(e), written + more)
  {
    var k: nat, lo: nat :| k <= |q| && lo <= una && Tiles(q[k..], iss, lo, nxt, written);
    hide Wrap;
    TilesGrow(q[k..], iss, lo, nxt, written, more);
    var suffix := (q + [e])[k..];
    assert suffix == q[k..] + [e];
    assert suffix[..|suffix| - 1] == q[k..];
    TilesBounds(q[k..], iss, lo, nxt, written);
    assert Tiles((q + [e])[k..], iss, lo, nxt + Span(e), written + more);
  }

  lemma {:induction false} TilesBounds(q: seq<Entry>, iss: uint32, lo: nat, hi: nat, written: seq<byte>)
    requires Tiles(q, iss, lo, hi, written)
    ensures lo <= hi && (lo == hi <==> q == [])
  {
    if q != [] {
      TilesBounds(q[..|q| - 1], iss, lo, hi - Span(q[|q| - 1]), written);
    }
  }

  /** While something is not acknowledged, the newest entry is the last segment sent. */
  lemma CoverEndsWithNewest(q: seq<Entry>, iss: uint32, una: nat, nxt: nat, written: seq<byte>)
    requires Covers(q, iss, una, nxt, written) && una < nxt
    ensures q != []
    ensures var last := q[|q| - 1]; 1 <= Span(last) <= nxt && Holds(last, iss, nxt - Span(last), written)
  {
    var k: nat, lo: nat :| k <= |q| && lo <= una && Tiles(q[k..], iss, lo, nxt, written);
    var live := q[k..];
    assert live[|live| - 1] == q[|q| - 1];
  }

  lemma NewestIsKept(q: seq<Entry>, iss: uint32, una: nat, at: nat)
    requires q != [] && q[|q| - 1].seqNum == Wrap(iss, at) && una <= at <= una + TCB_SIZE
    ensures Kept(q, Wrap(iss, una)) == q
  {
    CompareMeansBehind(Wrap(iss, at), Wrap(iss, una));
    AheadOfPointers(iss, una, at);
  }

  lemma NothingToCover(q: seq<Entry>, iss: uint32, nxt: nat, written: seq<byte>)
    ensures Covers(q, iss, nxt, nxt, written)
  {
    assert q[|q|..] == [];
    assert Tiles(q[|q|..], iss, nxt, nxt, written);
  }

  lemma CoversLess(q: seq<Entry>, iss: uint32, una: nat, una': nat, nxt: nat, written: seq<byte>)
    requires Covers(q, iss, una, nxt, written) && una <= una'
    ensures Covers(q, iss, una', nxt, written)
  {
    var k: nat, lo: nat :| k <= |q| && lo <= una && Tiles(q[k..], iss, lo, nxt, written);
    assert lo <= una';
  }

  /**
   Acknowledging up to `una`: the cover is kept when everything is acknowledged, or nothing of the newest
   entry is. Sequence numbers may wrap.
   */
  lemma CleanupCovers(q: seq<Entry>, iss: uint32, una: nat, una': nat, nxt: nat, written: seq<byte>)
    requires Covers(q, iss, una, nxt, written)
    requires una <= una' <= nxt <= una' + SEND_LIMIT
    requires una' < nxt ==> q != [] && una' + Span(q[|q| - 1]) <= nxt
    ensures Covers(Kept(q, Wrap(iss, una')), iss, una', nxt, written)
    ensures una' < nxt ==> Kept(q, Wrap(iss, una')) == q
  {
    hide Wrap, Kept, Tiles;
    if una' == nxt {
      NothingToCover(Kept(q, Wrap(iss, una')), iss, nxt, written);
    } else {
      CoverEndsWithNewest(q, iss, una, nxt, written);
      NewestIsKept(q, iss, una', nxt - Span(q[|q| - 1]));
      CoversLess(q, iss, una, una', nxt, written);
    }
  }

  lemma {:induction false} TilesPrefix(q: seq<Entry>, iss: uint32, lo: nat, hi: nat, written: seq<byte>, m: nat)
    returns (end: nat)
    requires Tiles(q, iss, lo, hi, written) && m <= |q|
    ensures Tiles(q[..m], iss, lo, end, written)
    ensures end <= hi && (m < |q| ==> end <= hi - Span(q[|q| - 1]))
  {
    if m == |q| {
      assert q[..m] == q;
      return hi;
    } else {
      var init := q[..|q| - 1];
      end := TilesPrefix(init, iss, lo, hi - Span(q[|q| - 1]), written, m);
      assert init[..m] == q[..m];
    }
  }

  /** A queue that ends before pointer `nxt` does not cover what comes up to `nxt`. */
  lemma ShortQueueDoesNotCover(q: seq<Entry>, iss: uint32, lo: nat, end: nat, una: nat, nxt: nat, written: seq<byte>)
    requires Tiles(q, iss, lo, end, written)
    requires lo <= end < nxt < lo + TWO32 && lo <= una < nxt
    ensures !Covers(q, iss, una, nxt, written)
  {
    if Covers(q, iss, una, nxt, written) {
      CoverEndsWithNewest(q, iss, una, nxt, written);
      var span := Span(q[|q| - 1]);
      WrapInjective(iss, end - span, nxt - span);
      assert false;
    }
  }

  /**
   Exactly when something is forgotten before it is acknowledged: when the acknowledgment lands inside the
   newest entry and 2^32 does not lie between the start of that entry and the acknowledgment.
   */
  lemma PartialAckForgets(q: seq<Entry>, iss: uint32, lo: nat, una: nat, nxt: nat, written: seq<byte>)
    requires q != [] && Tiles(q, iss, lo, nxt, written) && Span(q[|q| - 1]) <= MAX_SPAN
    requires lo <= una < nxt <= una + SEND_LIMIT && nxt < lo + TWO32
    ensures var at := nxt - Span(q[|q| - 1]);
            Covers(Kept(q, Wrap(iss, una)), iss, una, nxt, written)
            <==> una <= at || Wrap(iss, una) < Wrap(iss, at)
  {
    var at := nxt - Span(q[|q| - 1]);
    var kept := Kept(q, Wrap(iss, una));
    if una <= at {
      NewestIsKept(q, iss, una, at);
    } else {
      CompareMeansBehind(Wrap(iss, at), Wrap(iss, una));
      AheadOfPointers(iss, at, una);
    }
    if una <= at || Wrap(iss, una) < Wrap(iss, at) {
      assert kept[0..] == q;
      assert Tiles(kept[0..], iss, lo, nxt, written);
    } else {
      assert |kept| < |q|;
      var end := TilesPrefix(q, iss, lo, nxt, written, |kept|);
      assert q[..|kept|] == kept;
      TilesBounds(kept, iss, lo, end, written);
      ShortQueueDoesNotCover(kept, iss, lo, end, una, nxt, written);
    }
  }

  // ---------------------------------------------------------------------------------------------------
  // When the queue is emptied
  // ---------------------------------------------------------------------------------------------------

  /** The newest entry is a second one for our SYN (a simultaneous open sends a SYN and then a SYN+ACK). */
  predicate RepeatsSyn(q: seq<Entry>) {
    |q| >= 2 && q[|q| - 1].flags.syn
  }

  /** Sequence numbers from the start of the oldest entry to the end of the newest. */
  function Backlog(q: seq<Entry>): nat {
    if q == [] then 0
    else Backlog(q[..|q| - 1]) + (if RepeatsSyn(q) then 0 else Span(q[|q| - 1]))
  }

  /** The whole queue is contiguous and ascending up to pointer `hi`; the SYN may be there twice. */
  predicate Whole(q: seq<Entry>, iss: uint32, hi: nat, written: seq<byte>) {
    if q == [] then
      true
    else
      var last := q[|q| - 1];
      && 1 <= Span(last) <= MAX_SPAN && Span(last) <= hi
      && Holds(last, iss, hi - Span(last), written)
      && (if RepeatsSyn(q) then hi == 1 && Whole(q[..|q| - 1], iss, hi, written)
          else Whole(q[..|q| - 1], iss, hi - Span(last), written))
  }

  /**
   Everything in the queue compares as older than `ack`: it goes back at most 65535, and no entry is numbered
   above `ack`, unless it is exactly 65535 behind.
   */
  predicate Timely(q: seq<Entry>, ack: uint32) {
    Backlog(q) <= TCB_SIZE && forall e :: e in q ==> IsBehind(e.seqNum, ack)
  }

  predicate IsBehind(seqNum: uint32, ack: uint32) {
    seqNum <= ack || Ahead(seqNum, ack) == TCB_SIZE
  }

  lemma {:induction false} WholeBounds(q: seq<Entry>, iss: uint32, hi: nat, written: seq<byte>)
    requires Whole(q, iss, hi, written)
    ensures Backlog(q) <= hi && (q == [] <==> Backlog(q) == 0)
  {
    if q != [] {
      WholeBounds(q[..|q| - 1], iss, if RepeatsSyn(q) then hi else hi - Span(q[|q| - 1]), written);
    }
  }

  lemma {:induction false} WholeGrows(q: seq<Entry>, iss: uint32, hi: nat, written: seq<byte>, more: seq<byte>)
    requires Whole(q, iss, hi, written)
    ensures Whole(q, iss, hi, written + more)
  {
    if q != [] {
      var last := q[|q| - 1];
      WholeGrows(q[..|q| - 1], iss, if RepeatsSyn(q) then hi else hi - Span(last), written, more);
      HoldsGrows(last, iss, hi - Span(last), written, more);
    }
  }

  lemma HoldsGrows(e: Entry, iss: uint32, at: nat, written: seq<byte>, more: seq<byte>)
    requires Holds(e, iss, at, written)
    ensures Holds(e, iss, at, written + more)
  {
    if e.payload != [] {
      assert (written + more)[at - 1..at - 1 + |e.payload|] == written[at - 1..at - 1 + |e.payload|];
    }
  }

  lemma PushKeepsWhole(q: seq<Entry>, iss: uint32, nxt: nat, written: seq<byte>, more: seq<byte>, e: Entry)
    requires Whole(q, iss, nxt, written) && !e.flags.syn
    requires 1 <= Span(e) <= MAX_SPAN && Holds(e, iss, nxt, written + more)
    ensures Whole(q + [e], iss, nxt + Span(e), written + more)
    ensures Backlog(q + [e]) == Backlog(q) + Span(e)
  {
    WholeGrows(q, iss, nxt, written, more);
    assert (q + [e])[..|q|] == q;
  }

  /**
   With everything up to `una` acknowledged, the queue is emptied exactly when it is timely: `wrappedDist` caps
   distances at 65535, so what is older compares as newer and stays.
   */
  lemma {:induction false} QueueEmptiesIff(q: seq<Entry>, iss: uint32, hi: nat, una: nat, written: seq<byte>)
    requires Whole(q, iss, hi, written) && hi <= una <= hi + TCB_SIZE
    ensures Kept(q, Wrap(iss, una)) == []
            <==> q == [] || (Backlog(q) + (una - hi) <= TCB_SIZE && Timely(q, Wrap(iss, una)))
  {
    hide Wrap, Whole, Kept, Backlog, WrappedCompare, Ahead;
    if q == [] {
      KeptStep(q, Wrap(iss, una));
    } else {
      var n := |q| - 1;
      var last, init := q[n], q[..n];
      var hi' := WholeStep(q, iss, hi, written);
      PoppedIff(iss, hi - Span(last), una);
      KeptStep(q, Wrap(iss, una));
      AllOfOneMore(init, last, Wrap(iss, una));
      assert q == init + [last];
      if WrappedCompare(last.seqNum, Wrap(iss, una)) < 0 {
        QueueEmptiesIff(init, iss, hi', una, written);
      }
    }
  }

  /** Taking the newest entry off. */
  lemma WholeStep(q: seq<Entry>, iss: uint32, hi: nat, written: seq<byte>) returns (hi': nat)
    requires q != [] && Whole(q, iss, hi, written)
    ensures var init, last := q[..|q| - 1], q[|q| - 1];
            && 1 <= Span(last) <= MAX_SPAN && Span(last) <= hi && last.seqNum == Wrap(iss, hi - Span(last))
            && hi - Span(last) <= hi' <= hi && Whole(init, iss, hi', written)
            && Backlog(q) == Backlog(init) + hi - hi' && Backlog(q) >= Span(last)
            && (init == [] <==> Backlog(init) == 0) && (init == [] ==> hi' == hi - Span(last))
  {
    hide Wrap;
    WholeBounds(q, iss, hi, written);
    hi' := if RepeatsSyn(q) then hi else hi - Span(q[|q| - 1]);
    WholeBounds(q[..|q| - 1], iss, hi', written);
  }

  /** One entry compares as older exactly if it is at most 65535 old and not numbered above `una`, or just 65535. */
  lemma PoppedIff(iss: uint32, at: nat, una: nat)
    requires at < una < at + TWO32
    ensures WrappedCompare(Wrap(iss, at), Wrap(iss, una)) < 0
            <==> una - at <= TCB_SIZE && IsBehind(Wrap(iss, at), Wrap(iss, una))
  {
    AheadOfPointers(iss, at, una);
    CompareMeansBehind(Wrap(iss, at), Wrap(iss, una));
  }

  lemma AllOfOneMore(init: seq<Entry>, last: Entry, ack: uint32)
    ensures (forall e :: e in init + [last] ==> IsBehind(e.seqNum, ack))
            <==> IsBehind(last.seqNum, ack) && forall e :: e in init ==> IsBehind(e.seqNum, ack)
  {
    assert last in init + [last];
    assert forall e :: e in init ==> e in init + [last];
  }
}
