/** What the operations on connection IDs return and change, call by call, in terms of the stored
    entries: duplicates, malformed and late frames, and the small operations around them. */
module CidOutcomes {
  import opened Base
  import opened Cid
  import opened CidRuns

  // ---------- NEW_CONNECTION_ID frames ----------

  /** The entry holds the frame's value or its number. */
  predicate Touches(e: Entry, f: NewCidFrame) { e.cid == f.cid || e.seqNum == f.seqNum }

  /** The entry is what an earlier copy of the frame left behind. */
  predicate Repeats(e: Entry, f: NewCidFrame) {
    e.cid == f.cid && e.seqNum == f.seqNum && e.token == Some(f.token)
  }

  /** Where values and numbers are distinct, an entry that repeats the frame is the only one to
      touch it. */
  lemma {:induction false} OnlyOneTouches(es: seq<Entry>, f: NewCidFrame, i: nat, j: nat)
    requires Ascending(es) && Distinct(es) && i < |es| && j < |es|
    requires Repeats(es[i], f) && Touches(es[j], f)
    ensures i == j
  {
    AscendingExact(es);
    if i < j { DistinctAt(es, i, j); } else if j < i { DistinctAt(es, j, i); }
  }

  /** A retransmitted frame is accepted and changes nothing. */
  lemma {:induction false} FrameRepeated(r: Receiver, f: NewCidFrame, k: nat)
    requires ReceiverInv(r) && !r.zeroLength && Boundary(r.dcids.inner, f.retirePriorTo, k)
    requires exists e <- r.dcids.inner :: Repeats(e, f)
    ensures NewDcid(r, f, k) == (r, [], Ok(()))
  {
    var es := r.dcids.inner;
    var i :| 0 <= i < |es| && Repeats(es[i], f);
    var dup := IndexOfEither(es, f.cid, f.seqNum);
    SeqsMember(es);
    assert dup < |es|;
    OnlyOneTouches(es, f, i, dup);
  }

  /** A frame that reuses a stored value or number with anything else different is rejected and
      changes nothing. */
  lemma {:induction false} FrameClashes(r: Receiver, f: NewCidFrame, k: nat)
    requires ReceiverInv(r) && !r.zeroLength && Boundary(r.dcids.inner, f.retirePriorTo, k)
    requires exists e <- r.dcids.inner :: Touches(e, f) && !Repeats(e, f)
    ensures NewDcid(r, f, k) == (r, [], Err(InvalidFrame))
  {
    var es := r.dcids.inner;
    var i :| 0 <= i < |es| && Touches(es[i], f) && !Repeats(es[i], f);
    var dup := IndexOfEither(es, f.cid, f.seqNum);
    SeqsMember(es);
    assert dup < |es|;
    if Repeats(es[dup], f) { OnlyOneTouches(es, f, dup, i); }
  }

  predicate Unknown(r: Receiver, f: NewCidFrame) { forall e <- r.dcids.inner :: !Touches(e, f) }

  lemma {:induction false} UnknownIsNotFound(r: Receiver, f: NewCidFrame)
    requires Unknown(r, f)
    ensures IndexOfEither(r.dcids.inner, f.cid, f.seqNum) == |r.dcids.inner|
    ensures IndexOfSeq(r.dcids.inner, f.seqNum) == |r.dcids.inner|
  {
    var es := r.dcids.inner;
    SeqsMember(es);
    if f.seqNum in Seqs(es) {
      var i :| 0 <= i < |es| && es[i].seqNum == f.seqNum;
      assert Touches(es[i], f);
    }
  }

  /** A frame that asks for its own retirement is rejected and changes nothing. */
  lemma {:induction false} FrameMalformed(r: Receiver, f: NewCidFrame, k: nat)
    requires !r.zeroLength && Boundary(r.dcids.inner, f.retirePriorTo, k) && Unknown(r, f)
    requires f.retirePriorTo > f.seqNum
    ensures NewDcid(r, f, k) == (r, [], Err(InvalidFrame))
  {
    UnknownIsNotFound(r, f);
  }

  /** A frame that arrives after its retirement was requested is retired at once, if that fits, and
      never stored. */
  lemma {:induction false} FrameLate(r: Receiver, f: NewCidFrame, k: nat)
    requires !r.zeroLength && Boundary(r.dcids.inner, f.retirePriorTo, k) && Unknown(r, f)
    requires f.retirePriorTo <= f.seqNum < r.largestRetirePriorTo
    ensures var (r', paths, res) := NewDcid(r, f, k);
      var room := |r.retire.inner| < r.retire.capacity;
      && paths == [] && res == (if room then Ok(()) else Err(IdLimit))
      && r' == r.(retire := r'.retire)
      && r'.retire == r.retire.(inner := if room then r.retire.inner + {f.seqNum} else r.retire.inner)
  {
    UnknownIsNotFound(r, f);
  }

  /** A frame that does not raise Retire Prior To retires nothing: it is stored at the back if there
      is room, in whatever order it arrives. */
  lemma {:induction false} FrameStored(r: Receiver, f: NewCidFrame, k: nat)
    requires !r.zeroLength && Boundary(r.dcids.inner, f.retirePriorTo, k) && Unknown(r, f)
    requires f.retirePriorTo <= r.largestRetirePriorTo <= f.seqNum
    ensures var (r', paths, res) := NewDcid(r, f, k);
      var room := |r.dcids.inner| < r.dcids.capacity;
      && paths == [] && res == (if room then Ok(()) else Err(IdLimit))
      && r' == r.(dcids := r'.dcids, largestSeq := if f.seqNum > r.largestSeq then f.seqNum else r.largestSeq)
      && r'.dcids.capacity == r.dcids.capacity
      && r'.dcids.inner == (if room then r.dcids.inner + [Entry(f.cid, f.seqNum, Some(f.token), None)]
                            else r.dcids.inner)
  {
    UnknownIsNotFound(r, f);
  }

  /** With an empty destination connection ID nothing is accepted. */
  lemma {:induction false} ZeroLengthRejects(r: Receiver, f: NewCidFrame, k: nat)
    requires r.zeroLength && Boundary(r.dcids.inner, f.retirePriorTo, k)
    ensures NewDcid(r, f, k) == (r, [], Err(InvalidState))
  {}

  // ---------- the operations around them ----------

  /** The frame for a stored number carries that entry's value and token and the Retire Prior To in
      force; only entries with a token can be announced. */
  lemma {:induction false} AnnouncesEntry(i: Issuer, e: Entry)
    requires Ascending(i.scids.inner) && e in i.scids.inner
    ensures NewConnectionIdFrame(i, e.seqNum) ==
      if e.token.None? then Err(InvalidState)
      else Ok(NewCidFrame(e.cid, e.seqNum, e.token.value, i.retirePriorTo))
  {
    var es := i.scids.inner;
    var j :| 0 <= j < |es| && es[j] == e;
    var k := i.scids.Position(e.seqNum);
    SeqsMember(es);
    AscendingExact(es);
    assert k < |es| && es[k].seqNum == e.seqNum;
    assert k == j;
  }

  lemma {:induction false} AnnouncesOnlyStored(i: Issuer, seqNum: nat)
    requires forall e <- i.scids.inner :: e.seqNum != seqNum
    ensures NewConnectionIdFrame(i, seqNum) == Err(InvalidState)
  {
    SeqsMember(i.scids.inner);
  }

  /** Marking as announced takes the first occurrence out of the queue and keeps the order of the
      rest; marking for announcement puts the number last. */
  lemma {:induction false} MarksFirst(queue: seq<nat>, seqNum: nat)
    ensures seqNum in queue ==> exists a, b ::
      queue == a + [seqNum] + b && seqNum !in a && MarkAdvertise(queue, seqNum, false) == a + b
    ensures seqNum !in queue ==> MarkAdvertise(queue, seqNum, false) == queue
    ensures MarkAdvertise(queue, seqNum, true) == queue + [seqNum]
  {
    var k := IndexOf(queue, seqNum);
    FirstIndex(queue, seqNum);
    if k < |queue| {
      var a, b := queue[..k], queue[k + 1..];
      assert queue == a + [seqNum] + b && seqNum !in a && MarkAdvertise(queue, seqNum, false) == a + b;
    }
  }

  lemma {:induction false} FirstIndex(s: seq<nat>, x: nat)
    ensures x !in s[..IndexOf(s, x)]
  {
    if s != [] && s[0] != x {
      FirstIndex(s[1..], x);
      var k := IndexOf(s[1..], x);
      assert s[..k + 1] == [s[0]] + s[1..][..k];
    }
  }

  /** The peer's first connection ID is the only one stored, and the last: it cannot be retired. */
  lemma {:induction false} InitialDcid(r: Receiver, cid: ConnId, token: Option<nat>, path: Option<nat>, seqNum: nat)
    ensures var r' := SetInitialDcid(r, cid, token, path);
      && |r'.dcids.inner| == 1
      && var e := r'.dcids.inner[0];
        && e.cid == cid && e.token == token && e.path == path && e.seqNum == 0
        && r'.dcids.capacity == r.dcids.capacity && r' == r.(dcids := r'.dcids, zeroLength := |cid| == 0)
        && RetireDcid(r', seqNum) == (r', if |cid| == 0 then Err(InvalidState) else Err(OutOfIdentifiers))
  {}

  /** How much a new endpoint stores. */
  lemma {:induction false} NewEndpointRoom(cid: ConnId, limit: nat, path: nat, token: Option<nat>)
    ensures var i, r := NewIssuer(cid, path, token), NewReceiver(limit, path);
      && i.limit == 2 && i.scids.capacity == 3 && i.nextSeq == 1 && i.retirePriorTo == 0
      && i.scids.inner == [Entry(cid, 0, token, Some(path))] && i.advertise == [] && i.retired == []
      && r.dcids.capacity == (if limit < 2 then 2 else limit)
      && r.retire.inner == {} && r.dcids.inner == [Entry([], 0, None, Some(path))]
      && (3 * r.dcids.capacity <= 0xFFFF_FFFF_FFFF_FFFF ==> r.retire.capacity == 3 * r.dcids.capacity)
      && (3 * r.dcids.capacity > 0xFFFF_FFFF_FFFF_FFFF ==> r.retire.capacity == 0xFFFF_FFFF_FFFF_FFFF)
  {}

  /** A limit below two is ignored and one above half of `usize` is cut; the deque never shrinks. */
  lemma {:induction false} LimitExact(i: Issuer, value: nat)
    ensures var i' := SetLimit(i, value);
      && (value < 2 ==> i' == i)
      && (2 <= value <= 0x7FFF_FFFF_FFFF_FFFF ==> i'.limit == value)
      && (value > 0x7FFF_FFFF_FFFF_FFFF ==> i'.limit == 0x7FFF_FFFF_FFFF_FFFF)
      && (value >= 2 ==>
            && i' == i.(limit := i'.limit, scids := i'.scids) && i'.scids.inner == i.scids.inner
            && i'.scids.capacity >= i.scids.capacity && i'.scids.capacity >= 2 * i'.limit - 1
            && (i'.scids.capacity == i.scids.capacity || i'.scids.capacity == 2 * i'.limit - 1))
  {}

  /** Storing an entry under a number that is already stored replaces that entry in place. */
  lemma {:induction false} InsertReplaces(d: Deque, e: Entry, k: nat)
    requires Ascending(d.inner) && k < |d.inner| && d.inner[k].seqNum == e.seqNum
    ensures d.Insert(e) == Ok(d.(inner := d.inner[k := e]))
  {
    SeqsAt(d.inner, k);
    AscendingExact(d.inner);
    assert d.Position(e.seqNum) == k;
  }
}
