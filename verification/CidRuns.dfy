/** What every operation of one endpoint's connection-ID bookkeeping keeps, over whole runs. */
module CidRuns {
  import opened Base
  import opened Cid

  // ---------- the issuing half ----------

  function Usable(i: Issuer): set<nat> { AtLeast(Seqs(i.scids.inner), i.retirePriorTo) }

  /** The largest limit the peer ever granted; the deque's capacity is 2 * limit - 1. */
  function LargestLimit(i: Issuer): int { (i.scids.capacity + 1) / 2 }

  predicate IssuerInv(i: Issuer) {
    && 1 <= |i.scids.inner| <= i.scids.capacity
    && Ascending(i.scids.inner)
    && (forall x <- Seqs(i.scids.inner) :: x < i.nextSeq)
    && i.retirePriorTo <= i.nextSeq
    && 2 <= i.limit <= LargestLimit(i)
    && |Usable(i)| <= LargestLimit(i)
  }

  datatype IssuerOp =
    | Mint(cid: ConnId, token: Option<nat>, advertise: bool, path: Option<nat>, retireIfNeeded: bool)
    | Retire(seqNum: nat, pktDcid: ConnId)
    | Limit(value: nat)

  ghost function ApplyIssuer(i: Issuer, op: IssuerOp): Issuer {
    match op
    case Mint(cid, token, advertise, path, force) => NewScid(i, cid, token, advertise, path, force).0
    case Retire(seqNum, pktDcid) => RetireScid(i, seqNum, pktDcid).0
    case Limit(value) => SetLimit(i, value)
  }

  ghost function RunIssuer(i: Issuer, ops: seq<IssuerOp>): Issuer
    decreases |ops|
  {
    if ops == [] then i else RunIssuer(ApplyIssuer(i, ops[0]), ops[1..])
  }

  lemma {:induction false} SplitAt(es: seq<Entry>, k: nat)
    requires Ascending(es) && k <= |es|
    ensures Ascending(es[..k]) && Ascending(es[k..])
    ensures Seqs(es) == Seqs(es[..k]) + Seqs(es[k..]) && Seqs(es[..k]) !! Seqs(es[k..])
  {
    assert es == es[..k] + es[k..];
    SeqsConcat(es[..k], es[k..]);
    AscendingConcat(es[..k], es[k..]);
  }

  /** `es` without the entry at `k` has the same sequence numbers minus that one. */
  lemma {:induction false} RemoveAt(es: seq<Entry>, k: nat)
    requires k < |es| && Ascending(es)
    ensures Ascending(es[..k] + es[k + 1..])
    ensures Seqs(es[..k] + es[k + 1..]) == Seqs(es) - {es[k].seqNum} && es[k].seqNum in Seqs(es)
  {
    SplitAt(es, k);
    assert es == es[..k] + es[k..];
    AscendingConcat(es[..k], es[k..]);
    SeqsConcat(es[..k], es[k + 1..]);
    AscendingConcat(es[..k], es[k + 1..]);
    assert es[k..][1..] == es[k + 1..];
  }

  lemma {:induction false} Append(es: seq<Entry>, e: Entry)
    requires Ascending(es)
    requires forall x <- Seqs(es) :: x < e.seqNum
    ensures Ascending(es + [e])
    ensures Seqs(es + [e]) == Seqs(es) + {e.seqNum}
    ensures e.seqNum !in Seqs(es)
  {
    assert [e][1..] == [];
    SeqsConcat(es, [e]);
    AscendingConcat(es, [e]);
  }

  /** The issuer after `new_scid` has asked for a retirement, if it had to. */
  ghost function Raised(i: Issuer): Issuer {
    match LowestUsable(i.scids.inner, i.retirePriorTo)
    case None => i
    case Some(s) => if |i.scids.inner| >= i.limit then i.(retirePriorTo := s + 1) else i
  }

  function Extended(i: Issuer, e: Entry): Issuer {
    i.(scids := i.scids.(inner := i.scids.inner + [e]), nextSeq := i.nextSeq + 1)
  }

  /** Asking the peer to retire the lowest usable number frees exactly one place. */
  lemma {:induction false} RaisedKeepsInv(i: Issuer)
    requires IssuerInv(i)
    ensures IssuerInv(Raised(i)) && i.retirePriorTo <= Raised(i).retirePriorTo
    ensures (|i.scids.inner| < i.limit || LowestUsable(i.scids.inner, i.retirePriorTo).Some?)
        ==> |Usable(Raised(i))| < LargestLimit(i)
  {
    var seqs := Seqs(i.scids.inner);
    var lowest := LowestUsable(i.scids.inner, i.retirePriorTo);
    if |i.scids.inner| < i.limit {
      UsableAtMostStored(i);
    } else if lowest.Some? {
      assert Usable(Raised(i)) == Usable(i) - {lowest.value};
    }
  }

  lemma {:induction false} AppendKeepsInv(i: Issuer, e: Entry)
    requires IssuerInv(i) && e.seqNum == i.nextSeq
    requires |i.scids.inner| < i.scids.capacity && |Usable(i)| < LargestLimit(i)
    ensures IssuerInv(Extended(i, e))
  {
    Append(i.scids.inner, e);
    assert Usable(Extended(i, e)) == Usable(i) + {e.seqNum};
  }

  lemma {:induction false} RemoveKeepsInv(i: Issuer, k: nat)
    requires IssuerInv(i) && 1 < |i.scids.inner| && k < |i.scids.inner|
    ensures IssuerInv(i.(scids := i.scids.(inner := i.scids.inner[..k] + i.scids.inner[k + 1..])))
  {
    var es := i.scids.inner;
    RemoveAt(es, k);
    var i' := i.(scids := i.scids.(inner := es[..k] + es[k + 1..]));
    SubsetSize(Usable(i'), Usable(i));
  }

  lemma {:induction false} UsableAtMostStored(i: Issuer)
    requires IssuerInv(i)
    ensures |Usable(i)| <= |i.scids.inner|
  {
    AscendingSize(i.scids.inner);
    SubsetSize(Usable(i), Seqs(i.scids.inner));
  }

  /** A fresh number is never found in the deque, so inserting it appends. */
  lemma {:induction false} InsertFresh(d: Deque, e: Entry)
    requires e.seqNum !in Seqs(d.inner)
    ensures d.Insert(e) == if |d.inner| >= d.capacity then Err(IdLimit)
                           else Ok(d.(inner := d.inner + [e]))
  {
  }

  lemma {:induction false} MintShape(i: Issuer, cid: ConnId, token: Option<nat>, advertise: bool,
                                     path: Option<nat>, force: bool)
    requires forall x <- Seqs(i.scids.inner) :: x < i.nextSeq
    ensures var (i', r) := NewScid(i, cid, token, advertise, path, force);
      || i' == i
      || i' == Raised(i)
      || (&& |i.scids.inner| < i.scids.capacity
          && (|i.scids.inner| < i.limit || LowestUsable(i.scids.inner, i.retirePriorTo).Some?)
          && i' == Extended(Raised(i), Entry(cid, i.nextSeq, token, path)).(advertise := i'.advertise))
  {
    InsertFresh(i.scids, Entry(cid, i.nextSeq, token, path));
  }

  lemma {:induction false} MintKeepsInv(i: Issuer, cid: ConnId, token: Option<nat>, advertise: bool,
                                        path: Option<nat>, force: bool)
    requires IssuerInv(i)
    ensures var (i', r) := NewScid(i, cid, token, advertise, path, force);
      && IssuerInv(i')
      && i.retirePriorTo <= i'.retirePriorTo && i.nextSeq <= i'.nextSeq
      && i'.scids.capacity == i.scids.capacity && i'.limit == i.limit
  {
    MintShape(i, cid, token, advertise, path, force);
    var (i', r) := NewScid(i, cid, token, advertise, path, force);
    var e := Entry(cid, i.nextSeq, token, path);
    RaisedKeepsInv(i);
    if i' != i && i' != Raised(i) { AppendKeepsInv(Raised(i), e); }
  }

  lemma {:induction false} RetireShape(i: Issuer, seqNum: nat, pktDcid: ConnId)
    ensures var (i', r) := RetireScid(i, seqNum, pktDcid);
      var k := i.scids.Position(seqNum);
      || i' == i
      || (&& 1 < |i.scids.inner| && k < |i.scids.inner|
          && i'.scids == i.scids.(inner := i.scids.inner[..k] + i.scids.inner[k + 1..])
          && i' == i.(scids := i'.scids, retired := i'.retired, retirePriorTo := i'.retirePriorTo)
          && (|| i'.retirePriorTo == i.retirePriorTo
              || LowestUsable(i'.scids.inner, i.retirePriorTo) == Some(i'.retirePriorTo)))
  {}

  lemma {:induction false} RetireKeepsInv(i: Issuer, seqNum: nat, pktDcid: ConnId)
    requires IssuerInv(i)
    ensures var (i', r) := RetireScid(i, seqNum, pktDcid);
      && IssuerInv(i')
      && i.retirePriorTo <= i'.retirePriorTo && i.nextSeq == i'.nextSeq
      && i'.scids.capacity == i.scids.capacity && i'.limit == i.limit
  {
    RetireShape(i, seqNum, pktDcid);
    var (i', r) := RetireScid(i, seqNum, pktDcid);
    if i' != i {
      RemoveKeepsInv(i, i.scids.Position(seqNum));
      var i1 := i.(scids := i'.scids);
      if i'.retirePriorTo != i.retirePriorTo {
        assert Usable(i') == Usable(i1);
      }
    }
  }

  /** `new_scid` asks for a retirement: it has to, it may, and there is something to retire. */
  predicate Asks(i: Issuer, force: bool) {
    !i.zeroLength && |i.scids.inner| >= i.limit && force && Usable(i) != {}
  }

  /** The value is new and fits, or is already stored with the same token. */
  predicate Storable(i: Issuer, cid: ConnId, token: Option<nat>) {
    var k := IndexOfCid(i.scids.inner, cid);
    if k < |i.scids.inner| then i.scids.inner[k].token == token else |i.scids.inner| < i.scids.capacity
  }

  /** The limit is reached and the caller does not agree to a retirement. */
  predicate Refused(i: Issuer, force: bool) { !i.zeroLength && |i.scids.inner| >= i.limit && !force }

  /** Nothing but the size of the deque stands against storing a new value. */
  predicate NoRoom(i: Issuer, cid: ConnId, token: Option<nat>, force: bool) {
    && !i.zeroLength && (|i.scids.inner| < i.limit || Asks(i, force)) && (token.Some? || i.nextSeq == 0)
    && (forall e <- i.scids.inner :: e.cid != cid) && |i.scids.inner| >= i.scids.capacity
  }

  /** When `new_scid` succeeds, and what it changes: Retire Prior To moves past exactly one usable
      number, the lowest, whenever it asks, even if the call then fails; the rest of the state
      changes only if a new value was stored, under the next number. */
  lemma {:induction false} NewScidExact(i: Issuer, cid: ConnId, token: Option<nat>, advertise: bool,
                                        path: Option<nat>, force: bool)
    requires IssuerInv(i)
    ensures var (i', r) := NewScid(i, cid, token, advertise, path, force);
      var stored := r.Ok? && forall e <- i.scids.inner :: e.cid != cid;
      && (r.Ok? <==>
            && !i.zeroLength && (|i.scids.inner| < i.limit || Asks(i, force))
            && (token.Some? || i.nextSeq == 0) && Storable(i, cid, token))
      && (Asks(i, force) ==> exists lowest ::
            && lowest in Usable(i) && (forall x <- Usable(i) :: lowest <= x)
            && AtLeast(Seqs(i.scids.inner), i'.retirePriorTo) == Usable(i) - {lowest})
      && (!Asks(i, force) ==> i'.retirePriorTo == i.retirePriorTo)
      && (stored ==>
            && r == Ok(i.nextSeq) && i'.nextSeq == i.nextSeq + 1
            && i'.scids.inner == i.scids.inner + [Entry(cid, i.nextSeq, token, path)]
            && i.nextSeq !in Seqs(i.scids.inner)
            && (advertise ==> i'.advertise == i.advertise + [i.nextSeq])
            && (!advertise && i.nextSeq !in i.advertise ==> i'.advertise == i.advertise))
      && (!stored ==> i' == i.(retirePriorTo := i'.retirePriorTo))
      && (r.Ok? && !stored ==> exists e <- i.scids.inner :: e.cid == cid && e.token == token && r.value == e.seqNum)
      && (r.Err? ==> r.error == if Refused(i, force) || NoRoom(i, cid, token, force) then IdLimit else InvalidState)
  {
    InsertFresh(i.scids, Entry(cid, i.nextSeq, token, path));
    if Asks(i, force) { AskedBack(i); }
    var k := IndexOfCid(i.scids.inner, cid);
    assert k < |i.scids.inner| ==> i.scids.inner[k] in i.scids.inner;
  }

  lemma {:induction false} AskedBack(i: Issuer)
    requires Usable(i) != {}
    ensures var lowest := LowestUsable(i.scids.inner, i.retirePriorTo);
      lowest.Some? && AtLeast(Seqs(i.scids.inner), lowest.value + 1) == Usable(i) - {lowest.value}
  {}

  /** When `retire_scid` succeeds, and what it changes.  Retiring a number again is not an error.
      The entry is gone even if the call then fails, because the packet was addressed to it or
      because nothing usable is left. */
  lemma {:induction false} RetireScidExact(i: Issuer, seqNum: nat, pktDcid: ConnId)
    requires IssuerInv(i)
    ensures var (i', r) := RetireScid(i, seqNum, pktDcid);
      var all, rest := Seqs(i.scids.inner), Seqs(i.scids.inner) - {seqNum};
      var k := i.scids.Position(seqNum);
      && (seqNum in all && |i.scids.inner| > 1 ==>
            && k < |i.scids.inner| && i.scids.inner[k].seqNum == seqNum
            && Seqs(i'.scids.inner) == rest
            && (r.Ok? <==> i.scids.inner[k].cid != pktDcid && AtLeast(rest, i.retirePriorTo) != {})
            && (r.Ok? ==>
                  && r.value == i.scids.inner[k].path && i'.retired == i.retired + [i.scids.inner[k].cid]
                  && i'.retirePriorTo in rest && AtLeast(rest, i'.retirePriorTo) == AtLeast(rest, i.retirePriorTo))
            && (r.Err? ==> r.error == InvalidState && i'.retirePriorTo == i.retirePriorTo))
      && (seqNum !in all || |i.scids.inner| == 1 ==>
            && i' == i
            && (r.Ok? <==> seqNum < i.nextSeq && |i.scids.inner| > 1)
            && (r.Ok? ==> r.value == None)
            && (r.Err? ==> r.error == if seqNum >= i.nextSeq then InvalidState else OutOfIdentifiers))
  {
    var k := i.scids.Position(seqNum);
    if k < |i.scids.inner| { RemoveAt(i.scids.inner, k); }
  }

  lemma {:induction false} StepKeepsInv(i: Issuer, op: IssuerOp)
    requires IssuerInv(i)
    ensures var i' := ApplyIssuer(i, op);
      && IssuerInv(i')
      && i.retirePriorTo <= i'.retirePriorTo && i.nextSeq <= i'.nextSeq
      && LargestLimit(i) <= LargestLimit(i')
  {
    match op
    case Mint(cid, token, advertise, path, force) => MintKeepsInv(i, cid, token, advertise, path, force);
    case Retire(seqNum, pktDcid) => RetireKeepsInv(i, seqNum, pktDcid);
    case Limit(value) =>
  }

  /** Every run of `new_scid`, `retire_scid` and limit changes, failing and repeated calls
      included, keeps the issuer's invariant and never lowers Retire Prior To. */
  lemma {:induction false} IssuerRunSafe(i: Issuer, ops: seq<IssuerOp>)
    requires IssuerInv(i)
    ensures var i' := RunIssuer(i, ops);
      && IssuerInv(i')
      && i.retirePriorTo <= i'.retirePriorTo <= i'.nextSeq
      && LargestLimit(i) <= LargestLimit(i')
    decreases |ops|
  {
    if ops != [] {
      StepKeepsInv(i, ops[0]);
      IssuerRunSafe(ApplyIssuer(i, ops[0]), ops[1..]);
    }
  }

  // The peer's limit: how many connection IDs it may be asked to hold at a time.

  predicate WithinLimit(i: Issuer) { |Usable(i)| <= i.limit }

  /** A limit that `set_source_conn_id_limit` accepts covers the connection IDs in use; this is
      known before the call, at the endpoint that makes it. */
  predicate Covers(i: Issuer, op: IssuerOp) {
    op.Limit? && Min(op.value, USIZE_MAX / 2) >= 2 ==> |Usable(i)| <= Min(op.value, USIZE_MAX / 2)
  }

  /** Asking for the lowest usable number back, if at the limit, makes room below it. */
  lemma {:induction false} RaisedWithinLimit(i: Issuer)
    requires IssuerInv(i) && WithinLimit(i)
    ensures WithinLimit(Raised(i))
    ensures (|i.scids.inner| < i.limit || LowestUsable(i.scids.inner, i.retirePriorTo).Some?)
        ==> |Usable(Raised(i))| < i.limit
  {
    if |i.scids.inner| < i.limit {
      UsableAtMostStored(i);
    } else if Usable(i) != {} {
      AskedBack(i);
    }
  }

  lemma {:induction false} MintWithinLimit(i: Issuer, cid: ConnId, token: Option<nat>, advertise: bool,
                                           path: Option<nat>, force: bool)
    requires IssuerInv(i) && WithinLimit(i)
    ensures WithinLimit(NewScid(i, cid, token, advertise, path, force).0)
  {
    var i' := NewScid(i, cid, token, advertise, path, force).0;
    var e := Entry(cid, i.nextSeq, token, path);
    MintShape(i, cid, token, advertise, path, force);
    RaisedWithinLimit(i);
    if i' != i && i' != Raised(i) {
      Append(i.scids.inner, e);
      assert Usable(i') == Usable(Raised(i)) + {e.seqNum};
    }
  }

  lemma {:induction false} RetireWithinLimit(i: Issuer, seqNum: nat, pktDcid: ConnId)
    requires IssuerInv(i) && WithinLimit(i)
    ensures WithinLimit(RetireScid(i, seqNum, pktDcid).0)
  {
    var i' := RetireScid(i, seqNum, pktDcid).0;
    RetireShape(i, seqNum, pktDcid);
    RetireKeepsInv(i, seqNum, pktDcid);
    if i' != i { RemoveAt(i.scids.inner, i.scids.Position(seqNum)); }
    SubsetSize(Usable(i'), Usable(i));
  }

  /** One operation stays within the limit exactly when a limit it sets covers what is in use. */
  lemma {:induction false} StepWithinLimit(i: Issuer, op: IssuerOp)
    requires IssuerInv(i) && WithinLimit(i)
    ensures WithinLimit(ApplyIssuer(i, op)) <==> Covers(i, op)
  {
    match op
    case Mint(cid, token, advertise, path, force) => MintWithinLimit(i, cid, token, advertise, path, force);
    case Retire(seqNum, pktDcid) => RetireWithinLimit(i, seqNum, pktDcid);
    case Limit(value) => assert Usable(SetLimit(i, value)) == Usable(i);
  }

  lemma {:induction false} RunIssuerLast(i: Issuer, ops: seq<IssuerOp>, n: nat)
    requires n < |ops|
    ensures RunIssuer(i, ops[..n + 1]) == ApplyIssuer(RunIssuer(i, ops[..n]), ops[n])
    decreases n
  {
    var init := ops[..n + 1];
    if n == 0 {
      assert init[1..] == [] && ops[..0] == [];
    } else {
      assert init[1..] == ops[1..][..n] && ops[..n][1..] == ops[1..][..n - 1] && init[0] == ops[..n][0] == ops[0];
      RunIssuerLast(ApplyIssuer(i, ops[0]), ops[1..], n - 1);
    }
  }

  lemma {:induction false} CoveredWithinLimit(i: Issuer, ops: seq<IssuerOp>, n: nat)
    requires IssuerInv(i) && WithinLimit(i) && n <= |ops|
    requires forall k :: 0 <= k < n ==> Covers(RunIssuer(i, ops[..k]), ops[k])
    ensures WithinLimit(RunIssuer(i, ops[..n]))
  {
    if n > 0 {
      CoveredWithinLimit(i, ops, n - 1);
      IssuerRunSafe(i, ops[..n - 1]);
      StepWithinLimit(RunIssuer(i, ops[..n - 1]), ops[n - 1]);
      RunIssuerLast(i, ops, n - 1);
    }
  }

  /** Throughout a run the peer is asked to hold no more connection IDs than the limit in force,
      exactly when every limit accepted on the way covers those in use at that time. */
  lemma {:induction false} UsableWithinLimit(i: Issuer, ops: seq<IssuerOp>)
    requires IssuerInv(i) && WithinLimit(i)
    ensures (forall n :: 0 <= n <= |ops| ==> WithinLimit(RunIssuer(i, ops[..n])))
       <==> (forall n :: 0 <= n < |ops| ==> Covers(RunIssuer(i, ops[..n]), ops[n]))
  {
    if forall n :: 0 <= n < |ops| ==> Covers(RunIssuer(i, ops[..n]), ops[n]) {
      forall n | 0 <= n <= |ops| ensures WithinLimit(RunIssuer(i, ops[..n])) { CoveredWithinLimit(i, ops, n); }
    }
    if forall n :: 0 <= n <= |ops| ==> WithinLimit(RunIssuer(i, ops[..n])) {
      forall n | 0 <= n < |ops| ensures Covers(RunIssuer(i, ops[..n]), ops[n]) {
        IssuerRunSafe(i, ops[..n]);
        assert WithinLimit(RunIssuer(i, ops[..n])) && WithinLimit(RunIssuer(i, ops[..n + 1]));
        StepWithinLimit(RunIssuer(i, ops[..n]), ops[n]);
        RunIssuerLast(i, ops, n);
      }
    }
  }

  /** Along the run no accepted limit is below the one in force. */
  predicate LimitsNeverFall(limit: nat, ops: seq<IssuerOp>)
    decreases |ops|
  {
    ops == []
    || match ops[0]
       case Limit(value) =>
         var v := Min(value, USIZE_MAX / 2);
         if v >= 2 then limit <= v && LimitsNeverFall(v, ops[1..]) else LimitsNeverFall(limit, ops[1..])
       case _ => LimitsNeverFall(limit, ops[1..])
  }

  /** Limits that never fall, such as one fixed by the handshake, always cover what is in use, and
      what is stored stays below twice the limit. */
  lemma {:induction false} StoredWithinLimit(i: Issuer, ops: seq<IssuerOp>)
    requires IssuerInv(i) && i.scids.capacity == 2 * i.limit - 1
    requires LimitsNeverFall(i.limit, ops)
    ensures var i' := RunIssuer(i, ops);
      WithinLimit(i') && |i'.scids.inner| <= 2 * i'.limit - 1
    decreases |ops|
  {
    if ops != [] {
      var op := ops[0];
      StepKeepsInv(i, op);
      match op {
        case Mint(cid, token, advertise, path, force) => MintKeepsInv(i, cid, token, advertise, path, force);
        case Retire(seqNum, pktDcid) => RetireKeepsInv(i, seqNum, pktDcid);
        case Limit(value) =>
      }
      StoredWithinLimit(ApplyIssuer(i, op), ops[1..]);
    }
  }

  lemma {:induction false} NewIssuerHolds(cid: ConnId, path: nat, token: Option<nat>)
    ensures var i := NewIssuer(cid, path, token);
      IssuerInv(i) && Usable(i) == {0} && i.scids.capacity == 2 * i.limit - 1
  {
    var i := NewIssuer(cid, path, token);
    OneEntry(i.scids.inner);
    assert Usable(i) == {0};
  }

  // A new endpoint whose peer raises the limit to three, takes two connection IDs, and lowers it.

  const MINT_ONE: IssuerOp := Mint([1], Some(7), true, None, false)
  const MINT_TWO: IssuerOp := Mint([2], Some(8), true, None, false)
  const FALLING: seq<IssuerOp> := [Limit(3), MINT_ONE, MINT_TWO, Limit(2)]

  lemma {:induction false} RunFour(i: Issuer, a: IssuerOp, b: IssuerOp, c: IssuerOp, d: IssuerOp)
    ensures RunIssuer(i, [a, b, c, d]) == ApplyIssuer(ApplyIssuer(ApplyIssuer(ApplyIssuer(i, a), b), c), d)
  {
    var i1 := ApplyIssuer(i, a);
    var i2 := ApplyIssuer(i1, b);
    assert [a, b, c, d][1..] == [b, c, d] && [b, c, d][1..] == [c, d] && [c, d][1..] == [d] && [d][1..] == [];
    assert RunIssuer(i, [a, b, c, d]) == RunIssuer(i1, [b, c, d]) == RunIssuer(i2, [c, d]);
    var i3 := ApplyIssuer(i2, c);
    assert RunIssuer(i2, [c, d]) == RunIssuer(i3, [d]) == RunIssuer(ApplyIssuer(i3, d), []);
  }

  /** Below the limit a new value is stored under the next number. */
  lemma {:induction false} MintFresh(i: Issuer, cid: ConnId, token: nat)
    requires IssuerInv(i) && !i.zeroLength && |i.scids.inner| < i.limit
    requires forall e <- i.scids.inner :: e.cid != cid
    ensures var i' := ApplyIssuer(i, Mint(cid, Some(token), true, None, false));
      && i'.scids == i.scids.(inner := i.scids.inner + [Entry(cid, i.nextSeq, Some(token), None)])
      && i'.nextSeq == i.nextSeq + 1 && i'.retirePriorTo == i.retirePriorTo
      && i'.limit == i.limit && i'.zeroLength == i.zeroLength
      && Seqs(i'.scids.inner) == Seqs(i.scids.inner) + {i.nextSeq} && IssuerInv(i')
  {
    var e := Entry(cid, i.nextSeq, Some(token), None);
    InsertFresh(i.scids, e);
    Append(i.scids.inner, e);
    MintKeepsInv(i, cid, Some(token), true, None, false);
  }

  lemma {:induction false} TwoMints(i: Issuer, a: ConnId, b: ConnId)
    requires IssuerInv(i) && !i.zeroLength && |i.scids.inner| + 1 < i.limit && a != b
    requires forall e <- i.scids.inner :: e.cid != a && e.cid != b
    ensures var i1 := ApplyIssuer(i, Mint(a, Some(7), true, None, false));
      var i2 := ApplyIssuer(i1, Mint(b, Some(8), true, None, false));
      Seqs(i2.scids.inner) == Seqs(i.scids.inner) + {i.nextSeq, i.nextSeq + 1} && i2.retirePriorTo == i.retirePriorTo
  {
    MintFresh(i, a, 7);
    MintFresh(ApplyIssuer(i, Mint(a, Some(7), true, None, false)), b, 8);
  }

  lemma {:induction false} LimitThree()
    ensures var i := SetLimit(NewIssuer([0], 0, None), 3);
      && IssuerInv(i) && i.limit == 3 && i.nextSeq == 1 && i.retirePriorTo == 0 && !i.zeroLength
      && i.scids.inner == [Entry([0], 0, None, Some(0))] && Seqs(i.scids.inner) == {0}
  {
    NewIssuerHolds([0], 0, None);
    StepKeepsInv(NewIssuer([0], 0, None), Limit(3));
    OneEntry(NewIssuer([0], 0, None).scids.inner);
  }

  lemma {:induction false} LowerLimit(i: Issuer, value: nat)
    requires 2 <= value <= USIZE_MAX / 2
    ensures Usable(SetLimit(i, value)) == Usable(i) && SetLimit(i, value).limit == value
  {}

  lemma {:induction false} ThreeInUse()
    ensures var i := SetLimit(NewIssuer([0], 0, None), 3);
      Usable(ApplyIssuer(ApplyIssuer(i, MINT_ONE), MINT_TWO)) == {0, 1, 2}
  {
    LimitThree();
    TwoMints(SetLimit(NewIssuer([0], 0, None), 3), [1], [2]);
  }

  /** Lowering the limit below what is in use breaks the bound: a run from a new endpoint on. */
  lemma {:induction false} FallingLimitBreaksBound()
    ensures var i := NewIssuer([0], 0, None);
      IssuerInv(i) && WithinLimit(i) && !WithinLimit(RunIssuer(i, FALLING))
  {
    NewIssuerHolds([0], 0, None);
    RunFour(NewIssuer([0], 0, None), Limit(3), MINT_ONE, MINT_TWO, Limit(2));
    ThreeInUse();
    LowerLimit(ApplyIssuer(ApplyIssuer(SetLimit(NewIssuer([0], 0, None), 3), MINT_ONE), MINT_TWO), 2);
  }

  // ---------- the receiving half ----------

  predicate ReceiverInv(r: Receiver) {
    && 1 <= |r.dcids.inner| <= r.dcids.capacity
    && Ascending(r.dcids.inner) && Distinct(r.dcids.inner)
    && (forall x <- Seqs(r.dcids.inner) :: r.largestRetirePriorTo <= x <= r.largestSeq)
    && r.largestRetirePriorTo <= r.largestSeq
    && Seqs(r.dcids.inner) !! r.retire.inner
    && (forall s <- r.retire.inner :: s <= r.largestSeq)
    && |r.retire.inner| <= r.retire.capacity
  }

  /** On an ascending deque the binary search's cut is exact. */
  lemma {:induction false} BoundaryExact(es: seq<Entry>, bound: nat, k: nat)
    requires Ascending(es) && Boundary(es, bound, k)
    ensures forall x <- Seqs(es[..k]) :: x < bound
    ensures forall x <- Seqs(es[k..]) :: x >= bound
  {
    SplitAt(es, k);
    if k > 0 {
      assert es[..k] == es[..k - 1] + [es[k - 1]];
      SeqsConcat(es[..k - 1], [es[k - 1]]);
      AscendingConcat(es[..k - 1], [es[k - 1]]);
    }
  }

  lemma {:induction false} FirstIsNew(es: seq<Entry>)
    requires es != [] && |Seqs(es)| == |es|
    ensures es[0].seqNum !in Seqs(es[1..]) && |Seqs(es[1..])| == |es| - 1
  {
    SeqsBound(es[1..]);
  }

  lemma {:induction false} QueueFirst(es: seq<Entry>, retire: SeqSet)
    requires es != [] && |Seqs(es)| == |es| && Seqs(es) !! retire.inner
    ensures var next := retire.inner + {es[0].seqNum};
      && |Seqs(es[1..])| == |es| - 1 && Seqs(es[1..]) !! next && |next| == |retire.inner| + 1
      && next + Seqs(es[1..]) == retire.inner + Seqs(es)
  {
    FirstIsNew(es);
  }

  /** If all entries fit, all are queued and all their paths reported. */
  lemma {:induction false} DrainFits(es: seq<Entry>, retire: SeqSet)
    requires |Seqs(es)| == |es| && Seqs(es) !! retire.inner
    requires |retire.inner| + |es| <= retire.capacity
    ensures Drain(es, retire) == (PathsOf(es), retire.(inner := retire.inner + Seqs(es)), false)
    decreases |es|
  {
    if es == [] {
      assert retire.inner + {} == retire.inner;
    } else {
      var next := retire.(inner := retire.inner + {es[0].seqNum});
      QueueFirst(es, retire);
      DrainFits(es[1..], next);
    }
  }

  /** What fits can be drained first. */
  lemma {:induction false} DrainConcat(a: seq<Entry>, b: seq<Entry>, retire: SeqSet)
    requires !Drain(a, retire).2
    ensures var first := Drain(a, retire);
      var second := Drain(b, first.1);
      Drain(a + b, retire) == (first.0 + second.0, second.1, second.2)
    decreases |a|
  {
    if a == [] {
      assert a + b == b && [] + Drain(b, retire).0 == Drain(b, retire).0;
    } else {
      var next := retire.(inner := retire.inner + {a[0].seqNum});
      DrainConcat(a[1..], b, next);
      var (p, left, _) := Drain(a[1..], next);
      Associative(PathOf(a[0]), p, Drain(b, left).0);
      assert (a + b)[1..] == a[1..] + b by { TailOfConcat(a, b); }
    }
  }

  lemma {:induction false} Associative(x: seq<(nat, nat)>, y: seq<(nat, nat)>, z: seq<(nat, nat)>)
    ensures x + (y + z) == (x + y) + z
  {}

  lemma {:induction false} TailOfConcat(a: seq<Entry>, b: seq<Entry>)
    requires a != []
    ensures (a + b)[1..] == a[1..] + b
  {}

  lemma {:induction false} PathsConcat(a: seq<Entry>, b: seq<Entry>)
    ensures PathsOf(a + b) == PathsOf(a) + PathsOf(b)
  {
    if a == [] {
      assert a + b == b;
    } else {
      assert (a + b)[1..] == a[1..] + b;
      PathsConcat(a[1..], b);
    }
  }

  lemma {:induction false} DrainNothing(es: seq<Entry>, retire: SeqSet)
    requires es != [] && |retire.inner| >= retire.capacity
    ensures Drain(es, retire) == (PathOf(es[0]), retire, true)
  {}

  lemma {:induction false} DrainFull(es: seq<Entry>, retire: SeqSet)
    requires |Seqs(es)| == |es| && Seqs(es) !! retire.inner
    requires |retire.inner| <= retire.capacity < |retire.inner| + |es|
    ensures var room := retire.capacity - |retire.inner|;
      Drain(es, retire) == (PathsOf(es[..room + 1]), retire.(inner := retire.inner + Seqs(es[..room])), true)
  {
    var room := retire.capacity - |retire.inner|;
    var a, b := es[..room], es[room..];
    PrefixSize(es, room);
    DrainFits(a, retire);
    DrainNothing(b, retire.(inner := retire.inner + Seqs(a)));
    DrainConcat(a, b, retire);
    assert a + b == es;
    PathsPrefix(es, room);
  }

  lemma {:induction false} PathsPrefix(es: seq<Entry>, n: nat)
    requires n < |es|
    ensures PathsOf(es[..n + 1]) == PathsOf(es[..n]) + PathOf(es[n])
  {
    var x := [es[n]];
    assert es[..n] + x == es[..n + 1] && x[1..] == [];
    PathsConcat(es[..n], x);
  }

  lemma {:induction false} PrefixSize(es: seq<Entry>, k: nat)
    requires |Seqs(es)| == |es| && k <= |es|
    ensures |Seqs(es[..k])| == k && Seqs(es[..k]) <= Seqs(es)
  {
    assert es == es[..k] + es[k..];
    SeqsConcat(es[..k], es[k..]);
    SeqsBound(es[..k]);
    SeqsBound(es[k..]);
    assert |Seqs(es)| <= |Seqs(es[..k])| + |Seqs(es[k..])|;
  }

  /** Draining distinct, not yet queued entries fails exactly when they do not all fit. */
  lemma {:induction false} DrainExact(es: seq<Entry>, retire: SeqSet)
    requires |Seqs(es)| == |es| && Seqs(es) !! retire.inner
    requires |retire.inner| <= retire.capacity
    ensures var (paths, last, failed) := Drain(es, retire);
      && (failed <==> |retire.inner| + |es| > retire.capacity)
      && (!failed ==> paths == PathsOf(es) && last.inner == retire.inner + Seqs(es))
      && retire.inner <= last.inner <= retire.inner + Seqs(es)
      && last.capacity == retire.capacity && |last.inner| <= last.capacity
      && (failed ==> |last.inner| == last.capacity)
  {
    if |retire.inner| + |es| <= retire.capacity {
      DrainFits(es, retire);
    } else {
      DrainFull(es, retire);
      PrefixSize(es, retire.capacity - |retire.inner|);
    }
  }

  /** What processing a NEW_CONNECTION_ID frame with a new highest sequence number does, in terms
      of the entries below the frame's Retire Prior To and the room left. */
  ghost predicate AcceptsExactly(r: Receiver, f: NewCidFrame, k: nat, r': Receiver, paths: seq<(nat, nat)>,
                                 res: Result<(), Error>)
    requires k <= |r.dcids.inner|
  {
    var dropped, kept := r.dcids.inner[..k], r.dcids.inner[k..];
    var entry := Entry(f.cid, f.seqNum, Some(f.token), None);
    var room := |kept| < r.dcids.capacity;
    var fits := |r.retire.inner| + k <= r.retire.capacity;
    && (forall x <- Seqs(dropped) :: x < f.retirePriorTo)
    && (forall x <- Seqs(kept) :: x >= f.retirePriorTo)
    && r'.dcids == r.dcids.(inner := if room then kept + [entry] else kept)
    && res == (if room && fits then Ok(()) else Err(IdLimit))
    && (fits ==> paths == PathsOf(dropped) && r'.retire.inner == r.retire.inner + Seqs(dropped))
    && (!fits ==> |r'.retire.inner| == r.retire.capacity)
    && r'.largestSeq == f.seqNum
    && r'.largestRetirePriorTo == Max(r.largestRetirePriorTo, f.retirePriorTo)
  }

  /** The outcome of a frame that is neither a duplicate nor malformed, unfolded once. */
  lemma {:induction false} NewDcidUnfold(r: Receiver, f: NewCidFrame, k: nat)
    requires ReceiverInv(r) && !r.zeroLength && Boundary(r.dcids.inner, f.retirePriorTo, k)
    requires f.seqNum > r.largestSeq && f.retirePriorTo <= f.seqNum
    requires forall e <- r.dcids.inner :: e.cid != f.cid
    ensures f.retirePriorTo <= r.largestRetirePriorTo ==> k == 0
    ensures var (paths, retire, failed) := Drain(r.dcids.inner[..k], r.retire);
      var kept := Deque(r.dcids.inner[k..], r.dcids.capacity);
      var entry := Entry(f.cid, f.seqNum, Some(f.token), None);
      var ins := kept.Insert(entry);
      NewDcid(r, f, k) ==
        (Receiver(if ins.Ok? then ins.value else kept, retire,
                  Max(r.largestRetirePriorTo, f.retirePriorTo), f.seqNum, false),
         paths, if ins.Err? then Err(ins.error) else if failed then Err(IdLimit) else Ok(()))
  {
    var es := r.dcids.inner;
    assert IndexOfEither(es, f.cid, f.seqNum) == |es|;
    if f.retirePriorTo <= r.largestRetirePriorTo {
      if k > 0 { SeqsAt(es, k - 1); }
      assert k == 0;
      assert es[..k] == [] && es[k..] == es;
    }
  }

  lemma {:induction false} NewDcidExact(r: Receiver, f: NewCidFrame, k: nat)
    requires ReceiverInv(r) && !r.zeroLength && Boundary(r.dcids.inner, f.retirePriorTo, k)
    requires f.seqNum > r.largestSeq && f.retirePriorTo <= f.seqNum
    requires forall e <- r.dcids.inner :: e.cid != f.cid
    ensures var (r', paths, res) := NewDcid(r, f, k);
      && AcceptsExactly(r, f, k, r', paths, res)
      && r'.retire.inner <= r.retire.inner + Seqs(r.dcids.inner[..k])
      && |r'.retire.inner| <= r'.retire.capacity == r.retire.capacity
  {
    var es := r.dcids.inner;
    NewDcidUnfold(r, f, k);
    BoundaryExact(es, f.retirePriorTo, k);
    SplitAt(es, k);
    AscendingSize(es[..k]);
    DrainExact(es[..k], r.retire);
    InsertFresh(Deque(es[k..], r.dcids.capacity), Entry(f.cid, f.seqNum, Some(f.token), None));
  }

  /** The paths reported and the retire set left behind are those of draining what is dropped, and a
      full retire set is reported in the end (`DroppedFull` says what was queued by then). */
  lemma {:induction false} NewDcidDrains(r: Receiver, f: NewCidFrame, k: nat)
    requires ReceiverInv(r) && !r.zeroLength && Boundary(r.dcids.inner, f.retirePriorTo, k)
    requires f.seqNum > r.largestSeq && f.retirePriorTo <= f.seqNum
    requires forall e <- r.dcids.inner :: e.cid != f.cid
    ensures var (r', paths, res) := NewDcid(r, f, k);
      var d := Drain(r.dcids.inner[..k], r.retire);
      paths == d.0 && r'.retire == d.1 && (d.2 ==> res == Err(IdLimit))
  {
    NewDcidUnfold(r, f, k);
  }

  /** When the retire set cannot take all dropped entries: as many as fit are queued, in order, and
      the paths reported include that of the first one that did not. */
  lemma {:induction false} DroppedFull(es: seq<Entry>, k: nat, retire: SeqSet)
    requires Ascending(es) && Seqs(es) !! retire.inner && k <= |es|
    requires |retire.inner| <= retire.capacity < |retire.inner| + k
    ensures var left := retire.capacity - |retire.inner|;
      Drain(es[..k], retire) == (PathsOf(es[..left + 1]), retire.(inner := retire.inner + Seqs(es[..left])), true)
  {
    var left := retire.capacity - |retire.inner|;
    SplitAt(es, k);
    AscendingSize(es[..k]);
    DrainFull(es[..k], retire);
    assert es[..k][..left + 1] == es[..left + 1] && es[..k][..left] == es[..left];
  }

  lemma {:induction false} StaysDisjoint(dropped: set<nat>, kept: set<nat>, retire: set<nat>, retire': set<nat>,
                                         newest: nat)
    requires dropped !! kept && dropped + kept !! retire && retire' <= retire + dropped
    requires (forall x <- dropped :: x < newest) && (forall x <- kept :: x < newest) && forall x <- retire :: x < newest
    ensures kept + {newest} !! retire' && forall x <- retire' :: x <= newest
  {}

  /** Values stay distinct when entries are dropped at the front or in the middle. */
  lemma {:induction false} DistinctParts(es: seq<Entry>, k: nat)
    requires Distinct(es) && k <= |es|
    ensures Distinct(es[k..]) && (k < |es| ==> Distinct(es[..k] + es[k + 1..]))
  {
    assert es == es[..k] + es[k..];
    DistinctConcat(es[..k], es[k..]);
    if k < |es| {
      assert es[k..] == [es[k]] + es[k + 1..];
      DistinctConcat([es[k]], es[k + 1..]);
      DistinctConcat(es[..k], es[k + 1..]);
    }
  }

  lemma {:induction false} DistinctAppend(es: seq<Entry>, e: Entry)
    requires Distinct(es) && forall x <- es :: x.cid != e.cid
    ensures Distinct(es + [e])
  {
    OneEntry([e]);
    DistinctConcat(es, [e]);
  }

  lemma {:induction false} DistinctReplace(es: seq<Entry>, k: nat, e: Entry)
    requires Distinct(es) && k <= |es| && forall x <- es :: x.cid != e.cid
    ensures Distinct(es[k..]) && Distinct(es[k..] + [e])
  {
    DistinctParts(es, k);
    DistinctAppend(es[k..], e);
  }

  lemma {:induction false} ReplacedEntries(es: seq<Entry>, k: nat, e: Entry, after: seq<Entry>, low: nat)
    requires Ascending(es) && Distinct(es) && k <= |es| && (after == es[k..] || after == es[k..] + [e])
    requires (forall x <- es :: x.cid != e.cid) && (forall x <- Seqs(es) :: x < e.seqNum)
    requires low <= e.seqNum && forall x <- Seqs(es[k..]) :: low <= x
    ensures Ascending(after) && Distinct(after)
    ensures Seqs(after) <= Seqs(es[k..]) + {e.seqNum} && forall x <- Seqs(after) :: low <= x <= e.seqNum
  {
    DistinctReplace(es, k, e);
    SplitAt(es, k);
    Append(es[k..], e);
  }

  /** Dropping a prefix into the retire set and appending a new highest number is safe. */
  lemma {:induction false} ReplaceKeepsInv(r: Receiver, k: nat, entry: Entry, r': Receiver)
    requires ReceiverInv(r) && k <= |r.dcids.inner| && entry.seqNum > r.largestSeq
    requires forall e <- r.dcids.inner :: e.cid != entry.cid
    requires
      var kept := r.dcids.inner[k..];
      r'.dcids == r.dcids.(inner := if |kept| < r.dcids.capacity then kept + [entry] else kept)
    requires r'.retire.inner <= r.retire.inner + Seqs(r.dcids.inner[..k])
    requires |r'.retire.inner| <= r'.retire.capacity
    requires r'.largestSeq == entry.seqNum && r'.largestRetirePriorTo <= entry.seqNum
    requires forall x <- Seqs(r.dcids.inner[k..]) :: r'.largestRetirePriorTo <= x
    ensures ReceiverInv(r')
  {
    var es := r.dcids.inner;
    ReplacedEntries(es, k, entry, r'.dcids.inner, r'.largestRetirePriorTo);
    assert Seqs(es[..k]) !! Seqs(es[k..]) && Seqs(es[..k]) + Seqs(es[k..]) == Seqs(es) by { SplitAt(es, k); }
    StaysDisjoint(Seqs(es[..k]), Seqs(es[k..]), r.retire.inner, r'.retire.inner, entry.seqNum);
  }

  lemma {:induction false} NewDcidKeepsInv(r: Receiver, f: NewCidFrame, k: nat)
    requires ReceiverInv(r) && !r.zeroLength && Boundary(r.dcids.inner, f.retirePriorTo, k)
    requires f.seqNum > r.largestSeq && f.retirePriorTo <= f.seqNum
    requires forall e <- r.dcids.inner :: e.cid != f.cid
    ensures ReceiverInv(NewDcid(r, f, k).0)
  {
    NewDcidExact(r, f, k);
    SplitAt(r.dcids.inner, k);
    ReplaceKeepsInv(r, k, Entry(f.cid, f.seqNum, Some(f.token), None), NewDcid(r, f, k).0);
  }

  /** When `retire_dcid` succeeds, and what it changes.  A full retire set is found out only after
      the entry was removed. */
  lemma {:induction false} RetireDcidExact(r: Receiver, seqNum: nat)
    requires ReceiverInv(r)
    ensures var (r', res) := RetireDcid(r, seqNum);
      var k := r.dcids.Position(seqNum);
      var removed := !r.zeroLength && |r.dcids.inner| > 1 && seqNum in Seqs(r.dcids.inner);
      && (res.Ok? <==> removed && |r.retire.inner| < r.retire.capacity)
      && (res.Ok? ==>
            && k < |r.dcids.inner| && r.dcids.inner[k].seqNum == seqNum && res.value == r.dcids.inner[k].path
            && r'.retire.inner == r.retire.inner + {seqNum} && seqNum !in r.retire.inner)
      && (removed ==> Seqs(r'.dcids.inner) == Seqs(r.dcids.inner) - {seqNum} && Ascending(r'.dcids.inner))
      && (!removed ==> r' == r)
      && (res.Err? ==> r'.retire == r.retire)
      && (res.Err? && removed ==> res.error == IdLimit)
      && (res.Err? && !removed ==>
            res.error == if !r.zeroLength && |r.dcids.inner| == 1 then OutOfIdentifiers else InvalidState)
  {
    var k := r.dcids.Position(seqNum);
    if k < |r.dcids.inner| { RemoveAt(r.dcids.inner, k); }
  }

  lemma {:induction false} RetireDcidKeepsInv(r: Receiver, seqNum: nat)
    requires ReceiverInv(r)
    ensures ReceiverInv(RetireDcid(r, seqNum).0)
  {
    var k := r.dcids.Position(seqNum);
    if |r.dcids.inner| > 1 && k < |r.dcids.inner| {
      RemoveAt(r.dcids.inner, k);
      DistinctParts(r.dcids.inner, k);
    }
  }

  datatype ReceiverOp = Frame(f: NewCidFrame) | RetireOne(seqNum: nat) | Sent(seqNum: nat)

  /** The cut any binary search finds when the deque is ascending. */
  function Cut(es: seq<Entry>, bound: nat): (k: nat)
    ensures Boundary(es, bound, k)
  {
    if es == [] || es[0].seqNum >= bound then 0 else 1 + Cut(es[1..], bound)
  }

  function ApplyReceiver(r: Receiver, op: ReceiverOp): Receiver {
    match op
    case Frame(f) => NewDcid(r, f, Cut(r.dcids.inner, f.retirePriorTo)).0
    case RetireOne(seqNum) => RetireDcid(r, seqNum).0
    case Sent(seqNum) => r.(retire := r.retire.Remove(seqNum))
  }

  /** A frame brings a new highest number, repeats a stored one, or is too late to be stored. */
  predicate InOrder(r: Receiver, op: ReceiverOp) {
    op.Frame? ==> || op.f.seqNum > r.largestSeq
                  || op.f.seqNum in Seqs(r.dcids.inner)
                  || op.f.seqNum < r.largestRetirePriorTo
  }

  lemma {:induction false} FrameKeepsInv(r: Receiver, f: NewCidFrame, k: nat)
    requires ReceiverInv(r) && InOrder(r, Frame(f)) && Boundary(r.dcids.inner, f.retirePriorTo, k)
    ensures ReceiverInv(NewDcid(r, f, k).0)
  {
    var es := r.dcids.inner;
    var dup := IndexOfEither(es, f.cid, f.seqNum);
    if !r.zeroLength && dup == |es| && f.retirePriorTo <= f.seqNum && f.seqNum > r.largestSeq {
      NewDcidKeepsInv(r, f, k);
    }
  }

  function RunReceiver(r: Receiver, ops: seq<ReceiverOp>): Receiver
    decreases |ops|
  {
    if ops == [] then r else RunReceiver(ApplyReceiver(r, ops[0]), ops[1..])
  }

  predicate AllInOrder(r: Receiver, ops: seq<ReceiverOp>)
    decreases |ops|
  {
    ops == [] || (InOrder(r, ops[0]) && AllInOrder(ApplyReceiver(r, ops[0]), ops[1..]))
  }

  /** Whatever Retire Prior To values the peer sends, a run whose frames come in order keeps the
      stored connection IDs sorted, unique, within capacity and never empty. */
  lemma {:induction false} ReceiverRunSafe(r: Receiver, ops: seq<ReceiverOp>)
    requires ReceiverInv(r) && AllInOrder(r, ops)
    ensures ReceiverInv(RunReceiver(r, ops))
    decreases |ops|
  {
    if ops != [] {
      match ops[0] {
        case Frame(f) => FrameKeepsInv(r, f, Cut(r.dcids.inner, f.retirePriorTo));
        case RetireOne(seqNum) => RetireDcidKeepsInv(r, seqNum);
        case Sent(seqNum) =>
          SubsetSize(r.retire.inner - {seqNum}, r.retire.inner);
      }
      ReceiverRunSafe(ApplyReceiver(r, ops[0]), ops[1..]);
    }
  }
}
