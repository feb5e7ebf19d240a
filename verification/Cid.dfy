/** Connection-ID bookkeeping of one endpoint (quiche/src/cid.rs).

    `Issuer` is the half that mints source connection IDs for the peer, `Receiver` the half that
    stores the destination connection IDs the peer announced.  The functions give the effect of
    each operation on these values; the class `ConnectionIdentifiers` holds both halves in
    mutable fields and is verified against them. */
module Cid {
  import opened Base

  type ConnId = seq<Byte>

  datatype Error = IdLimit | OutOfIdentifiers | InvalidFrame | InvalidState

  datatype Entry = Entry(cid: ConnId, seqNum: nat, token: Option<nat>, path: Option<nat>)

  const USIZE_MAX: nat := 0xFFFF_FFFF_FFFF_FFFF

  const RETIRED_CONN_ID_LIMIT_MULTIPLIER: nat := 3

  // ---------- views of a list of entries ----------

  function Seqs(es: seq<Entry>): set<nat> {
    if es == [] then {} else {es[0].seqNum} + Seqs(es[1..])
  }

  function AtLeast(s: set<nat>, bound: nat): set<nat> { set x <- s | x >= bound }

  /** The sequence numbers of `es` strictly increase from front to back. */
  predicate Ascending(es: seq<Entry>) {
    es == [] || ((forall x <- Seqs(es[1..]) :: es[0].seqNum < x) && Ascending(es[1..]))
  }

  /** In terms of positions: every entry has a smaller number than every later one. */
  lemma {:induction false} AscendingExact(es: seq<Entry>)
    ensures Ascending(es) <==> forall i, j :: 0 <= i < j < |es| ==> es[i].seqNum < es[j].seqNum
  {
    if es != [] {
      var rest := es[1..];
      AscendingExact(rest);
      SeqsMember(rest);
      if Ascending(es) {
        forall i, j | 0 <= i < j < |es| ensures es[i].seqNum < es[j].seqNum {
          assert es[j] == rest[j - 1] && (i > 0 ==> es[i] == rest[i - 1]);
        }
      }
      if forall i, j :: 0 <= i < j < |es| ==> es[i].seqNum < es[j].seqNum {
        forall i, j | 0 <= i < j < |rest| ensures rest[i].seqNum < rest[j].seqNum {
          assert rest[i] == es[i + 1] && rest[j] == es[j + 1];
        }
      }
    }
  }

  lemma {:induction false} SeqsMember(es: seq<Entry>)
    ensures forall e <- es :: e.seqNum in Seqs(es)
    ensures forall x <- Seqs(es) :: exists i :: 0 <= i < |es| && es[i].seqNum == x
  {
    if es != [] {
      SeqsMember(es[1..]);
      forall x <- Seqs(es) ensures exists i :: 0 <= i < |es| && es[i].seqNum == x {
        if x != es[0].seqNum {
          assert x in Seqs(es[1..]);
          var i :| 0 <= i < |es[1..]| && es[1..][i].seqNum == x;
          assert es[i + 1].seqNum == x;
        }
      }
    }
  }

  lemma {:induction false} SeqsAt(es: seq<Entry>, k: nat)
    requires k < |es|
    ensures es[k].seqNum in Seqs(es)
  {
    if k > 0 { SeqsAt(es[1..], k - 1); }
  }

  lemma {:induction false} SeqsBound(es: seq<Entry>)
    ensures |Seqs(es)| <= |es|
  {
    if es != [] { SeqsBound(es[1..]); }
  }

  lemma {:induction false} SeqsConcat(a: seq<Entry>, b: seq<Entry>)
    ensures Seqs(a + b) == Seqs(a) + Seqs(b)
  {
    if a == [] {
      assert a + b == b;
    } else {
      assert (a + b)[1..] == a[1..] + b;
      SeqsConcat(a[1..], b);
    }
  }

  /** No two entries hold the same value. */
  predicate Distinct(es: seq<Entry>) {
    es == [] || ((forall e <- es[1..] :: e.cid != es[0].cid) && Distinct(es[1..]))
  }

  lemma {:induction false} OneEntry(es: seq<Entry>)
    requires |es| == 1
    ensures Seqs(es) == {es[0].seqNum} && Ascending(es) && Distinct(es)
  {
    assert es[1..] == [];
  }

  lemma {:induction false} DistinctConcat(a: seq<Entry>, b: seq<Entry>)
    ensures Distinct(a + b) <==> Distinct(a) && Distinct(b) && forall x <- a, y <- b :: x.cid != y.cid
  {
    if a == [] {
      assert a + b == b;
    } else {
      assert (a + b)[1..] == a[1..] + b && (a + b)[0] == a[0];
      DistinctConcat(a[1..], b);
      assert forall e <- a[1..] + b :: e in a[1..] || e in b;
      assert forall e <- b :: e in a[1..] + b;
      assert forall e <- a[1..] :: e in a[1..] + b;
      assert forall x <- a :: x == a[0] || x in a[1..];
    }
  }

  lemma {:induction false} DistinctAt(es: seq<Entry>, i: nat, j: nat)
    requires Distinct(es) && i < j < |es|
    ensures es[i].cid != es[j].cid
  {
    if i == 0 {
      assert es[1..][j - 1] == es[j];
    } else {
      DistinctAt(es[1..], i - 1, j - 1);
    }
  }

  lemma {:induction false} AscendingSize(es: seq<Entry>)
    requires Ascending(es)
    ensures |Seqs(es)| == |es|
  {
    if es != [] { AscendingSize(es[1..]); }
  }

  predicate Before(s: set<nat>, t: set<nat>) { forall x <- s, y <- t :: x < y }

  lemma {:induction false} AscendingConcat(a: seq<Entry>, b: seq<Entry>)
    ensures Ascending(a + b) <==>
      Ascending(a) && Ascending(b) && Before(Seqs(a), Seqs(b))
  {
    if a == [] {
      assert a + b == b;
    } else {
      assert (a + b)[1..] == a[1..] + b && (a + b)[0] == a[0];
      AscendingConcat(a[1..], b);
      SeqsConcat(a[1..], b);
    }
  }

  // ---------- searches: the first index that matches, or the length ----------

  function IndexOfSeq(es: seq<Entry>, seqNum: nat): (k: nat)
    ensures k <= |es| && (k < |es| ==> es[k].seqNum == seqNum)
    ensures k == |es| <==> seqNum !in Seqs(es)
  {
    if es == [] || es[0].seqNum == seqNum then 0 else 1 + IndexOfSeq(es[1..], seqNum)
  }

  function IndexOfCid(es: seq<Entry>, cid: ConnId): (k: nat)
    ensures k <= |es| && (k < |es| ==> es[k].cid == cid)
    ensures k == |es| <==> forall e <- es :: e.cid != cid
  {
    if es == [] || es[0].cid == cid then 0 else 1 + IndexOfCid(es[1..], cid)
  }

  function IndexOfEither(es: seq<Entry>, cid: ConnId, seqNum: nat): (k: nat)
    ensures k <= |es| && (k < |es| ==> es[k].cid == cid || es[k].seqNum == seqNum)
    ensures k == |es| <==> (forall e <- es :: e.cid != cid) && seqNum !in Seqs(es)
  {
    if es == [] || es[0].cid == cid || es[0].seqNum == seqNum then 0
    else 1 + IndexOfEither(es[1..], cid, seqNum)
  }

  // ---------- the bounded containers ----------

  /** BoundedConnectionIdSeqSet. */
  datatype SeqSet = SeqSet(inner: set<nat>, capacity: nat) {
    function Insert(e: nat): Result<SeqSet, Error> {
      if |inner| >= capacity then Err(IdLimit) else Ok(this.(inner := inner + {e}))
    }

    function Remove(e: nat): SeqSet { this.(inner := inner - {e}) }
  }

  /** BoundedNonEmptyConnectionIdVecDeque. */
  datatype Deque = Deque(inner: seq<Entry>, capacity: nat) {
    function Position(seqNum: nat): nat { IndexOfSeq(inner, seqNum) }

    function Resize(newCapacity: nat): Deque {
      if newCapacity > capacity then this.(capacity := newCapacity) else this
    }

    function Insert(e: Entry): Result<Deque, Error> {
      var k := Position(e.seqNum);
      if k < |inner| then Ok(this.(inner := inner[k := e]))
      else if |inner| >= capacity then Err(IdLimit)
      else Ok(this.(inner := inner + [e]))
    }

    function Remove(seqNum: nat): Result<(Deque, Option<Entry>), Error> {
      if |inner| <= 1 then Err(OutOfIdentifiers)
      else
        var k := Position(seqNum);
        if k < |inner| then Ok((this.(inner := inner[..k] + inner[k + 1..]), Some(inner[k])))
        else Ok((this, None))
    }
  }

  // ---------- issuing source connection IDs ----------

  datatype Issuer = Issuer(
    scids: Deque,
    advertise: seq<nat>,
    retired: seq<ConnId>,
    nextSeq: nat,
    retirePriorTo: nat,
    limit: nat,
    zeroLength: bool)

  /** A new endpoint, before the peer's limit is known: it assumes a limit of two. */
  function NewIssuer(cid: ConnId, path: nat, token: Option<nat>): Issuer {
    Issuer(Deque([Entry(cid, 0, token, Some(path))], 3), [], [], 1, 0, 2, cid == [])
  }

  /** The least element of a set, if it has one. */
  ghost function Least(s: set<nat>): (r: Option<nat>)
    ensures r.None? <==> s == {}
    ensures r.Some? ==> r.value in s && forall x <- s :: r.value <= x
  {
    if s == {} then None
    else
      LeastExists(s);
      var m :| m in s && forall x <- s :: m <= x;
      Some(m)
  }

  lemma {:induction false} LeastExists(s: set<nat>)
    requires s != {}
    ensures exists m :: m in s && forall x <- s :: m <= x
  {
    var y :| y in s;
    if s - {y} == {} {
      assert s == {y};
    } else {
      LeastExists(s - {y});
      var m :| m in s - {y} && forall x <- s - {y} :: m <= x;
      assert forall x <- s :: x == y || x in s - {y};
      assert Min(m, y) in s && forall x <- s :: Min(m, y) <= x;
    }
  }

  /** The lowest sequence number whose retirement has not been requested yet. */
  ghost function LowestUsable(es: seq<Entry>, retirePriorTo: nat): Option<nat> {
    Least(AtLeast(Seqs(es), retirePriorTo))
  }

  function MarkAdvertise(queue: seq<nat>, seqNum: nat, advertise: bool): seq<nat> {
    if advertise then queue + [seqNum]
    else
      var k := IndexOf(queue, seqNum);
      if k < |queue| then queue[..k] + queue[k + 1..] else queue
  }

  /** Stores a new source connection ID unless it is malformed, known or does not fit. */
  function AddScid(i: Issuer, cid: ConnId, token: Option<nat>, advertise: bool, path: Option<nat>)
    : (Issuer, Result<nat, Error>)
  {
    var es := i.scids.inner;
    var k := IndexOfCid(es, cid);
    if token.None? && i.nextSeq != 0 then (i, Err(InvalidState))
    else if k < |es| then
      (i, if es[k].token != token then Err(InvalidState) else Ok(es[k].seqNum))
    else
      match i.scids.Insert(Entry(cid, i.nextSeq, token, path))
      case Err(e) => (i, Err(e))
      case Ok(d) =>
        (i.(scids := d, nextSeq := i.nextSeq + 1,
            advertise := MarkAdvertise(i.advertise, i.nextSeq, advertise)),
         Ok(i.nextSeq))
  }

  /** Retire Prior To moves before the connection ID is examined, so also for calls that fail. */
  ghost function NewScid(i: Issuer, cid: ConnId, token: Option<nat>, advertise: bool,
                         path: Option<nat>, retireIfNeeded: bool): (Issuer, Result<nat, Error>)
  {
    var full := |i.scids.inner| >= i.limit;
    var lowest := LowestUsable(i.scids.inner, i.retirePriorTo);
    if i.zeroLength then (i, Err(InvalidState))
    else if full && !retireIfNeeded then (i, Err(IdLimit))
    else if full && lowest.None? then (i, Err(InvalidState))
    else
      AddScid(if full then i.(retirePriorTo := lowest.value + 1) else i, cid, token, advertise, path)
  }

  ghost function RetireScid(i: Issuer, seqNum: nat, pktDcid: ConnId): (Issuer, Result<Option<nat>, Error>)
  {
    if seqNum >= i.nextSeq then (i, Err(InvalidState))
    else
      match i.scids.Remove(seqNum)
      case Err(e) => (i, Err(e))
      case Ok((d, None)) => (i, Ok(None))
      case Ok((d, Some(e))) =>
        var i1 := i.(scids := d);
        if e.cid == pktDcid then (i1, Err(InvalidState))
        else
          var i2 := i1.(retired := i.retired + [e.cid]);
          match LowestUsable(d.inner, i.retirePriorTo)
          case None => (i2, Err(InvalidState))
          case Some(s) => (i2.(retirePriorTo := s), Ok(e.path))
  }

  function SetLimit(i: Issuer, value: nat): Issuer {
    var v := Min(value, USIZE_MAX / 2);
    if v >= 2 then i.(limit := v, scids := i.scids.Resize(2 * v - 1)) else i
  }

  /** The NEW_CONNECTION_ID frame for a stored source connection ID; it carries the Retire Prior
      To value in force when the frame is built. */
  function NewConnectionIdFrame(i: Issuer, seqNum: nat): Result<NewCidFrame, Error> {
    var k := i.scids.Position(seqNum);
    if k == |i.scids.inner| then Err(InvalidState)
    else
      match i.scids.inner[k].token
      case None => Err(InvalidState)
      case Some(t) => Ok(NewCidFrame(i.scids.inner[k].cid, seqNum, t, i.retirePriorTo))
  }

  // ---------- storing destination connection IDs ----------

  datatype Receiver = Receiver(
    dcids: Deque,
    retire: SeqSet,
    largestRetirePriorTo: nat,
    largestSeq: nat,
    zeroLength: bool)

  /** A new endpoint, before the peer's first connection ID is known; the limit is at least two. */
  function NewReceiver(limit: nat, path: nat): Receiver {
    var most := Max(2, limit);
    Receiver(Deque([Entry([], 0, None, Some(path))], most),
             SeqSet({}, Min(USIZE_MAX, most * RETIRED_CONN_ID_LIMIT_MULTIPLIER)), 0, 0, false)
  }

  /** The peer's first connection ID replaces whatever is stored. */
  function SetInitialDcid(r: Receiver, cid: ConnId, token: Option<nat>, path: Option<nat>): Receiver {
    r.(dcids := r.dcids.(inner := [Entry(cid, 0, token, path)]), zeroLength := cid == [])
  }

  datatype NewCidFrame = NewCidFrame(cid: ConnId, seqNum: nat, token: nat, retirePriorTo: nat)

  /** What a binary search for the first entry at or above `bound` guarantees on any deque: the
      entry before the cut is below the bound and the entry after it is not. */
  predicate Boundary(es: seq<Entry>, bound: nat, k: nat) {
    && k <= |es|
    && (k > 0 ==> es[k - 1].seqNum < bound)
    && (k < |es| ==> es[k].seqNum >= bound)
  }

  function PathOf(e: Entry): seq<(nat, nat)> {
    if e.path.Some? then [(e.seqNum, e.path.value)] else []
  }

  function PathsOf(es: seq<Entry>): seq<(nat, nat)> {
    if es == [] then [] else PathOf(es[0]) + PathsOf(es[1..])
  }

  /** Moves the entries `es` into the retire set, stopping at the first one that does not fit.
      Returns the reported paths, the new set and whether an entry did not fit. */
  function Drain(es: seq<Entry>, retire: SeqSet): (seq<(nat, nat)>, SeqSet, bool) {
    if es == [] then ([], retire, false)
    else
      match retire.Insert(es[0].seqNum)
      case Err(_) => (PathOf(es[0]), retire, true)
      case Ok(next) =>
        var (paths, last, failed) := Drain(es[1..], next);
        (PathOf(es[0]) + paths, last, failed)
  }

  /** Processes a NEW_CONNECTION_ID frame; `k` is the cut the binary search returned. */
  function NewDcid(r: Receiver, f: NewCidFrame, k: nat)
    : (Receiver, seq<(nat, nat)>, Result<(), Error>)
    requires Boundary(r.dcids.inner, f.retirePriorTo, k)
  {
    var es := r.dcids.inner;
    var dup := IndexOfEither(es, f.cid, f.seqNum);
    if r.zeroLength then (r, [], Err(InvalidState))
    else if dup < |es| then
      (r, [], if es[dup].cid != f.cid || es[dup].seqNum != f.seqNum || es[dup].token != Some(f.token)
              then Err(InvalidFrame) else Ok(()))
    else if f.retirePriorTo > f.seqNum then (r, [], Err(InvalidFrame))
    else if f.seqNum < r.largestRetirePriorTo then
      match r.retire.Insert(f.seqNum) {
        case Err(e) => (r, [], Err(e))
        case Ok(set') => (r.(retire := set'), [], Ok(()))
      }
    else
      var r1 := r.(largestSeq := Max(r.largestSeq, f.seqNum));
      var rises := f.retirePriorTo > r.largestRetirePriorTo;
      var (paths, retire, failed) := if rises then Drain(es[..k], r.retire) else ([], r.retire, false);
      var r2 := if rises
                then r1.(dcids := r.dcids.(inner := es[k..]), retire := retire,
                         largestRetirePriorTo := f.retirePriorTo)
                else r1;
      match r2.dcids.Insert(Entry(f.cid, f.seqNum, Some(f.token), None))
      case Err(e) => (r2, paths, Err(e))
      case Ok(d) => (r2.(dcids := d), paths, if failed then Err(IdLimit) else Ok(()))
  }

  function RetireDcid(r: Receiver, seqNum: nat): (Receiver, Result<Option<nat>, Error>) {
    if r.zeroLength then (r, Err(InvalidState))
    else
      match r.dcids.Remove(seqNum)
      case Err(e) => (r, Err(e))
      case Ok((_, None)) => (r, Err(InvalidState))
      case Ok((d, Some(e))) =>
        match r.retire.Insert(seqNum)
        case Err(err) => (r.(dcids := d), Err(err))
        case Ok(set') => (r.(dcids := d, retire := set'), Ok(e.path))
  }
}
