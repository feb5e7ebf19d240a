/** The connection-ID protocol between two endpoints that both run quiche/src/cid.rs.

    One endpoint issues connection IDs, the other stores and retires them.  NEW_CONNECTION_ID and
    RETIRE_CONNECTION_ID frames travel in order and without loss.  Both ends use the limit `L`.
    The theorems hold for every interleaving of the six steps below. */
module CidProtocol {
  import opened Base
  import opened Cid
  import opened CidRuns

  /** `pktDcid` is the connection ID the packet carrying the frame was addressed to. */
  datatype RetireFrame = RetireFrame(seqNum: nat, pktDcid: ConnId)

  datatype Sys = Sys(
    limit: nat,
    issuer: Issuer,
    receiver: Receiver,
    announce: seq<NewCidFrame>,
    retires: seq<RetireFrame>)

  datatype Step =
    | MintCid(cid: ConnId, token: nat, path: Option<nat>, retireIfNeeded: bool)
    | Announce
    | DeliverNew(cut: nat)
    | RetireOwn(seqNum: nat)
    | SendRetire(seqNum: nat, via: nat)
    | DeliverRetire

  /** What the two applications and the network agree to do; every guard is visible to the
      endpoint that takes the step. */
  predicate Enabled(s: Sys, step: Step) {
    match step
    case MintCid(cid, token, path, force) =>
      && s.issuer.advertise == []
      && |s.issuer.scids.inner| < 2 * s.limit - 1
      && (forall e <- s.issuer.scids.inner :: e.cid != cid)
      && (force || |s.issuer.scids.inner| < s.limit)
    case Announce => s.issuer.advertise != []
    case DeliverNew(cut) =>
      s.announce != [] && Boundary(s.receiver.dcids.inner, s.announce[0].retirePriorTo, cut)
    case RetireOwn(seqNum) =>
      |s.receiver.dcids.inner| > 1 && seqNum in Seqs(s.receiver.dcids.inner)
    case SendRetire(seqNum, via) =>
      seqNum in s.receiver.retire.inner && via < |s.receiver.dcids.inner|
    case DeliverRetire => s.retires != []
  }

  /** The state after a step, and the error the code reported, if any. */
  ghost function Apply(s: Sys, step: Step): (Sys, Option<Error>)
    requires Enabled(s, step)
  {
    match step
    case MintCid(cid, token, path, force) =>
      var (i, r) := NewScid(s.issuer, cid, Some(token), true, path, force);
      (s.(issuer := i), if r.Err? then Some(r.error) else None)
    case Announce =>
      var seqNum := s.issuer.advertise[0];
      var r := NewConnectionIdFrame(s.issuer, seqNum);
      if r.Err? then (s, Some(r.error))
      else (s.(issuer := s.issuer.(advertise := MarkAdvertise(s.issuer.advertise, seqNum, false)),
               announce := s.announce + [r.value]), None)
    case DeliverNew(cut) =>
      var (r', paths, res) := NewDcid(s.receiver, s.announce[0], cut);
      (s.(receiver := r', announce := s.announce[1..]), if res.Err? then Some(res.error) else None)
    case RetireOwn(seqNum) =>
      var (r', res) := RetireDcid(s.receiver, seqNum);
      (s.(receiver := r'), if res.Err? then Some(res.error) else None)
    case SendRetire(seqNum, via) =>
      (s.(receiver := s.receiver.(retire := s.receiver.retire.Remove(seqNum)),
          retires := s.retires + [RetireFrame(seqNum, s.receiver.dcids.inner[via].cid)]), None)
    case DeliverRetire =>
      var (i, r) := RetireScid(s.issuer, s.retires[0].seqNum, s.retires[0].pktDcid);
      (s.(issuer := i, retires := s.retires[1..]), if r.Err? then Some(r.error) else None)
  }

  // ---------- views of the channels ----------

  function FrameSeqs(fs: seq<NewCidFrame>): set<nat> {
    if fs == [] then {} else {fs[0].seqNum} + FrameSeqs(fs[1..])
  }

  function RetireSeqs(gs: seq<RetireFrame>): set<nat> {
    if gs == [] then {} else {gs[0].seqNum} + RetireSeqs(gs[1..])
  }

  function AdvertiseSeqs(q: seq<nat>): set<nat> {
    if q == [] then {} else {q[0]} + AdvertiseSeqs(q[1..])
  }

  /** Sequence number and value of each stored entry, and of each announced one. */
  function Ids(es: seq<Entry>): set<(nat, ConnId)> {
    if es == [] then {} else {(es[0].seqNum, es[0].cid)} + Ids(es[1..])
  }

  function FrameIds(fs: seq<NewCidFrame>): set<(nat, ConnId)> {
    if fs == [] then {} else {(fs[0].seqNum, fs[0].cid)} + FrameIds(fs[1..])
  }

  /** Announcements carry increasing numbers and never lower Retire Prior To. */
  predicate InSequence(lastSeq: nat, lastRetire: nat, fs: seq<NewCidFrame>)
    decreases |fs|
  {
    fs == [] ||
    (&& lastSeq < fs[0].seqNum && lastRetire <= fs[0].retirePriorTo <= fs[0].seqNum
     && InSequence(fs[0].seqNum, fs[0].retirePriorTo, fs[1..]))
  }

  function LastSeq(lastSeq: nat, fs: seq<NewCidFrame>): nat {
    if fs == [] then lastSeq else fs[|fs| - 1].seqNum
  }

  function LastRetire(lastRetire: nat, fs: seq<NewCidFrame>): nat {
    if fs == [] then lastRetire else fs[|fs| - 1].retirePriorTo
  }

  /** When the announcements `fs` arrive one after the other at an endpoint that holds `held`,
      each leaves at most `limit` connection IDs at or above its Retire Prior To. */
  predicate Roomy(held: set<nat>, fs: seq<NewCidFrame>, limit: nat)
    decreases |fs|
  {
    fs == [] ||
    (&& |AtLeast(held + {fs[0].seqNum}, fs[0].retirePriorTo)| <= limit
     && Roomy(held + {fs[0].seqNum}, fs[1..], limit))
  }

  // ---------- the invariant ----------

  function Held(s: Sys): set<nat> { Seqs(s.receiver.dcids.inner) }

  function Queued(s: Sys): set<nat> { AdvertiseSeqs(s.issuer.advertise) }

  function Announced(s: Sys): set<nat> { FrameSeqs(s.announce) }

  function Pending(s: Sys): set<nat> { s.receiver.retire.inner }

  function Retiring(s: Sys): set<nat> { RetireSeqs(s.retires) }

  /** `all` is the disjoint union of the five parts. */
  predicate Partition(all: set<nat>, a: set<nat>, b: set<nat>, c: set<nat>, d: set<nat>, e: set<nat>) {
    && (forall x <- all :: x in a || x in b || x in c || x in d || x in e)
    && a <= all && b <= all && c <= all && d <= all && e <= all
    && a !! b && a !! c && a !! d && a !! e
    && b !! c && b !! d && b !! e
    && c !! d && c !! e && d !! e
  }

  /** Every stored source connection ID is in exactly one place: waiting to be announced,
      announced, held by the peer, waiting to be retired, or being retired. */
  predicate Conserved(s: Sys) {
    && Partition(Seqs(s.issuer.scids.inner), Held(s), Queued(s), Announced(s), Pending(s), Retiring(s))
    && |Retiring(s)| == |s.retires|
  }

  /** The receiver has room for the limit the issuer was told, and its retire set, three times the
      limit or all of `usize`, for twice the limit. */
  predicate Configured(s: Sys) {
    && s.limit >= 2
    && s.issuer.limit == s.limit && s.issuer.scids.capacity == 2 * s.limit - 1
    && s.receiver.dcids.capacity >= s.limit
    && s.receiver.retire.capacity >= 2 * s.limit - 1
    && !s.issuer.zeroLength && !s.receiver.zeroLength
  }

  /** How the two ends' views of sequence numbers and Retire Prior To fit together. */
  predicate Synced(s: Sys) {
    var lastRetire := LastRetire(s.receiver.largestRetirePriorTo, s.announce);
    && InSequence(s.receiver.largestSeq, s.receiver.largestRetirePriorTo, s.announce)
    && lastRetire <= s.issuer.retirePriorTo
    && s.issuer.nextSeq == LastSeq(s.receiver.largestSeq, s.announce) + 1 + |s.issuer.advertise|
    && (s.issuer.advertise == [] || s.issuer.advertise == [s.issuer.nextSeq - 1])
    && (s.issuer.advertise != [] ==> s.issuer.retirePriorTo < s.issuer.nextSeq)
    && (s.issuer.advertise == [] ==>
          && (forall x <- Held(s) :: x >= lastRetire ==> x >= s.issuer.retirePriorTo)
          && (forall x <- Announced(s) :: x >= lastRetire ==> x >= s.issuer.retirePriorTo))
  }

  /** Both ends agree on the value behind a sequence number, and no RETIRE_CONNECTION_ID frame
      travels in a packet addressed to the connection ID it retires. */
  predicate Named(s: Sys) {
    var ids := Ids(s.issuer.scids.inner);
    && (forall p <- ids, q <- ids :: p.1 == q.1 ==> p.0 == q.0)
    && Ids(s.receiver.dcids.inner) <= ids && FrameIds(s.announce) <= ids
    && (forall g <- s.retires :: (g.seqNum, g.pktDcid) !in ids)
    && (forall e <- s.issuer.scids.inner :: e.seqNum == 0 || e.token.Some?)
  }

  predicate Inv(s: Sys) {
    && Configured(s)
    && IssuerInv(s.issuer)
    && ReceiverInv(s.receiver)
    && Conserved(s)
    && Synced(s)
    && Roomy(Held(s), s.announce, s.limit)
    && Named(s)
  }

  /** Right after the handshake: one connection ID, known to both ends. */
  predicate Init(s: Sys) {
    && Configured(s)
    && |s.issuer.scids.inner| == 1 && |s.receiver.dcids.inner| == 1
    && s.issuer.scids.inner[0].seqNum == 0 && s.receiver.dcids.inner[0].seqNum == 0
    && s.issuer.scids.inner[0].cid == s.receiver.dcids.inner[0].cid
    && s.issuer.advertise == [] && s.issuer.nextSeq == 1 && s.issuer.retirePriorTo == 0
    && s.receiver.retire.inner == {}
    && s.receiver.largestSeq == 0 && s.receiver.largestRetirePriorTo == 0
    && s.announce == [] && s.retires == []
  }

  // ---------- lemmas about the views ----------

  lemma {:induction false} IdsConcat(a: seq<Entry>, b: seq<Entry>)
    ensures Ids(a + b) == Ids(a) + Ids(b)
  {
    if a == [] {
      assert a + b == b;
    } else {
      assert (a + b)[1..] == a[1..] + b;
      IdsConcat(a[1..], b);
    }
  }

  lemma {:induction false} IdsSeqs(es: seq<Entry>)
    ensures forall p <- Ids(es) :: p.0 in Seqs(es)
  {
    if es != [] { IdsSeqs(es[1..]); }
  }

  lemma {:induction false} FrameIdsSeqs(fs: seq<NewCidFrame>)
    ensures forall p <- FrameIds(fs) :: p.0 in FrameSeqs(fs)
  {
    if fs != [] { FrameIdsSeqs(fs[1..]); }
  }

  lemma {:induction false} IdsMember(es: seq<Entry>, k: nat)
    requires k < |es|
    ensures (es[k].seqNum, es[k].cid) in Ids(es) && es[k].seqNum in Seqs(es)
  {
    if k > 0 { IdsMember(es[1..], k - 1); }
  }

  lemma {:induction false} IdsEntry(es: seq<Entry>, p: (nat, ConnId))
    requires p in Ids(es)
    ensures exists k :: 0 <= k < |es| && es[k].seqNum == p.0 && es[k].cid == p.1
  {
    if p != (es[0].seqNum, es[0].cid) {
      IdsEntry(es[1..], p);
      var k :| 0 <= k < |es[1..]| && es[1..][k].seqNum == p.0 && es[1..][k].cid == p.1;
      assert es[k + 1] == es[1..][k];
    }
  }

  lemma {:induction false} AdvertiseOne(n: nat)
    ensures AdvertiseSeqs([n]) == {n} && AdvertiseSeqs([]) == {}
  {
    assert [n][1..] == [];
  }

  lemma {:induction false} AnnounceViews(fs: seq<NewCidFrame>, f: NewCidFrame)
    ensures FrameSeqs(fs + [f]) == FrameSeqs(fs) + {f.seqNum}
    ensures FrameIds(fs + [f]) == FrameIds(fs) + {(f.seqNum, f.cid)}
  {
    if fs == [] {
      assert fs + [f] == [f];
    } else {
      assert (fs + [f])[1..] == fs[1..] + [f];
      AnnounceViews(fs[1..], f);
    }
  }

  lemma {:induction false} RetireViews(gs: seq<RetireFrame>, g: RetireFrame)
    ensures RetireSeqs(gs + [g]) == RetireSeqs(gs) + {g.seqNum}
  {
    if gs == [] {
      assert gs + [g] == [g];
    } else {
      assert (gs + [g])[1..] == gs[1..] + [g];
      RetireViews(gs[1..], g);
    }
  }

  lemma {:induction false} RetireSeqsMember(gs: seq<RetireFrame>, g: RetireFrame)
    requires g in gs
    ensures g.seqNum in RetireSeqs(gs)
  {
    if g != gs[0] { RetireSeqsMember(gs[1..], g); }
  }

  lemma {:induction false} RetireSeqsBound(gs: seq<RetireFrame>)
    ensures |RetireSeqs(gs)| <= |gs|
  {
    if gs != [] { RetireSeqsBound(gs[1..]); }
  }

  lemma {:induction false} InSequenceBounds(lastSeq: nat, lastRetire: nat, fs: seq<NewCidFrame>)
    requires InSequence(lastSeq, lastRetire, fs)
    ensures forall x <- FrameSeqs(fs) :: lastSeq < x <= LastSeq(lastSeq, fs)
    ensures lastSeq <= LastSeq(lastSeq, fs) && lastRetire <= LastRetire(lastRetire, fs)
    ensures fs != [] ==> LastRetire(lastRetire, fs) <= LastSeq(lastSeq, fs) && LastSeq(lastSeq, fs) in FrameSeqs(fs)
    decreases |fs|
  {
    if fs != [] {
      InSequenceBounds(fs[0].seqNum, fs[0].retirePriorTo, fs[1..]);
      assert LastSeq(fs[0].seqNum, fs[1..]) == LastSeq(lastSeq, fs);
    }
  }

  lemma {:induction false} InSequenceAppend(lastSeq: nat, lastRetire: nat, fs: seq<NewCidFrame>, f: NewCidFrame)
    requires InSequence(lastSeq, lastRetire, fs)
    requires LastSeq(lastSeq, fs) < f.seqNum && LastRetire(lastRetire, fs) <= f.retirePriorTo <= f.seqNum
    ensures InSequence(lastSeq, lastRetire, fs + [f])
    decreases |fs|
  {
    if fs != [] {
      assert (fs + [f])[1..] == fs[1..] + [f];
      InSequenceAppend(fs[0].seqNum, fs[0].retirePriorTo, fs[1..], f);
    }
  }

  lemma {:induction false} RoomyShrinks(held: set<nat>, held': set<nat>, fs: seq<NewCidFrame>, limit: nat)
    requires Roomy(held, fs, limit) && held' <= held
    ensures Roomy(held', fs, limit)
    decreases |fs|
  {
    if fs != [] {
      SubsetSize(AtLeast(held' + {fs[0].seqNum}, fs[0].retirePriorTo),
                 AtLeast(held + {fs[0].seqNum}, fs[0].retirePriorTo));
      RoomyShrinks(held + {fs[0].seqNum}, held' + {fs[0].seqNum}, fs[1..], limit);
    }
  }

  lemma {:induction false} RoomyAppend(held: set<nat>, fs: seq<NewCidFrame>, f: NewCidFrame, limit: nat)
    requires Roomy(held, fs, limit)
    requires |AtLeast(held + FrameSeqs(fs) + {f.seqNum}, f.retirePriorTo)| <= limit
    ensures Roomy(held, fs + [f], limit)
    decreases |fs|
  {
    if fs == [] {
      assert fs + [f] == [f];
      assert held + FrameSeqs(fs) + {f.seqNum} == held + {f.seqNum};
    } else {
      assert (fs + [f])[1..] == fs[1..] + [f];
      assert held + FrameSeqs(fs) + {f.seqNum} == (held + {fs[0].seqNum}) + FrameSeqs(fs[1..]) + {f.seqNum};
      RoomyAppend(held + {fs[0].seqNum}, fs[1..], f, limit);
    }
  }

  // ---------- every step keeps the invariant and reports no error ----------

  /** Some connection ID the issuer still counts as usable is held by the peer or on its way. */
  lemma {:induction false} SomeUsable(s: Sys)
    requires Inv(s)
    ensures exists x :: (x in Held(s) || x in Queued(s) || x in Announced(s)) && x >= s.issuer.retirePriorTo
  {
    InSequenceBounds(s.receiver.largestSeq, s.receiver.largestRetirePriorTo, s.announce);
    var es := s.receiver.dcids.inner;
    IdsMember(es, 0);
    var x := if s.issuer.advertise != [] then s.issuer.nextSeq - 1
             else if s.announce != [] then LastSeq(s.receiver.largestSeq, s.announce)
             else es[0].seqNum;
    assert (x in Held(s) || x in Queued(s) || x in Announced(s)) && x >= s.issuer.retirePriorTo;
  }

  lemma {:induction false} SingleEntry(es: seq<Entry>)
    requires |es| == 1
    ensures Seqs(es) == {es[0].seqNum} && Ids(es) == {(es[0].seqNum, es[0].cid)} && Ascending(es)
  {
    OneEntry(es);
    assert es[1..] == [];
  }

  lemma {:induction false} InitHolds(s: Sys)
    requires Init(s)
    ensures Inv(s)
  {
    SingleEntry(s.issuer.scids.inner);
    SingleEntry(s.receiver.dcids.inner);
    assert Usable(s.issuer) == {0};
  }

  lemma {:induction false} FreshValue(es: seq<Entry>, cid: ConnId)
    requires forall e <- es :: e.cid != cid
    ensures forall p <- Ids(es) :: p.1 != cid
  {
    forall p <- Ids(es) ensures p.1 != cid { IdsEntry(es, p); }
  }

  /** Minting under the guards appends a fresh entry and queues it. */
  lemma {:induction false} MintOutcome(i: Issuer, cid: ConnId, token: nat, path: Option<nat>, force: bool)
    requires IssuerInv(i) && !i.zeroLength
    requires |i.scids.inner| < i.scids.capacity && (force || |i.scids.inner| < i.limit)
    requires forall e <- i.scids.inner :: e.cid != cid
    requires Usable(i) != {}
    ensures NewScid(i, cid, Some(token), true, path, force) ==
      (Extended(Raised(i), Entry(cid, i.nextSeq, Some(token), path)).(advertise := i.advertise + [i.nextSeq]),
       Ok(i.nextSeq))
  {
    InsertFresh(i.scids, Entry(cid, i.nextSeq, Some(token), path));
    assert IndexOfCid(i.scids.inner, cid) == |i.scids.inner|;
  }

  lemma {:induction false} PartitionAdd(all: set<nat>, a: set<nat>, c: set<nat>, d: set<nat>, e: set<nat>, n: nat)
    requires Partition(all, a, {}, c, d, e) && n !in all
    ensures Partition(all + {n}, a, {n}, c, d, e)
  {}

  /** The state after `e` was appended to the issuer's deque and queued for announcement. */
  predicate Minted(s: Sys, s': Sys, e: Entry) {
    && s' == s.(issuer := s'.issuer)
    && s.issuer.advertise == [] && s'.issuer.advertise == [e.seqNum]
    && s'.issuer.scids.inner == s.issuer.scids.inner + [e]
    && e.seqNum == s.issuer.nextSeq && s'.issuer.nextSeq == s.issuer.nextSeq + 1
    && s.issuer.retirePriorTo <= s'.issuer.retirePriorTo <= e.seqNum
  }

  lemma {:induction false} MintConserves(s: Sys, s': Sys, e: Entry)
    requires Conserved(s) && Minted(s, s', e)
    requires Ascending(s.issuer.scids.inner) && forall x <- Seqs(s.issuer.scids.inner) :: x < e.seqNum
    ensures Conserved(s')
  {
    Append(s.issuer.scids.inner, e);
    AdvertiseOne(e.seqNum);
    PartitionAdd(Seqs(s.issuer.scids.inner), Held(s), Announced(s), Pending(s), Retiring(s), e.seqNum);
  }

  lemma {:induction false} MintNames(s: Sys, s': Sys, e: Entry)
    requires IssuerInv(s.issuer) && Conserved(s) && Named(s) && Minted(s, s', e) && e.token.Some?
    requires forall x <- s.issuer.scids.inner :: x.cid != e.cid
    ensures Named(s')
  {
    IdsConcat(s.issuer.scids.inner, [e]);
    assert Ids([e]) == {(e.seqNum, e.cid)};
    FreshValue(s.issuer.scids.inner, e.cid);
    forall g <- s.retires ensures g.seqNum < e.seqNum { RetireSeqsMember(s.retires, g); }
  }

  lemma {:induction false} MintKeepsSysInv(s: Sys, s': Sys, e: Entry)
    requires Inv(s) && Minted(s, s', e) && e.token.Some?
    requires forall x <- s.issuer.scids.inner :: x.cid != e.cid
    requires IssuerInv(s'.issuer) && Configured(s')
    ensures Inv(s')
  {
    MintConserves(s, s', e);
    MintNames(s, s', e);
  }

  lemma {:induction false} MintStep(s: Sys, cid: ConnId, token: nat, path: Option<nat>, force: bool)
    requires Inv(s) && Enabled(s, MintCid(cid, token, path, force))
    ensures Apply(s, MintCid(cid, token, path, force)).1.None?
    ensures Inv(Apply(s, MintCid(cid, token, path, force)).0)
  {
    var e := Entry(cid, s.issuer.nextSeq, Some(token), path);
    assert Usable(s.issuer) != {} by { SomeUsable(s); }
    MintOutcome(s.issuer, cid, token, path, force);
    MintKeepsInv(s.issuer, cid, Some(token), true, path, force);
    RaisedKeepsInv(s.issuer);
    MintKeepsSysInv(s, Apply(s, MintCid(cid, token, path, force)).0, e);
  }

  // Announce

  predicate Sent(s: Sys, s': Sys, f: NewCidFrame) {
    && s' == s.(issuer := s.issuer.(advertise := []), announce := s.announce + [f])
    && s.issuer.advertise == [f.seqNum]
    && f.retirePriorTo == s.issuer.retirePriorTo
    && (f.seqNum, f.cid) in Ids(s.issuer.scids.inner)
  }

  lemma {:induction false} PartitionSend(all: set<nat>, a: set<nat>, c: set<nat>, d: set<nat>, e: set<nat>, n: nat)
    requires Partition(all, a, {n}, c, d, e)
    ensures Partition(all, a, {}, c + {n}, d, e)
  {}

  lemma {:induction false} AnnounceConserves(s: Sys, s': Sys, f: NewCidFrame)
    requires Conserved(s) && Sent(s, s', f)
    ensures Conserved(s')
  {
    AdvertiseOne(f.seqNum);
    AnnounceViews(s.announce, f);
    PartitionSend(Seqs(s.issuer.scids.inner), Held(s), Announced(s), Pending(s), Retiring(s), f.seqNum);
  }

  lemma {:induction false} AnnounceIsRoomy(s: Sys, f: NewCidFrame)
    requires Conserved(s) && Roomy(Held(s), s.announce, s.limit) && |Usable(s.issuer)| <= s.limit
    requires s.issuer.advertise == [f.seqNum] && f.retirePriorTo == s.issuer.retirePriorTo
    ensures Roomy(Held(s), s.announce + [f], s.limit)
  {
    AdvertiseOne(f.seqNum);
    var seen := AtLeast(Held(s) + FrameSeqs(s.announce) + {f.seqNum}, f.retirePriorTo);
    SubsetSize(seen, Usable(s.issuer));
    RoomyAppend(Held(s), s.announce, f, s.limit);
  }

  lemma {:induction false} AnnounceSyncs(s: Sys, s': Sys, f: NewCidFrame)
    requires Synced(s) && Sent(s, s', f)
    ensures Synced(s')
  {
    InSequenceAppend(s.receiver.largestSeq, s.receiver.largestRetirePriorTo, s.announce, f);
  }

  lemma {:induction false} AnnounceKeepsSysInv(s: Sys, s': Sys, f: NewCidFrame)
    requires Inv(s) && Sent(s, s', f)
    ensures Inv(s')
  {
    AnnounceConserves(s, s', f);
    AnnounceSyncs(s, s', f);
    AnnounceIsRoomy(s, f);
    assert Named(s') by { AnnounceViews(s.announce, f); }
  }

  /** A stored number with a token can be announced. */
  lemma {:induction false} FrameOutcome(i: Issuer, seqNum: nat)
    requires seqNum in Seqs(i.scids.inner) && seqNum != 0
    requires forall e <- i.scids.inner :: e.seqNum == 0 || e.token.Some?
    ensures var r := NewConnectionIdFrame(i, seqNum);
      && r.Ok? && r.value.seqNum == seqNum && r.value.retirePriorTo == i.retirePriorTo
      && (seqNum, r.value.cid) in Ids(i.scids.inner)
  {
    var k := i.scids.Position(seqNum);
    assert k < |i.scids.inner|;
    IdsMember(i.scids.inner, k);
  }

  lemma {:induction false} AnnounceStep(s: Sys)
    requires Inv(s) && Enabled(s, Announce)
    ensures Apply(s, Announce).1.None? && Inv(Apply(s, Announce).0)
  {
    var seqNum := s.issuer.advertise[0];
    assert s.issuer.advertise == [seqNum];
    AdvertiseOne(seqNum);
    FrameOutcome(s.issuer, seqNum);
    assert MarkAdvertise([seqNum], seqNum, false) == [];
    AnnounceKeepsSysInv(s, Apply(s, Announce).0, NewConnectionIdFrame(s.issuer, seqNum).value);
  }

  // DeliverNew

  /** The first announcement never repeats a value the receiver holds. */
  lemma {:induction false} NoRepeat(s: Sys)
    requires Inv(s) && s.announce != []
    ensures forall e <- s.receiver.dcids.inner :: e.cid != s.announce[0].cid
  {
    var es := s.receiver.dcids.inner;
    var f := s.announce[0];
    forall k | 0 <= k < |es| ensures es[k].cid != f.cid {
      IdsMember(es, k);
      assert (f.seqNum, f.cid) in FrameIds(s.announce);
    }
  }

  /** What is pending retirement and what is held are both stored by the issuer. */
  lemma {:induction false} PendingBound(s: Sys)
    requires Inv(s)
    ensures |Pending(s)| + |s.receiver.dcids.inner| <= 2 * s.limit - 1
  {
    AscendingSize(s.issuer.scids.inner);
    AscendingSize(s.receiver.dcids.inner);
    SubsetSize(Pending(s) + Held(s), Seqs(s.issuer.scids.inner));
  }

  lemma {:induction false} DeliverHasRoom(held: seq<Entry>, f: NewCidFrame, cut: nat, limit: nat)
    requires Ascending(held) && Boundary(held, f.retirePriorTo, cut)
    requires f.seqNum !in Seqs(held) && f.retirePriorTo <= f.seqNum
    requires |AtLeast(Seqs(held) + {f.seqNum}, f.retirePriorTo)| <= limit
    ensures |held[cut..]| < limit
  {
    var kept := Seqs(held[cut..]);
    assert |kept| == |held[cut..]| && kept <= Seqs(held) by {
      SplitAt(held, cut);
      AscendingSize(held[cut..]);
    }
    assert forall x <- kept :: x >= f.retirePriorTo by { BoundaryExact(held, f.retirePriorTo, cut); }
    SubsetSize(kept + {f.seqNum}, AtLeast(Seqs(held) + {f.seqNum}, f.retirePriorTo));
  }

  /** The state after the first announcement was stored and the entries before `cut` retired. */
  predicate Received(s: Sys, s': Sys, cut: nat) {
    && s.announce != [] && cut <= |s.receiver.dcids.inner|
    && var es, f := s.receiver.dcids.inner, s.announce[0];
    && s' == s.(receiver := s'.receiver, announce := s.announce[1..])
    && s'.receiver.dcids == s.receiver.dcids.(inner := es[cut..] + [Entry(f.cid, f.seqNum, Some(f.token), None)])
    && s'.receiver.retire == s.receiver.retire.(inner := s.receiver.retire.inner + Seqs(es[..cut]))
    && s'.receiver.largestSeq == f.seqNum && s'.receiver.largestRetirePriorTo == f.retirePriorTo
    && !s'.receiver.zeroLength
  }

  lemma {:induction false} PartitionReceive(all: set<nat>, a: set<nat>, b: set<nat>, c: set<nat>, d: set<nat>,
                                            e: set<nat>, dropped: set<nat>, kept: set<nat>, n: nat, later: set<nat>)
    requires Partition(all, a, b, c, d, e)
    requires a == dropped + kept && dropped !! kept
    requires c == {n} + later && n !in later
    ensures Partition(all, kept + {n}, b, later, d + dropped, e)
  {}

  lemma {:induction false} DeliverConserves(s: Sys, s': Sys, cut: nat)
    requires Conserved(s) && Received(s, s', cut)
    requires Ascending(s.receiver.dcids.inner) && s.announce[0].seqNum !in FrameSeqs(s.announce[1..])
    ensures Conserved(s')
  {
    var es, f := s.receiver.dcids.inner, s.announce[0];
    SplitAt(es, cut);
    SeqsConcat(es[cut..], [Entry(f.cid, f.seqNum, Some(f.token), None)]);
    SingleEntry([Entry(f.cid, f.seqNum, Some(f.token), None)]);
    PartitionReceive(Seqs(s.issuer.scids.inner), Held(s), Queued(s), Announced(s), Pending(s), Retiring(s),
                     Seqs(es[..cut]), Seqs(es[cut..]), f.seqNum, FrameSeqs(s.announce[1..]));
  }

  lemma {:induction false} DeliverNames(s: Sys, s': Sys, cut: nat)
    requires Named(s) && Received(s, s', cut)
    ensures Named(s')
  {
    var es, f := s.receiver.dcids.inner, s.announce[0];
    var e := Entry(f.cid, f.seqNum, Some(f.token), None);
    assert es == es[..cut] + es[cut..];
    IdsConcat(es[..cut], es[cut..]);
    IdsConcat(es[cut..], [e]);
    SingleEntry([e]);
  }

  lemma {:induction false} DeliverSyncs(s: Sys, s': Sys, cut: nat)
    requires Synced(s) && Received(s, s', cut)
    requires forall x <- Held(s') :: x in Held(s) || x == s.announce[0].seqNum
    ensures Synced(s')
  {
    assert s.announce[0].seqNum in Announced(s) && Announced(s') <= Announced(s);
    assert LastSeq(s'.receiver.largestSeq, s'.announce) == LastSeq(s.receiver.largestSeq, s.announce);
    assert LastRetire(s'.receiver.largestRetirePriorTo, s'.announce)
        == LastRetire(s.receiver.largestRetirePriorTo, s.announce);
  }

  lemma {:induction false} DeliverKeepsSysInv(s: Sys, s': Sys, cut: nat)
    requires Inv(s) && Received(s, s', cut) && ReceiverInv(s'.receiver)
    ensures Inv(s')
  {
    var es, f := s.receiver.dcids.inner, s.announce[0];
    InSequenceBounds(f.seqNum, f.retirePriorTo, s.announce[1..]);
    DeliverConserves(s, s', cut);
    DeliverNames(s, s', cut);
    assert Held(s') <= Held(s) + {f.seqNum} by {
      SplitAt(es, cut);
      SeqsConcat(es[cut..], [Entry(f.cid, f.seqNum, Some(f.token), None)]);
      SingleEntry([Entry(f.cid, f.seqNum, Some(f.token), None)]);
    }
    DeliverSyncs(s, s', cut);
    RoomyShrinks(Held(s) + {f.seqNum}, Held(s'), s.announce[1..], s.limit);
  }

  lemma {:induction false} DeliverNewOutcome(s: Sys, cut: nat)
    requires Inv(s) && Enabled(s, DeliverNew(cut))
    ensures var (s', error) := Apply(s, DeliverNew(cut)); error.None? && Received(s, s', cut)
  {
    var r, f := s.receiver, s.announce[0];
    NoRepeat(s);
    DeliverHasRoom(r.dcids.inner, f, cut, s.limit);
    PendingBound(s);
    NewDcidExact(r, f, cut);
  }

  lemma {:induction false} DeliverNewStep(s: Sys, cut: nat)
    requires Inv(s) && Enabled(s, DeliverNew(cut))
    ensures Apply(s, DeliverNew(cut)).1.None? && Inv(Apply(s, DeliverNew(cut)).0)
  {
    DeliverNewOutcome(s, cut);
    NewDcidKeepsInv(s.receiver, s.announce[0], cut);
    DeliverKeepsSysInv(s, Apply(s, DeliverNew(cut)).0, cut);
  }

  // RetireOwn

  /** Removing the entry at `k` removes its number and leaves no new value behind. */
  lemma {:induction false} RemoveViews(es: seq<Entry>, k: nat)
    requires k < |es| && Ascending(es)
    ensures var rest := es[..k] + es[k + 1..];
      && Ascending(rest) && Seqs(rest) == Seqs(es) - {es[k].seqNum}
      && es[k].seqNum in Seqs(es) && (es[k].seqNum, es[k].cid) in Ids(es)
      && Ids(rest) <= Ids(es) && (forall p <- Ids(es) :: p.0 != es[k].seqNum ==> p in Ids(rest))
  {
    RemoveAt(es, k);
    IdsMember(es, k);
    assert es == es[..k] + ([es[k]] + es[k + 1..]);
    IdsConcat(es[..k], es[k + 1..]);
    IdsConcat(es[..k], [es[k]] + es[k + 1..]);
    IdsConcat([es[k]], es[k + 1..]);
  }

  lemma {:induction false} PartitionRetire(all: set<nat>, a: set<nat>, b: set<nat>, c: set<nat>, d: set<nat>,
                                           e: set<nat>, n: nat)
    requires Partition(all, a, b, c, d, e) && n in a
    ensures Partition(all, a - {n}, b, c, d + {n}, e)
  {}

  predicate GaveUp(s: Sys, s': Sys, seqNum: nat) {
    && s' == s.(receiver := s.receiver.(dcids := s'.receiver.dcids, retire := s'.receiver.retire))
    && s'.receiver.retire == s.receiver.retire.(inner := s.receiver.retire.inner + {seqNum})
    && s'.receiver.dcids.capacity == s.receiver.dcids.capacity
    && seqNum in Held(s) && Held(s') == Held(s) - {seqNum}
    && Ids(s'.receiver.dcids.inner) <= Ids(s.receiver.dcids.inner)
  }

  lemma {:induction false} RetireOwnConserves(s: Sys, s': Sys, seqNum: nat)
    requires Conserved(s) && GaveUp(s, s', seqNum)
    ensures Conserved(s')
  {
    PartitionRetire(Seqs(s.issuer.scids.inner), Held(s), Queued(s), Announced(s), Pending(s), Retiring(s), seqNum);
  }

  lemma {:induction false} RetireOwnSyncs(s: Sys, s': Sys, seqNum: nat)
    requires Synced(s) && GaveUp(s, s', seqNum)
    ensures Synced(s')
  {
    assert Held(s') <= Held(s) && Announced(s') == Announced(s);
  }

  lemma {:induction false} RetireOwnKeepsSysInv(s: Sys, s': Sys, seqNum: nat)
    requires Inv(s) && GaveUp(s, s', seqNum) && ReceiverInv(s'.receiver)
    ensures Inv(s')
  {
    RetireOwnConserves(s, s', seqNum);
    RetireOwnSyncs(s, s', seqNum);
    RoomyShrinks(Held(s), Held(s'), s.announce, s.limit);
  }

  /** Retiring one of several held connection IDs succeeds while the retire set has room. */
  lemma {:induction false} RetireDcidOutcome(r: Receiver, seqNum: nat)
    requires Ascending(r.dcids.inner) && !r.zeroLength
    requires |r.dcids.inner| > 1 && seqNum in Seqs(r.dcids.inner) && |r.retire.inner| < r.retire.capacity
    ensures var (r', res) := RetireDcid(r, seqNum);
      && res.Ok?
      && r' == r.(dcids := r'.dcids, retire := r.retire.(inner := r.retire.inner + {seqNum}))
      && r'.dcids.capacity == r.dcids.capacity
      && Seqs(r'.dcids.inner) == Seqs(r.dcids.inner) - {seqNum}
      && Ids(r'.dcids.inner) <= Ids(r.dcids.inner)
  {
    var k := r.dcids.Position(seqNum);
    assert k < |r.dcids.inner|;
    RemoveViews(r.dcids.inner, k);
  }

  lemma {:induction false} RetireOwnStep(s: Sys, seqNum: nat)
    requires Inv(s) && Enabled(s, RetireOwn(seqNum))
    ensures Apply(s, RetireOwn(seqNum)).1.None? && Inv(Apply(s, RetireOwn(seqNum)).0)
  {
    PendingBound(s);
    RetireDcidOutcome(s.receiver, seqNum);
    RetireDcidKeepsInv(s.receiver, seqNum);
    RetireOwnKeepsSysInv(s, Apply(s, RetireOwn(seqNum)).0, seqNum);
  }

  // SendRetire

  lemma {:induction false} PartitionSendRetire(all: set<nat>, a: set<nat>, b: set<nat>, c: set<nat>, d: set<nat>,
                                               e: set<nat>, n: nat)
    requires Partition(all, a, b, c, d, e) && n in d
    ensures Partition(all, a, b, c, d - {n}, e + {n}) && n !in e && n !in a
  {}

  predicate Flushed(s: Sys, s': Sys, g: RetireFrame) {
    && s' == s.(receiver := s.receiver.(retire := s.receiver.retire.(inner := s.receiver.retire.inner - {g.seqNum})),
                retires := s.retires + [g])
    && g.seqNum in Pending(s)
  }

  lemma {:induction false} SendRetireNames(s: Sys, seqNum: nat, via: nat)
    requires Named(s) && via < |s.receiver.dcids.inner| && seqNum !in Held(s)
    ensures (seqNum, s.receiver.dcids.inner[via].cid) !in Ids(s.issuer.scids.inner)
  {
    IdsMember(s.receiver.dcids.inner, via);
  }

  lemma {:induction false} SendRetireConserves(s: Sys, s': Sys, g: RetireFrame)
    requires Conserved(s) && Flushed(s, s', g)
    ensures Conserved(s') && g.seqNum !in Held(s)
  {
    PartitionSendRetire(Seqs(s.issuer.scids.inner), Held(s), Queued(s), Announced(s), Pending(s), Retiring(s),
                        g.seqNum);
    RetireViews(s.retires, g);
  }

  lemma {:induction false} SendRetireKeepsSysInv(s: Sys, s': Sys, g: RetireFrame)
    requires Inv(s) && Flushed(s, s', g) && (g.seqNum, g.pktDcid) !in Ids(s.issuer.scids.inner)
    ensures Inv(s')
  {
    SendRetireConserves(s, s', g);
    assert ReceiverInv(s'.receiver) by { SubsetSize(Pending(s'), Pending(s)); }
    assert Synced(s') by { assert Held(s') == Held(s) && Announced(s') == Announced(s); }
  }

  lemma {:induction false} SendRetireStep(s: Sys, seqNum: nat, via: nat)
    requires Inv(s) && Enabled(s, SendRetire(seqNum, via))
    ensures Apply(s, SendRetire(seqNum, via)).1.None? && Inv(Apply(s, SendRetire(seqNum, via)).0)
  {
    var g := RetireFrame(seqNum, s.receiver.dcids.inner[via].cid);
    var s' := Apply(s, SendRetire(seqNum, via)).0;
    SendRetireConserves(s, s', g);
    SendRetireNames(s, seqNum, via);
    SendRetireKeepsSysInv(s, s', g);
  }

  // DeliverRetire

  lemma {:induction false} PartitionDone(all: set<nat>, a: set<nat>, b: set<nat>, c: set<nat>, d: set<nat>,
                                         e: set<nat>, n: nat)
    requires Partition(all, a, b, c, d, e) && n in e
    ensures Partition(all - {n}, a, b, c, d, e - {n}) && n !in a && n !in b && n !in c
  {}

  /** The issuer after dropping one entry and moving Retire Prior To up to the lowest usable one. */
  ghost predicate Dropped(s: Sys, s': Sys) {
    && s.retires != [] && s' == s.(issuer := s'.issuer, retires := s.retires[1..])
    && s'.issuer.scids.capacity == s.issuer.scids.capacity
    && s'.issuer == s.issuer.(scids := s'.issuer.scids, retired := s'.issuer.retired,
                              retirePriorTo := s'.issuer.retirePriorTo)
    && Seqs(s'.issuer.scids.inner) == Seqs(s.issuer.scids.inner) - {s.retires[0].seqNum}
    && Least(AtLeast(Seqs(s'.issuer.scids.inner), s.issuer.retirePriorTo)) == Some(s'.issuer.retirePriorTo)
  }

  lemma {:induction false} DropConserves(s: Sys, s': Sys)
    requires Conserved(s) && Dropped(s, s')
    ensures Conserved(s')
  {
    var n := s.retires[0].seqNum;
    RetireSeqsBound(s.retires[1..]);
    assert n !in RetireSeqs(s.retires[1..]) && |RetireSeqs(s.retires[1..])| == |s.retires[1..]|;
    PartitionDone(Seqs(s.issuer.scids.inner), Held(s), Queued(s), Announced(s), Pending(s), Retiring(s), n);
    assert Retiring(s') == Retiring(s) - {n};
  }

  lemma {:induction false} LeastBelow(all: set<nat>, low: nat, low': nat)
    requires Least(AtLeast(all, low)) == Some(low')
    ensures low <= low' && forall x <- all :: x >= low ==> x >= low'
  {
    forall x <- all | x >= low ensures x >= low' { assert x in AtLeast(all, low); }
  }

  lemma {:induction false} DropSyncs(s: Sys, s': Sys)
    requires Synced(s) && Dropped(s, s') && Conserved(s')
    ensures Synced(s')
  {
    LeastBelow(Seqs(s'.issuer.scids.inner), s.issuer.retirePriorTo, s'.issuer.retirePriorTo);
    if s.issuer.advertise == [] {
      assert Held(s') == Held(s) && Announced(s') == Announced(s);
    } else {
      AdvertiseOne(s.issuer.nextSeq - 1);
      assert s.issuer.nextSeq - 1 in Seqs(s'.issuer.scids.inner);
    }
  }

  lemma {:induction false} DropKeepsSysInv(s: Sys, s': Sys)
    requires Inv(s) && Dropped(s, s')
    requires IssuerInv(s'.issuer) && Named(s')
    ensures Inv(s')
  {
    DropConserves(s, s');
    DropSyncs(s, s');
  }

  lemma {:induction false} DropNames(s: Sys, s': Sys, k: nat)
    requires Named(s) && Conserved(s) && s.retires != []
    requires var es := s.issuer.scids.inner;
      && k < |es| && Ascending(es) && es[k].seqNum == s.retires[0].seqNum
      && s'.issuer.scids.inner == es[..k] + es[k + 1..]
    requires s'.receiver == s.receiver && s'.announce == s.announce && s'.retires == s.retires[1..]
    ensures Named(s')
  {
    RemoveViews(s.issuer.scids.inner, k);
    IdsSeqs(s.receiver.dcids.inner);
    FrameIdsSeqs(s.announce);
    PartitionDone(Seqs(s.issuer.scids.inner), Held(s), Queued(s), Announced(s), Pending(s), Retiring(s),
                  s.retires[0].seqNum);
  }

  /** Another connection ID is stored besides the one being retired, and some is still usable. */
  lemma {:induction false} OthersRemain(s: Sys)
    requires Inv(s) && s.retires != []
    ensures s.retires[0].seqNum in Seqs(s.issuer.scids.inner) && |s.issuer.scids.inner| > 1
    ensures AtLeast(Seqs(s.issuer.scids.inner) - {s.retires[0].seqNum}, s.issuer.retirePriorTo) != {}
  {
    var es, n := s.issuer.scids.inner, s.retires[0].seqNum;
    PartitionDone(Seqs(es), Held(s), Queued(s), Announced(s), Pending(s), Retiring(s), n);
    SomeUsable(s);
    var x :| (x in Held(s) || x in Queued(s) || x in Announced(s)) && x >= s.issuer.retirePriorTo;
    assert x in AtLeast(Seqs(es) - {n}, s.issuer.retirePriorTo);
    AscendingSize(es);
    SubsetSize({x, n}, Seqs(es));
  }

  lemma {:induction false} RetireScidOutcome(i: Issuer, g: RetireFrame)
    requires Ascending(i.scids.inner) && |i.scids.inner| > 1
    requires g.seqNum in Seqs(i.scids.inner) && g.seqNum < i.nextSeq
    requires (g.seqNum, g.pktDcid) !in Ids(i.scids.inner)
    requires AtLeast(Seqs(i.scids.inner) - {g.seqNum}, i.retirePriorTo) != {}
    ensures var (i', r) := RetireScid(i, g.seqNum, g.pktDcid);
      var k := i.scids.Position(g.seqNum);
      && r.Ok? && k < |i.scids.inner| && i.scids.inner[k].seqNum == g.seqNum
      && i' == i.(scids := i'.scids, retired := i'.retired, retirePriorTo := i'.retirePriorTo)
      && i'.scids == i.scids.(inner := i.scids.inner[..k] + i.scids.inner[k + 1..])
      && Seqs(i'.scids.inner) == Seqs(i.scids.inner) - {g.seqNum}
      && Least(AtLeast(Seqs(i'.scids.inner), i.retirePriorTo)) == Some(i'.retirePriorTo)
  {
    var k := i.scids.Position(g.seqNum);
    assert k < |i.scids.inner|;
    IdsMember(i.scids.inner, k);
    RemoveAt(i.scids.inner, k);
  }

  lemma {:induction false} DeliverRetireStep(s: Sys)
    requires Inv(s) && Enabled(s, DeliverRetire)
    ensures Apply(s, DeliverRetire).1.None? && Inv(Apply(s, DeliverRetire).0)
    ensures s.retires[0].seqNum in Seqs(s.issuer.scids.inner) && |s.issuer.scids.inner| > 1
    ensures (s.retires[0].seqNum, s.retires[0].pktDcid) !in Ids(s.issuer.scids.inner)
    ensures Dropped(s, Apply(s, DeliverRetire).0)
  {
    var g := s.retires[0];
    OthersRemain(s);
    RetireScidOutcome(s.issuer, g);
    RetireKeepsInv(s.issuer, g.seqNum, g.pktDcid);
    var s' := Apply(s, DeliverRetire).0;
    DropNames(s, s', s.issuer.scids.Position(g.seqNum));
    DropKeepsSysInv(s, s');
  }

  // ---------- the theorems ----------

  /** Every enabled step succeeds at both ends and keeps the invariant. */
  lemma {:induction false} StepSafe(s: Sys, step: Step)
    requires Inv(s) && Enabled(s, step)
    ensures Apply(s, step).1.None?
    ensures Inv(Apply(s, step).0)
  {
    match step
    case MintCid(cid, token, path, force) => MintStep(s, cid, token, path, force);
    case Announce => AnnounceStep(s);
    case DeliverNew(cut) => DeliverNewStep(s, cut);
    case RetireOwn(seqNum) => RetireOwnStep(s, seqNum);
    case SendRetire(seqNum, via) => SendRetireStep(s, seqNum, via);
    case DeliverRetire => DeliverRetireStep(s);
  }

  /** `states` is a run of the protocol driven by `steps`. */
  ghost predicate IsRun(states: seq<Sys>, steps: seq<Step>) {
    && |states| == |steps| + 1 && Init(states[0])
    && forall n :: 0 <= n < |steps| ==>
         Enabled(states[n], steps[n]) && states[n + 1] == Apply(states[n], steps[n]).0
  }

  lemma {:induction false} RunInv(states: seq<Sys>, steps: seq<Step>, n: nat)
    requires IsRun(states, steps) && n < |states|
    ensures Inv(states[n])
  {
    if n == 0 {
      InitHolds(states[0]);
    } else {
      RunInv(states, steps, n - 1);
      StepSafe(states[n - 1], steps[n - 1]);
    }
  }

  /** Safety: no step of any run makes either endpoint report IdLimit, OutOfIdentifiers,
      InvalidFrame or InvalidState, and the receiver's retire set always has room left. */
  lemma {:induction false} RunSafe(states: seq<Sys>, steps: seq<Step>)
    requires IsRun(states, steps)
    ensures forall n :: 0 <= n < |steps| ==> Apply(states[n], steps[n]).1.None?
    ensures forall s <- states :: |s.receiver.retire.inner| < s.receiver.retire.capacity
  {
    forall n | 0 <= n < |steps| ensures Apply(states[n], steps[n]).1.None? {
      RunInv(states, steps, n);
      StepSafe(states[n], steps[n]);
    }
    forall n | 0 <= n < |states|
      ensures |states[n].receiver.retire.inner| < states[n].receiver.retire.capacity
    {
      RunInv(states, steps, n);
      PendingBound(states[n]);
    }
  }

  lemma {:induction false} AnnouncedSize(lastSeq: nat, lastRetire: nat, fs: seq<NewCidFrame>)
    requires InSequence(lastSeq, lastRetire, fs)
    ensures |FrameSeqs(fs)| == |fs|
    decreases |fs|
  {
    if fs != [] {
      AnnouncedSize(fs[0].seqNum, fs[0].retirePriorTo, fs[1..]);
      InSequenceBounds(fs[0].seqNum, fs[0].retirePriorTo, fs[1..]);
    }
  }

  lemma {:induction false} PartitionSize(all: set<nat>, a: set<nat>, b: set<nat>, c: set<nat>, d: set<nat>, e: set<nat>)
    requires Partition(all, a, b, c, d, e)
    ensures |all| == |a| + |b| + |c| + |d| + |e|
  {
    var ab, cd := a + b, c + d;
    assert all == (ab + cd) + e && ab !! cd && ab + cd !! e;
  }

  function Places(s: Sys): nat {
    |s.receiver.dcids.inner| + |s.issuer.advertise| + |s.announce| + |s.receiver.retire.inner| + |s.retires|
  }

  lemma {:induction false} CountsAddUp(s: Sys)
    requires Inv(s)
    ensures |s.issuer.scids.inner| == Places(s)
  {
    PartitionSize(Seqs(s.issuer.scids.inner), Held(s), Queued(s), Announced(s), Pending(s), Retiring(s));
    AscendingSize(s.issuer.scids.inner);
    AscendingSize(s.receiver.dcids.inner);
    AnnouncedSize(s.receiver.largestSeq, s.receiver.largestRetirePriorTo, s.announce);
    if s.issuer.advertise != [] { AdvertiseOne(s.issuer.nextSeq - 1); }
  }

  /** Conservation: in every state of every run each stored source connection ID is in exactly one
      of the five places, and the counts add up. */
  lemma {:induction false} RunConserves(states: seq<Sys>, steps: seq<Step>, n: nat)
    requires IsRun(states, steps) && n < |states|
    ensures var s := states[n];
      && Partition(Seqs(s.issuer.scids.inner), Held(s), Queued(s), Announced(s), Pending(s), Retiring(s))
      && |s.issuer.scids.inner| == Places(s)
  {
    RunInv(states, steps, n);
    CountsAddUp(states[n]);
  }

  /** The receiver is never left without a connection ID the issuer accepts: it always holds some,
      everything it holds is stored at the issuer, one still usable is held or on its way, and
      once every announcement has arrived everything it holds is usable. */
  lemma {:induction false} RunReachable(states: seq<Sys>, steps: seq<Step>, n: nat)
    requires IsRun(states, steps) && n < |states|
    ensures var s := states[n];
      && Held(s) != {} && Held(s) <= Seqs(s.issuer.scids.inner)
      && (exists x :: (x in Held(s) || x in Queued(s) || x in Announced(s)) && x >= s.issuer.retirePriorTo)
      && (s.issuer.advertise == [] && s.announce == [] ==> forall x <- Held(s) :: x >= s.issuer.retirePriorTo)
  {
    RunInv(states, steps, n);
    SomeUsable(states[n]);
    IdsMember(states[n].receiver.dcids.inner, 0);
  }
}
