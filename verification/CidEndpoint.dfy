/** The mutable connection-ID manager of one endpoint, verified against the functions of `Cid`. */
module CidEndpoint {
  import opened Base
  import opened Cid
  import CidProtocol
  import CidRuns

  class ConnectionIdentifiers {
    var dcids: Deque
    var scids: Deque
    var advertiseNewScidSeqs: seq<nat>
    var retireDcidSeqs: SeqSet
    var retiredScids: seq<ConnId>
    var largestPeerRetirePriorTo: nat
    var largestDestinationSeq: nat
    var nextScidSeq: nat
    var retirePriorTo: nat
    var sourceConnIdLimit: nat
    var zeroLengthScid: bool
    var zeroLengthDcid: bool

    /** The half that issues connection IDs. */
    function Source(): Issuer
      reads this
    {
      Issuer(scids, advertiseNewScidSeqs, retiredScids, nextScidSeq, retirePriorTo, sourceConnIdLimit,
             zeroLengthScid)
    }

    /** The half that stores the peer's connection IDs. */
    function Destination(): Receiver
      reads this
    {
      Receiver(dcids, retireDcidSeqs, largestPeerRetirePriorTo, largestDestinationSeq, zeroLengthDcid)
    }

    constructor (destinationConnIdLimit: nat, initialScid: ConnId, initialPathId: nat, resetToken: Option<nat>)
      ensures Source() == NewIssuer(initialScid, initialPathId, resetToken)
      ensures Destination() == NewReceiver(destinationConnIdLimit, initialPathId)
      ensures CidRuns.IssuerInv(Source()) && CidRuns.ReceiverInv(Destination())
    {
      var limit := destinationConnIdLimit;
      if limit < 2 { limit := 2; }
      scids := Deque([Entry(initialScid, 0, resetToken, Some(initialPathId))], 3);
      dcids := Deque([Entry([], 0, None, Some(initialPathId))], limit);
      advertiseNewScidSeqs, retiredScids := [], [];
      retireDcidSeqs := SeqSet({}, Min(USIZE_MAX, limit * RETIRED_CONN_ID_LIMIT_MULTIPLIER));
      largestPeerRetirePriorTo, largestDestinationSeq := 0, 0;
      nextScidSeq, retirePriorTo, sourceConnIdLimit := 1, 0, 2;
      zeroLengthScid, zeroLengthDcid := initialScid == [], false;
      NewEndpointHolds(destinationConnIdLimit, initialScid, initialPathId, resetToken);
    }

    method SetSourceConnIdLimit(value: nat)
      modifies this
      ensures Source() == SetLimit(old(Source()), value) && Destination() == old(Destination())
    {
      var v := Min(value, USIZE_MAX / 2);
      if v >= 2 {
        sourceConnIdLimit := v;
        scids := scids.Resize(2 * v - 1);
      }
    }

    method SetInitialDcid(cid: ConnId, resetToken: Option<nat>, pathId: Option<nat>)
      modifies this
      ensures Source() == old(Source())
      ensures Destination() == Cid.SetInitialDcid(old(Destination()), cid, resetToken, pathId)
    {
      zeroLengthDcid := cid == [];
      dcids := dcids.(inner := [Entry(cid, 0, resetToken, pathId)]);
    }

    /** Scans for the smallest stored number at or above Retire Prior To. */
    method LowestUsableScidSeq() returns (r: Result<nat, Error>)
      ensures var lowest := LowestUsable(scids.inner, retirePriorTo);
        r == if lowest.Some? then Ok(lowest.value) else Err(InvalidState)
    {
      r := Err(InvalidState);
      ghost var seen: set<nat> := {};
      for i := 0 to |scids.inner|
        invariant seen == AtLeast(Seqs(scids.inner[..i]), retirePriorTo)
        invariant r == if seen == {} then Err(InvalidState) else Ok(Least(seen).value)
      {
        var s := scids.inner[i].seqNum;
        assert scids.inner[..i + 1] == scids.inner[..i] + [scids.inner[i]];
        SeqsConcat(scids.inner[..i], [scids.inner[i]]);
        if s >= retirePriorTo {
          seen := seen + {s};
          if r.Err? || s < r.value { r := Ok(s); }
        }
      }
      assert scids.inner[..|scids.inner|] == scids.inner;
    }

    method MarkAdvertiseNewScidSeq(seqNum: nat, advertise: bool)
      modifies this
      ensures Source() == old(Source()).(advertise := MarkAdvertise(old(advertiseNewScidSeqs), seqNum, advertise))
      ensures Destination() == old(Destination())
    {
      if advertise {
        advertiseNewScidSeqs := advertiseNewScidSeqs + [seqNum];
      } else {
        var index := IndexOf(advertiseNewScidSeqs, seqNum);
        if index < |advertiseNewScidSeqs| {
          advertiseNewScidSeqs := advertiseNewScidSeqs[..index] + advertiseNewScidSeqs[index + 1..];
        }
      }
    }

    method MarkRetireDcidSeq(seqNum: nat, retire: bool) returns (r: Result<(), Error>)
      modifies this
      ensures Source() == old(Source())
      ensures retire && |old(retireDcidSeqs.inner)| >= old(retireDcidSeqs.capacity) ==>
                r == Err(IdLimit) && Destination() == old(Destination())
      ensures retire && |old(retireDcidSeqs.inner)| < old(retireDcidSeqs.capacity) ==>
                r == Ok(()) && Destination() == old(Destination()).(
                  retire := old(retireDcidSeqs).(inner := old(retireDcidSeqs.inner) + {seqNum}))
      ensures !retire ==>
                r == Ok(()) && Destination() == old(Destination()).(retire := old(retireDcidSeqs).Remove(seqNum))
    {
      if retire {
        var next := retireDcidSeqs.Insert(seqNum);
        if next.Err? { return Err(next.error); }
        retireDcidSeqs := next.value;
      } else {
        retireDcidSeqs := retireDcidSeqs.Remove(seqNum);
      }
      r := Ok(());
    }

    method NewScid(cid: ConnId, resetToken: Option<nat>, advertise: bool, pathId: Option<nat>,
                   retireIfNeeded: bool) returns (r: Result<nat, Error>)
      modifies this
      ensures (Source(), r) == Cid.NewScid(old(Source()), cid, resetToken, advertise, pathId, retireIfNeeded)
      ensures Destination() == old(Destination())
    {
      if zeroLengthScid { return Err(InvalidState); }
      if |scids.inner| >= sourceConnIdLimit {
        if !retireIfNeeded { return Err(IdLimit); }
        var lowest := LowestUsableScidSeq();
        if lowest.Err? { return Err(lowest.error); }
        retirePriorTo := lowest.value + 1;
      }
      r := AddScid(cid, resetToken, advertise, pathId);
    }

    /** The second half of `new_scid`, after the limit check. */
    method AddScid(cid: ConnId, resetToken: Option<nat>, advertise: bool, pathId: Option<nat>)
      returns (r: Result<nat, Error>)
      modifies this
      ensures (Source(), r) == Cid.AddScid(old(Source()), cid, resetToken, advertise, pathId)
      ensures Destination() == old(Destination())
    {
      var seqNum := nextScidSeq;
      if resetToken.None? && seqNum != 0 { return Err(InvalidState); }
      var k := IndexOfCid(scids.inner, cid);
      if k < |scids.inner| {
        var e := scids.inner[k];
        if e.token != resetToken { return Err(InvalidState); }
        return Ok(e.seqNum);
      }
      var inserted := scids.Insert(Entry(cid, seqNum, resetToken, pathId));
      if inserted.Err? { return Err(inserted.error); }
      scids := inserted.value;
      nextScidSeq := nextScidSeq + 1;
      MarkAdvertiseNewScidSeq(seqNum, advertise);
      r := Ok(seqNum);
    }

    method RetireScid(seqNum: nat, pktDcid: ConnId) returns (r: Result<Option<nat>, Error>)
      modifies this
      ensures (Source(), r) == Cid.RetireScid(old(Source()), seqNum, pktDcid)
      ensures Destination() == old(Destination())
    {
      if seqNum >= nextScidSeq { return Err(InvalidState); }
      var removed := scids.Remove(seqNum);
      if removed.Err? { return Err(removed.error); }
      var (rest, found) := removed.value;
      scids := rest;
      if found.None? { return Ok(None); }
      if found.value.cid == pktDcid { return Err(InvalidState); }
      retiredScids := retiredScids + [found.value.cid];
      var lowest := LowestUsableScidSeq();
      if lowest.Err? { return Err(lowest.error); }
      retirePriorTo := lowest.value;
      r := Ok(found.value.path);
    }

    method RetireDcid(seqNum: nat) returns (r: Result<Option<nat>, Error>)
      modifies this
      ensures (Destination(), r) == Cid.RetireDcid(old(Destination()), seqNum)
      ensures Source() == old(Source())
    {
      if zeroLengthDcid { return Err(InvalidState); }
      var removed := dcids.Remove(seqNum);
      if removed.Err? { return Err(removed.error); }
      var (rest, found) := removed.value;
      dcids := rest;
      if found.None? { return Err(InvalidState); }
      var marked := MarkRetireDcidSeq(seqNum, true);
      if marked.Err? { return Err(marked.error); }
      r := Ok(found.value.path);
    }

    /** Binary search for the first entry at or above `bound`; on an unsorted deque it still
        returns a point where the order changes. */
    method PartitionPoint(bound: nat) returns (k: nat)
      ensures Boundary(dcids.inner, bound, k)
    {
      var hi := |dcids.inner|;
      k := 0;
      while k < hi
        invariant k <= hi <= |dcids.inner|
        invariant k > 0 ==> dcids.inner[k - 1].seqNum < bound
        invariant hi < |dcids.inner| ==> dcids.inner[hi].seqNum >= bound
      {
        var mid := (k + hi) / 2;
        if dcids.inner[mid].seqNum < bound { k := mid + 1; } else { hi := mid; }
      }
    }

    /** Moves the drained entries to the retire set, reporting those bound to a path and stopping
        when the set is full. */
    static method RetireAll(drained: seq<Entry>, retire: SeqSet)
      returns (paths: seq<(nat, nat)>, retired: SeqSet, failed: bool)
      ensures (paths, retired, failed) == Drain(drained, retire)
    {
      paths, retired, failed := [], retire, false;
      var i := 0;
      assert drained[0..] == drained && [] + Drain(drained, retire).0 == Drain(drained, retire).0;
      while i < |drained|
        invariant i <= |drained|
        invariant var rest := Drain(drained[i..], retired);
          Drain(drained, retire) == (paths + rest.0, rest.1, rest.2)
      {
        var e := drained[i];
        ghost var before, rest := paths, Drain(drained[i + 1..], retired.(inner := retired.inner + {e.seqNum}));
        assert drained[i..][1..] == drained[i + 1..];
        if e.path.Some? { paths := paths + [(e.seqNum, e.path.value)]; }
        assert paths == before + PathOf(e) && before + (PathOf(e) + rest.0) == paths + rest.0;
        var next := retired.Insert(e.seqNum);
        if next.Err? { return paths, retired, true; }
        retired := next.value;
        i := i + 1;
      }
      assert paths + [] == paths;
    }

    /** `cut` is where the search over the deque ended. */
    method NewDcid(f: NewCidFrame) returns (paths: seq<(nat, nat)>, r: Result<(), Error>, ghost cut: nat)
      modifies this
      ensures Boundary(old(dcids.inner), f.retirePriorTo, cut)
      ensures (Destination(), paths, r) == Cid.NewDcid(old(Destination()), f, cut)
      ensures Source() == old(Source())
    {
      var k := PartitionPoint(f.retirePriorTo);
      cut, paths := k, [];
      if zeroLengthDcid { return [], Err(InvalidState), cut; }
      var dup := IndexOfEither(dcids.inner, f.cid, f.seqNum);
      if dup < |dcids.inner| {
        var e := dcids.inner[dup];
        if e.cid != f.cid || e.seqNum != f.seqNum || e.token != Some(f.token) { return [], Err(InvalidFrame), cut; }
        return [], Ok(()), cut;
      }
      if f.retirePriorTo > f.seqNum { return [], Err(InvalidFrame), cut; }
      if f.seqNum < largestPeerRetirePriorTo {
        var marked := MarkRetireDcidSeq(f.seqNum, true);
        return [], marked, cut;
      }
      if f.seqNum > largestDestinationSeq { largestDestinationSeq := f.seqNum; }
      var failed := false;
      if f.retirePriorTo > largestPeerRetirePriorTo {
        assert f.seqNum >= f.retirePriorTo;  // so the source's OutOfIdentifiers branch is never taken
        paths, retireDcidSeqs, failed := RetireAll(dcids.inner[..k], retireDcidSeqs);
        dcids := dcids.(inner := dcids.inner[k..]);
        largestPeerRetirePriorTo := f.retirePriorTo;
      }
      var inserted := dcids.Insert(Entry(f.cid, f.seqNum, Some(f.token), None));
      if inserted.Err? { return paths, Err(inserted.error), cut; }
      dcids := inserted.value;
      r := if failed then Err(IdLimit) else Ok(());
    }
  }

  /** Every new endpoint satisfies both invariants. */
  lemma {:induction false} NewEndpointHolds(limit: nat, cid: ConnId, path: nat, token: Option<nat>)
    ensures CidRuns.IssuerInv(NewIssuer(cid, path, token)) && CidRuns.ReceiverInv(NewReceiver(limit, path))
  {
    CidRuns.NewIssuerHolds(cid, path, token);
    OneEntry(NewReceiver(limit, path).dcids.inner);
  }

  /** An endpoint that was told the peer's limit, whatever it is, and a peer set up with that limit
      that was told the endpoint's first connection ID, are in an initial state of the protocol. */
  lemma {:induction false} SetUpIsInitial(limit: nat, cid: ConnId, path: nat, token: Option<nat>,
                                          peerToken: Option<nat>, peerPath: Option<nat>)
    requires cid != []
    ensures var issuer := SetLimit(NewIssuer(cid, path, token), limit);
      var receiver := SetInitialDcid(NewReceiver(limit, path), cid, peerToken, peerPath);
      CidProtocol.Init(CidProtocol.Sys(issuer.limit, issuer, receiver, [], []))
  {}
}
