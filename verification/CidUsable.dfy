/** When does the receiver hold a connection ID the issuer still counts as usable?

    Not in every reachable state.  While the receiver keeps the newest one it has, it does throughout
    a run exactly when every mint at the limit finds a usable number below the newest one that
    arrived (`UsableExactly`), which the issuer can tell before it mints. */
module CidUsable {
  import opened Base
  import opened Cid
  import opened CidRuns
  import opened CidProtocol

  /** The receiver holds a connection ID at or above the issuer's Retire Prior To. */
  predicate HoldsUsable(s: Sys) { exists x <- Held(s) :: x >= s.issuer.retirePriorTo }

  // ---------- step by step, seen from outside ----------

  /** What is left by the two steps that can take usable connection IDs away: minting at the limit
      asks for the lowest usable one back, and the receiver may retire one on its own.  This looks
      at both ends at once; the rules below do not. */
  ghost predicate Spares(s: Sys, step: Step) {
    match step
    case MintCid(_, _, _, _) =>
      |s.issuer.scids.inner| >= s.issuer.limit ==>
        var lowest := LowestUsable(s.issuer.scids.inner, s.issuer.retirePriorTo);
        lowest.Some? && exists x <- Held(s) :: x > lowest.value
    case RetireOwn(seqNum) => exists x <- Held(s) :: x != seqNum && x >= s.issuer.retirePriorTo
    case _ => true
  }

  lemma {:induction false} MintSpares(s: Sys, step: Step)
    requires Inv(s) && Enabled(s, step) && step.MintCid? && HoldsUsable(s)
    ensures HoldsUsable(Apply(s, step).0) <==> Spares(s, step)
  {
    assert Usable(s.issuer) != {} by { SomeUsable(s); }
    MintOutcome(s.issuer, step.cid, step.token, step.path, step.retireIfNeeded);
    assert Held(Apply(s, step).0) == Held(s);
  }

  lemma {:induction false} DeliverNewSpares(s: Sys, cut: nat)
    requires Inv(s) && Enabled(s, DeliverNew(cut)) && HoldsUsable(s)
    ensures HoldsUsable(Apply(s, DeliverNew(cut)).0)
  {
    var es, f := s.receiver.dcids.inner, s.announce[0];
    var s' := Apply(s, DeliverNew(cut)).0;
    assert f.retirePriorTo <= s.issuer.retirePriorTo by {
      InSequenceBounds(f.seqNum, f.retirePriorTo, s.announce[1..]);
      assert LastRetire(f.retirePriorTo, s.announce[1..]) == LastRetire(s.receiver.largestRetirePriorTo, s.announce);
    }
    DeliverNewOutcome(s, cut);
    var x :| x in Held(s) && x >= s.issuer.retirePriorTo;
    assert x in Seqs(es[cut..]) by {
      SplitAt(es, cut);
      BoundaryExact(es, f.retirePriorTo, cut);
    }
    SeqsConcat(es[cut..], [Entry(f.cid, f.seqNum, Some(f.token), None)]);
    assert x in Held(s');
  }

  lemma {:induction false} LosesOne(s: Sys, s': Sys, seqNum: nat)
    requires s'.issuer == s.issuer && Held(s') == Held(s) - {seqNum}
    ensures HoldsUsable(s') <==> exists x <- Held(s) :: x != seqNum && x >= s.issuer.retirePriorTo
  {
    forall x <- Held(s) | x != seqNum ensures x in Held(s') {}
  }

  lemma {:induction false} RetireOwnSpares(s: Sys, seqNum: nat)
    requires Inv(s) && Enabled(s, RetireOwn(seqNum))
    ensures HoldsUsable(Apply(s, RetireOwn(seqNum)).0) <==> Spares(s, RetireOwn(seqNum))
  {
    PendingBound(s);
    RetireDcidOutcome(s.receiver, seqNum);
    LosesOne(s, Apply(s, RetireOwn(seqNum)).0, seqNum);
  }

  lemma {:induction false} DeliverRetireSpares(s: Sys)
    requires Inv(s) && Enabled(s, DeliverRetire) && HoldsUsable(s)
    ensures HoldsUsable(Apply(s, DeliverRetire).0)
  {
    var s' := Apply(s, DeliverRetire).0;
    OthersRemain(s);
    RetireScidOutcome(s.issuer, s.retires[0]);
    DeliverRetireStep(s);
    LeastBelow(Seqs(s'.issuer.scids.inner), s.issuer.retirePriorTo, s'.issuer.retirePriorTo);
    assert Held(s') == Held(s) && Held(s') <= Seqs(s'.issuer.scids.inner);
  }

  /** A step leaves the receiver with a usable connection ID exactly when its guard holds. */
  lemma {:induction false} StepHoldsUsable(s: Sys, step: Step)
    requires Inv(s) && Enabled(s, step) && HoldsUsable(s)
    ensures HoldsUsable(Apply(s, step).0) <==> Spares(s, step)
  {
    match step
    case MintCid(_, _, _, _) => MintSpares(s, step);
    case Announce => assert Held(Apply(s, step).0) == Held(s);
    case DeliverNew(cut) => DeliverNewSpares(s, cut);
    case RetireOwn(seqNum) => RetireOwnSpares(s, seqNum);
    case SendRetire(_, _) => assert Held(Apply(s, step).0) == Held(s);
    case DeliverRetire => DeliverRetireSpares(s);
  }

  lemma {:induction false} SparedHoldUsable(states: seq<Sys>, steps: seq<Step>, n: nat)
    requires IsRun(states, steps) && n < |states|
    requires forall k :: 0 <= k < n ==> Spares(states[k], steps[k])
    ensures HoldsUsable(states[n])
  {
    if n == 0 {
      SingleEntry(states[0].receiver.dcids.inner);
      assert 0 in Held(states[0]);
    } else {
      SparedHoldUsable(states, steps, n - 1);
      RunInv(states, steps, n - 1);
      StepHoldsUsable(states[n - 1], steps[n - 1]);
    }
  }

  /** Throughout a run the receiver holds a usable connection ID, exactly when every step spares
      one. */
  lemma {:induction false} RunHoldsUsable(states: seq<Sys>, steps: seq<Step>)
    requires IsRun(states, steps)
    ensures (forall s <- states :: HoldsUsable(s))
       <==> (forall n :: 0 <= n < |steps| ==> Spares(states[n], steps[n]))
  {
    if forall n :: 0 <= n < |steps| ==> Spares(states[n], steps[n]) {
      forall n | 0 <= n < |states| ensures HoldsUsable(states[n]) { SparedHoldUsable(states, steps, n); }
    }
    if forall s <- states :: HoldsUsable(s) {
      forall n | 0 <= n < |steps| ensures Spares(states[n], steps[n]) {
        RunInv(states, steps, n);
        assert HoldsUsable(states[n]) && HoldsUsable(states[n + 1]);
        StepHoldsUsable(states[n], steps[n]);
      }
    }
  }

  // ---------- a rule for each end ----------

  /** The issuer mints at the limit only if some usable number is below the newest one whose
      announcement arrived, so that the lowest it asks back is not that one. */
  predicate IssuerRule(s: Sys, step: Step) {
    step.MintCid? && |s.issuer.scids.inner| >= s.issuer.limit ==>
      exists x <- Usable(s.issuer) :: x < s.receiver.largestSeq
  }

  /** The receiver never retires the newest connection ID on its own. */
  predicate ReceiverRule(s: Sys, step: Step) { step.RetireOwn? ==> step.seqNum != s.receiver.largestSeq }

  /** What the rules keep: the newest connection ID that arrived is held and usable. */
  predicate NewestUsable(s: Sys) {
    s.receiver.largestSeq in Held(s) && s.receiver.largestSeq >= s.issuer.retirePriorTo
  }

  /** With nothing in flight no stored number is above the newest one the receiver knows. */
  lemma {:induction false} NewestIsHighest(s: Sys)
    requires Inv(s) && s.announce == [] && s.issuer.advertise == []
    ensures forall x <- Seqs(s.issuer.scids.inner) :: x <= s.receiver.largestSeq
  {}

  /** Minting at the limit raises Retire Prior To above the lowest usable number and no other. */
  lemma {:induction false} MintAsksBack(s: Sys, step: Step)
    requires Inv(s) && Enabled(s, step) && step.MintCid? && |s.issuer.scids.inner| >= s.issuer.limit
    ensures var s', lowest := Apply(s, step).0, LowestUsable(s.issuer.scids.inner, s.issuer.retirePriorTo);
      && s'.receiver == s.receiver
      && lowest.Some? && s'.issuer.retirePriorTo == lowest.value + 1
      && AtLeast(Seqs(s.issuer.scids.inner), s'.issuer.retirePriorTo) == Usable(s.issuer) - {lowest.value}
  {
    assert Usable(s.issuer) != {} by { SomeUsable(s); }
    MintOutcome(s.issuer, step.cid, step.token, step.path, step.retireIfNeeded);
    AskedBack(s.issuer);
  }

  /** Minting at the limit with a single usable connection ID always takes it from the receiver. */
  lemma {:induction false} LastUsableIsLost(s: Sys, step: Step)
    requires Inv(s) && Enabled(s, step) && step.MintCid? && |s.issuer.scids.inner| >= s.issuer.limit
    requires |Usable(s.issuer)| < 2
    ensures !HoldsUsable(Apply(s, step).0)
  {
    MintAsksBack(s, step);
    var s' := Apply(s, step).0;
    var left := AtLeast(Seqs(s.issuer.scids.inner), s'.issuer.retirePriorTo);
    assert |left| == 0;
    forall x <- Held(s') ensures x < s'.issuer.retirePriorTo { assert x !in left; }
  }

  /** While the receiver keeps the newest connection ID, a mint leaves it a usable one exactly when
      the issuer's rule holds, and then the newest is one. */
  lemma {:induction false} MintExact(s: Sys, step: Step)
    requires Inv(s) && Enabled(s, step) && step.MintCid? && NewestUsable(s)
    ensures HoldsUsable(Apply(s, step).0) <==> IssuerRule(s, step)
    ensures IssuerRule(s, step) ==> NewestUsable(Apply(s, step).0)
  {
    if |s.issuer.scids.inner| < s.issuer.limit {
      assert Usable(s.issuer) != {} by { SomeUsable(s); }
      MintOutcome(s.issuer, step.cid, step.token, step.path, step.retireIfNeeded);
      assert NewestUsable(Apply(s, step).0);
    } else {
      MintAsksBack(s, step);
      MintAtLimitExact(s, Apply(s, step).0);
    }
  }

  /** Asking back the lowest usable number leaves a usable one with the receiver, exactly when that
      number is below the newest one. */
  lemma {:induction false} MintAtLimitExact(s: Sys, s': Sys)
    requires Inv(s) && NewestUsable(s) && s'.receiver == s.receiver
    requires var lowest := LowestUsable(s.issuer.scids.inner, s.issuer.retirePriorTo);
      lowest.Some? && s'.issuer.retirePriorTo == lowest.value + 1
    ensures HoldsUsable(s') <==> exists x <- Usable(s.issuer) :: x < s.receiver.largestSeq
    ensures HoldsUsable(s') ==> NewestUsable(s')
  {
    var lowest := LowestUsable(s.issuer.scids.inner, s.issuer.retirePriorTo).value;
    assert lowest in Usable(s.issuer);
    if x :| x in Held(s') && x > lowest { assert lowest < x <= s.receiver.largestSeq; }
    if x :| x in Usable(s.issuer) && x < s.receiver.largestSeq {
      assert lowest <= x;
      assert NewestUsable(s');
    }
  }

  lemma {:induction false} DeliverNewKeepsNewest(s: Sys, cut: nat)
    requires Inv(s) && Enabled(s, DeliverNew(cut)) && NewestUsable(s)
    ensures NewestUsable(Apply(s, DeliverNew(cut)).0)
  {
    var es, f := s.receiver.dcids.inner, s.announce[0];
    DeliverNewOutcome(s, cut);
    SeqsConcat(es[cut..], [Entry(f.cid, f.seqNum, Some(f.token), None)]);
    OneEntry([Entry(f.cid, f.seqNum, Some(f.token), None)]);
  }

  lemma {:induction false} RetireOwnKeepsNewest(s: Sys, seqNum: nat)
    requires Inv(s) && Enabled(s, RetireOwn(seqNum)) && NewestUsable(s) && seqNum != s.receiver.largestSeq
    ensures NewestUsable(Apply(s, RetireOwn(seqNum)).0)
  {
    PendingBound(s);
    RetireDcidOutcome(s.receiver, seqNum);
  }

  lemma {:induction false} DeliverRetireKeepsNewest(s: Sys)
    requires Inv(s) && Enabled(s, DeliverRetire) && NewestUsable(s)
    ensures NewestUsable(Apply(s, DeliverRetire).0)
  {
    var s' := Apply(s, DeliverRetire).0;
    DeliverRetireStep(s);
    LeastBelow(Seqs(s'.issuer.scids.inner), s.issuer.retirePriorTo, s'.issuer.retirePriorTo);
    assert Held(s') == Held(s) && Held(s') <= Seqs(s'.issuer.scids.inner);
  }

  /** While the receiver follows its rule, every step keeps a usable connection ID with it, exactly
      when the issuer's rule holds, and then the newest is one. */
  lemma {:induction false} StepExact(s: Sys, step: Step)
    requires Inv(s) && Enabled(s, step) && NewestUsable(s) && ReceiverRule(s, step)
    ensures HoldsUsable(Apply(s, step).0) <==> IssuerRule(s, step)
    ensures IssuerRule(s, step) ==> NewestUsable(Apply(s, step).0)
  {
    match step
    case MintCid(_, _, _, _) => MintExact(s, step);
    case Announce => assert Held(Apply(s, step).0) == Held(s);
    case DeliverNew(cut) => DeliverNewKeepsNewest(s, cut);
    case RetireOwn(seqNum) => RetireOwnKeepsNewest(s, seqNum);
    case SendRetire(_, _) => assert Held(Apply(s, step).0) == Held(s);
    case DeliverRetire => DeliverRetireKeepsNewest(s);
  }

  /** Along a run that kept a usable one so far, the newest is usable. */
  lemma {:induction false} NewestAlong(states: seq<Sys>, steps: seq<Step>, n: nat)
    requires IsRun(states, steps) && n < |states|
    requires forall k :: 0 <= k < |steps| ==> ReceiverRule(states[k], steps[k])
    requires forall k :: 0 <= k < n ==> HoldsUsable(states[k + 1]) || IssuerRule(states[k], steps[k])
    ensures NewestUsable(states[n])
  {
    if n == 0 {
      OneEntry(states[0].receiver.dcids.inner);
    } else {
      var k := n - 1;
      NewestAlong(states, steps, k);
      RunInv(states, steps, k);
      StepExact(states[k], steps[k]);
    }
  }

  /** While the receiver never retires its newest connection ID on its own, it holds a usable one in
      every state of the run, exactly when every mint at the limit finds a usable number below the
      newest one that arrived. */
  lemma {:induction false} UsableExactly(states: seq<Sys>, steps: seq<Step>)
    requires IsRun(states, steps)
    requires forall k :: 0 <= k < |steps| ==> ReceiverRule(states[k], steps[k])
    ensures (forall s <- states :: HoldsUsable(s))
       <==> (forall k :: 0 <= k < |steps| ==> IssuerRule(states[k], steps[k]))
  {
    if forall k :: 0 <= k < |steps| ==> IssuerRule(states[k], steps[k]) {
      forall n | 0 <= n < |states| ensures HoldsUsable(states[n]) { NewestAlong(states, steps, n); }
    }
    if forall s <- states :: HoldsUsable(s) {
      forall n | 0 <= n < |steps| ensures IssuerRule(states[n], steps[n]) {
        assert HoldsUsable(states[n + 1]);
        NewestAlong(states, steps, n);
        RunInv(states, steps, n);
        StepExact(states[n], steps[n]);
      }
    }
  }

  /** Without any assumption on either end: the newest connection ID stays usable after a step,
      exactly when the step follows both rules. */
  lemma {:induction false} StepKeepsNewest(s: Sys, step: Step)
    requires Inv(s) && Enabled(s, step) && NewestUsable(s)
    ensures NewestUsable(Apply(s, step).0) <==> IssuerRule(s, step) && ReceiverRule(s, step)
  {
    if ReceiverRule(s, step) {
      StepExact(s, step);
    } else {
      PendingBound(s);
      RetireDcidOutcome(s.receiver, step.seqNum);
    }
  }

  lemma {:induction false} RulesKeepNewest(states: seq<Sys>, steps: seq<Step>, n: nat)
    requires IsRun(states, steps) && n < |states|
    requires forall k :: 0 <= k < n ==> IssuerRule(states[k], steps[k]) && ReceiverRule(states[k], steps[k])
    ensures NewestUsable(states[n])
  {
    if n == 0 {
      OneEntry(states[0].receiver.dcids.inner);
    } else {
      RulesKeepNewest(states, steps, n - 1);
      RunInv(states, steps, n - 1);
      StepKeepsNewest(states[n - 1], steps[n - 1]);
    }
  }

  /** In every state of a run the newest connection ID that arrived is held and usable, exactly when
      both ends follow their rules at every step. */
  lemma {:induction false} NewestExactly(states: seq<Sys>, steps: seq<Step>)
    requires IsRun(states, steps)
    ensures (forall s <- states :: NewestUsable(s))
       <==> (forall k :: 0 <= k < |steps| ==> IssuerRule(states[k], steps[k]) && ReceiverRule(states[k], steps[k]))
  {
    if forall k :: 0 <= k < |steps| ==> IssuerRule(states[k], steps[k]) && ReceiverRule(states[k], steps[k]) {
      forall n | 0 <= n < |states| ensures NewestUsable(states[n]) { RulesKeepNewest(states, steps, n); }
    }
    if forall s <- states :: NewestUsable(s) {
      forall n | 0 <= n < |steps| ensures IssuerRule(states[n], steps[n]) && ReceiverRule(states[n], steps[n]) {
        assert NewestUsable(states[n]) && NewestUsable(states[n + 1]);
        RunInv(states, steps, n);
        StepKeepsNewest(states[n], steps[n]);
      }
    }
  }

  // Waiting for announcements is one way to follow the issuer's rule.

  /** The issuer mints at the limit only when every announcement has arrived and at least two
      connection IDs are usable. */
  predicate WaitingRule(s: Sys, step: Step) {
    step.MintCid? && |s.issuer.scids.inner| >= s.issuer.limit ==> s.announce == [] && |Usable(s.issuer)| >= 2
  }

  /** Once every announcement has arrived the issuer's rule is a matter of counting. */
  lemma {:induction false} CountOfTwo(s: Sys, step: Step)
    requires Inv(s) && Enabled(s, step) && step.MintCid? && |s.issuer.scids.inner| >= s.issuer.limit
    requires s.announce == [] && NewestUsable(s)
    ensures IssuerRule(s, step) <==> |Usable(s.issuer)| >= 2
  {
    var newest := s.receiver.largestSeq;
    NewestIsHighest(s);
    assert newest in Usable(s.issuer);
    if |Usable(s.issuer)| >= 2 {
      assert |Usable(s.issuer) - {newest}| > 0;
      var x :| x in Usable(s.issuer) - {newest};
      assert x < newest;
    }
    if x :| x in Usable(s.issuer) && x < newest { SubsetSize({x, newest}, Usable(s.issuer)); }
  }

  lemma {:induction false} WaitingKeepsNewest(states: seq<Sys>, steps: seq<Step>, n: nat)
    requires IsRun(states, steps) && n < |states|
    requires forall k :: 0 <= k < |steps| ==> WaitingRule(states[k], steps[k]) && ReceiverRule(states[k], steps[k])
    ensures NewestUsable(states[n])
  {
    if n == 0 {
      OneEntry(states[0].receiver.dcids.inner);
    } else {
      var s, step := states[n - 1], steps[n - 1];
      WaitingKeepsNewest(states, steps, n - 1);
      RunInv(states, steps, n - 1);
      if step.MintCid? && |s.issuer.scids.inner| >= s.issuer.limit { CountOfTwo(s, step); }
      StepExact(s, step);
    }
  }

  /** If the issuer waits and the receiver keeps its newest connection ID, that one is usable in
      every state of the run. */
  lemma {:induction false} RulesKeepUsable(states: seq<Sys>, steps: seq<Step>)
    requires IsRun(states, steps)
    requires forall k :: 0 <= k < |steps| ==> WaitingRule(states[k], steps[k]) && ReceiverRule(states[k], steps[k])
    ensures forall s <- states :: HoldsUsable(s) && NewestUsable(s)
  {
    forall n | 0 <= n < |states| ensures HoldsUsable(states[n]) && NewestUsable(states[n]) {
      WaitingKeepsNewest(states, steps, n);
    }
  }

  // ---------- runs that break a rule ----------

  // A run that ends with the receiver holding only a connection ID it was asked to retire.

  const FIRST_CID: Entry := Entry([0], 0, None, None)
  const SECOND_CID: Entry := Entry([1], 1, Some(7), None)
  const THIRD_CID: Entry := Entry([2], 2, Some(8), None)
  const SECOND_FRAME: NewCidFrame := NewCidFrame([1], 1, 7, 0)

  function SmallSystem(scids: seq<Entry>, advertise: seq<nat>, retirePriorTo: nat, dcids: seq<Entry>,
                       retire: set<nat>, largestSeq: nat, announce: seq<NewCidFrame>): Sys {
    Sys(2, Issuer(Deque(scids, 3), advertise, [], |scids|, retirePriorTo, 2, false),
        Receiver(Deque(dcids, 2), SeqSet(retire, 6), 0, largestSeq, false), announce, [])
  }

  const HANDSHAKE_DONE: Sys := SmallSystem([FIRST_CID], [], 0, [FIRST_CID], {}, 0, [])
  const SECOND_MINTED: Sys := SmallSystem([FIRST_CID, SECOND_CID], [1], 0, [FIRST_CID], {}, 0, [])
  const SECOND_ANNOUNCED: Sys := SmallSystem([FIRST_CID, SECOND_CID], [], 0, [FIRST_CID], {}, 0, [SECOND_FRAME])
  const SECOND_ARRIVED: Sys := SmallSystem([FIRST_CID, SECOND_CID], [], 0, [FIRST_CID, SECOND_CID], {}, 1, [])
  const SECOND_RETIRED: Sys := SmallSystem([FIRST_CID, SECOND_CID], [], 0, [FIRST_CID], {1}, 1, [])
  const THIRD_FORCED: Sys := SmallSystem([FIRST_CID, SECOND_CID, THIRD_CID], [2], 1, [FIRST_CID], {1}, 1, [])

  lemma {:induction false} TwoSeqs()
    ensures Seqs([FIRST_CID, SECOND_CID]) == {0, 1}
  {
    assert [FIRST_CID] + [SECOND_CID] == [FIRST_CID, SECOND_CID];
    SeqsConcat([FIRST_CID], [SECOND_CID]);
    SingleEntry([FIRST_CID]);
    SingleEntry([SECOND_CID]);
  }

  lemma {:induction false} MintSecond()
    ensures Apply(HANDSHAKE_DONE, MintCid([1], 7, None, false)).0 == SECOND_MINTED
  {}

  lemma {:induction false} AnnounceSecond()
    ensures Apply(SECOND_MINTED, Announce).0 == SECOND_ANNOUNCED
  {
    assert SECOND_MINTED.issuer.scids.inner[0] == FIRST_CID && SECOND_MINTED.issuer.scids.inner[1] == SECOND_CID;
    assert SECOND_MINTED.issuer.scids.Position(1) == 1;
    assert MarkAdvertise([1], 1, false) == [];
  }

  lemma {:induction false} SecondArrives()
    ensures Apply(SECOND_ANNOUNCED, DeliverNew(0)).0 == SECOND_ARRIVED
  {}

  lemma {:induction false} RetireSecond()
    ensures Enabled(SECOND_ARRIVED, RetireOwn(1)) && Apply(SECOND_ARRIVED, RetireOwn(1)).0 == SECOND_RETIRED
  {
    TwoSeqs();
  }

  lemma {:induction false} ForceThird()
    ensures Apply(SECOND_RETIRED, MintCid([2], 8, None, true)).0 == THIRD_FORCED
  {
    TwoSeqs();
    assert 0 in AtLeast({0, 1}, 0);
    assert LowestUsable([FIRST_CID, SECOND_CID], 0) == Some(0);
  }

  const LAGGING_STATES: seq<Sys> :=
    [HANDSHAKE_DONE, SECOND_MINTED, SECOND_ANNOUNCED, SECOND_ARRIVED, SECOND_RETIRED, THIRD_FORCED]
  const LAGGING_STEPS: seq<Step> :=
    [MintCid([1], 7, None, false), Announce, DeliverNew(0), RetireOwn(1), MintCid([2], 8, None, true)]

  lemma {:induction false} LaggingRun()
    ensures IsRun(LAGGING_STATES, LAGGING_STEPS)
  {
    forall n | 0 <= n < |LAGGING_STEPS|
      ensures Enabled(LAGGING_STATES[n], LAGGING_STEPS[n])
      ensures LAGGING_STATES[n + 1] == Apply(LAGGING_STATES[n], LAGGING_STEPS[n]).0
    {
      if n == 0 { MintSecond(); }
      else if n == 1 { AnnounceSecond(); }
      else if n == 2 { SecondArrives(); }
      else if n == 3 { RetireSecond(); }
      else { ForceThird(); }
    }
  }

  /** Without the receiver's rule the receiver may hold nothing but connection IDs the issuer has
      already asked it to retire, although the issuer follows its own: the receiver retires the
      newer of its two, and the issuer, not yet told, asks for the other. */
  lemma {:induction false} HeldMayLagBehind()
    ensures exists states: seq<Sys>, steps: seq<Step> ::
      && IsRun(states, steps) && (forall k :: 0 <= k < |steps| ==> IssuerRule(states[k], steps[k]))
      && !HoldsUsable(states[|steps|])
  {
    LaggingRun();
    SingleEntry([FIRST_CID]);
    assert Held(LAGGING_STATES[5]) == {0};
    TwoSeqs();
    assert Usable(SECOND_RETIRED.issuer) == {0, 1};
    forall k | 0 <= k < |LAGGING_STEPS| ensures IssuerRule(LAGGING_STATES[k], LAGGING_STEPS[k]) {}
  }

  // A run in which the issuer mints at the limit while its other usable connection ID is in flight.

  const THIRD_FORCED_EARLY: Sys :=
    SmallSystem([FIRST_CID, SECOND_CID, THIRD_CID], [2], 1, [FIRST_CID], {}, 0, [SECOND_FRAME])

  const HASTY_STATES: seq<Sys> := [HANDSHAKE_DONE, SECOND_MINTED, SECOND_ANNOUNCED, THIRD_FORCED_EARLY]
  const HASTY_STEPS: seq<Step> := [MintCid([1], 7, None, false), Announce, MintCid([2], 8, None, true)]

  lemma {:induction false} ForceThirdEarly()
    ensures Apply(SECOND_ANNOUNCED, MintCid([2], 8, None, true)).0 == THIRD_FORCED_EARLY
  {
    TwoSeqs();
    assert 0 in AtLeast({0, 1}, 0);
    assert LowestUsable([FIRST_CID, SECOND_CID], 0) == Some(0);
  }

  lemma {:induction false} HastyRun()
    ensures IsRun(HASTY_STATES, HASTY_STEPS)
  {
    forall n | 0 <= n < |HASTY_STEPS|
      ensures Enabled(HASTY_STATES[n], HASTY_STEPS[n])
      ensures HASTY_STATES[n + 1] == Apply(HASTY_STATES[n], HASTY_STEPS[n]).0
    {
      if n == 0 { MintSecond(); } else if n == 1 { AnnounceSecond(); } else { ForceThirdEarly(); }
    }
  }

  /** Counting alone is not enough while announcements are in flight: in this run the receiver
      retires nothing, two connection IDs are usable at every mint, and still the receiver is left
      with none, because the second one is on its way. */
  lemma {:induction false} CountIsNotEnough()
    ensures exists states: seq<Sys>, steps: seq<Step> ::
      && IsRun(states, steps) && (forall step <- steps :: !step.RetireOwn?)
      && (forall k :: 0 <= k < |steps| && steps[k].MintCid? && |states[k].issuer.scids.inner| >= states[k].issuer.limit
            ==> |Usable(states[k].issuer)| >= 2)
      && !HoldsUsable(states[|steps|])
  {
    HastyRun();
    SingleEntry([FIRST_CID]);
    assert Held(THIRD_FORCED_EARLY) == {0};
    TwoSeqs();
    assert Usable(SECOND_ANNOUNCED.issuer) == {0, 1};
  }
}
