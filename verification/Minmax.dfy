/** The windowed minimum and maximum filter of quiche/src/minmax.rs: three samples that stand for
    all samples observed within a time window. */
module Minmax {
  import opened Base

  datatype Sample = Sample(time: nat, value: int)

  datatype Estimates = Estimates(first: Sample, second: Sample, third: Sample)

  /** `duration_since` is zero for a time in the future. */
  function Since(now: nat, earlier: nat): nat { if now < earlier then 0 else now - earlier }

  function All(s: Sample): Estimates { Estimates(s, s, s) }

  // ---------- one update ----------

  function SubwinUpdate(e: Estimates, win: nat, val: Sample): Estimates {
    var delta := Since(val.time, e.first.time);
    if delta > win then
      var shifted := Estimates(e.second, e.third, val);
      if Since(val.time, shifted.first.time) > win then Estimates(shifted.second, shifted.third, val) else shifted
    else if e.second.time == e.first.time && 4 * delta > win then Estimates(e.first, val, val)
    else if e.third.time == e.second.time && 2 * delta > win then Estimates(e.first, e.second, val)
    else e
  }

  function RunningMin(e: Estimates, win: nat, val: Sample): Estimates {
    if val.value <= e.first.value || Since(val.time, e.third.time) > win then All(val)
    else if val.value <= e.second.value then SubwinUpdate(Estimates(e.first, val, val), win, val)
    else if val.value <= e.third.value then SubwinUpdate(Estimates(e.first, e.second, val), win, val)
    else SubwinUpdate(e, win, val)
  }

  function RunningMax(e: Estimates, win: nat, val: Sample): Estimates {
    if val.value >= e.first.value || Since(val.time, e.third.time) > win then All(val)
    else if val.value >= e.second.value then SubwinUpdate(Estimates(e.first, val, val), win, val)
    else if val.value >= e.third.value then SubwinUpdate(Estimates(e.first, e.second, val), win, val)
    else SubwinUpdate(e, win, val)
  }

  // ---------- what the estimates mean ----------

  predicate InOrder(h: seq<Sample>) { forall i, j :: 0 <= i <= j < |h| ==> h[i].time <= h[j].time }

  /** `s` is the observation at `k` and no later observation is smaller. */
  predicate MinFrom(h: seq<Sample>, k: nat, s: Sample) {
    k < |h| && h[k] == s && forall j :: k <= j < |h| ==> s.value <= h[j].value
  }

  /** The three estimates are observations in this order, each the minimum from then on. */
  ghost predicate Tracks(h: seq<Sample>, e: Estimates) {
    exists i, j, k :: 0 <= i <= j <= k && MinFrom(h, i, e.first) && MinFrom(h, j, e.second) && MinFrom(h, k, e.third)
  }

  lemma {:induction false} MinFromGrows(h: seq<Sample>, k: nat, s: Sample, val: Sample)
    requires MinFrom(h, k, s) && s.value <= val.value
    ensures MinFrom(h + [val], k, s)
  {}

  /** What one update of the minimum does: the estimates keep their meaning, and the first one is
      an observation no older than the window. */
  lemma {:induction false} RunningMinTracks(h: seq<Sample>, e: Estimates, win: nat, val: Sample)
    requires Tracks(h, e) && InOrder(h + [val])
    ensures var e' := RunningMin(e, win, val);
      Tracks(h + [val], e') && Since(val.time, e'.first.time) <= win
  {
    var i, j, k :| 0 <= i <= j <= k && MinFrom(h, i, e.first) && MinFrom(h, j, e.second) && MinFrom(h, k, e.third);
    var all, n := h + [val], |h|;
    assert MinFrom(all, n, val);
    var e' := RunningMin(e, win, val);
    if e' != All(val) {
      MinFromGrows(h, i, e.first, val);
      var (second, j') := if val.value <= e.second.value then (val, n) else (e.second, j);
      var (third, k') := if val.value <= e.third.value then (val, n) else (e.third, k);
      if j' == j { MinFromGrows(h, j, e.second, val); }
      if k' == k { MinFromGrows(h, k, e.third, val); }
      assert MinFrom(all, j', second) && MinFrom(all, k', third);
      SubwinTracks(all, Estimates(e.first, second, third), win, i, j', k');
    }
  }

  lemma {:induction false} SubwinTracks(h: seq<Sample>, e: Estimates, win: nat, i: nat, j: nat, k: nat)
    requires h != [] && i <= j <= k
    requires MinFrom(h, i, e.first) && MinFrom(h, j, e.second) && MinFrom(h, k, e.third)
    requires Since(h[|h| - 1].time, e.third.time) <= win
    ensures var e' := SubwinUpdate(e, win, h[|h| - 1]);
      Tracks(h, e') && Since(h[|h| - 1].time, e'.first.time) <= win
  {
    var n := |h| - 1;
    assert MinFrom(h, n, h[n]);
  }

  // ---------- runs ----------

  datatype Observation = Observation(win: nat, sample: Sample)

  function History(start: Sample, obs: seq<Observation>): (h: seq<Sample>)
    ensures |h| == |obs| + 1
  {
    [start] + seq(|obs|, i requires 0 <= i < |obs| => obs[i].sample)
  }

  /** The estimates after the observations `obs`, starting from `start`. */
  function Run(start: Sample, obs: seq<Observation>): Estimates {
    if obs == [] then All(start)
    else
      var n := |obs| - 1;
      RunningMin(Run(start, obs[..n]), obs[n].win, obs[n].sample)
  }

  lemma {:induction false} RunTracks(start: Sample, obs: seq<Observation>)
    requires InOrder(History(start, obs))
    ensures Tracks(History(start, obs), Run(start, obs))
    ensures obs != [] ==> Since(obs[|obs| - 1].sample.time, Run(start, obs).first.time) <= obs[|obs| - 1].win
    decreases |obs|
  {
    if obs == [] {
      assert MinFrom(History(start, obs), 0, start);
    } else {
      var n := |obs| - 1;
      var h := History(start, obs[..n]);
      assert History(start, obs) == h + [obs[n].sample];
      assert forall i :: 0 <= i < |h| ==> h[i] == History(start, obs)[i];
      RunTracks(start, obs[..n]);
      RunningMinTracks(h, Run(start, obs[..n]), obs[n].win, obs[n].sample);
    }
  }

  /** Over every run with times that never go back, the three estimates are real observations
      ordered by time and by value, and each is the minimum of everything observed from it on. */
  lemma {:induction false} EstimatesOrdered(start: Sample, obs: seq<Observation>)
    requires InOrder(History(start, obs))
    ensures var h, e := History(start, obs), Run(start, obs);
      && e.first.time <= e.second.time <= e.third.time
      && e.first.value <= e.second.value <= e.third.value
      && exists i, j, k ::
           0 <= i <= j <= k && MinFrom(h, i, e.first) && MinFrom(h, j, e.second) && MinFrom(h, k, e.third)
  {
    RunTracks(start, obs);
    var h, e := History(start, obs), Run(start, obs);
    var i, j, k :| 0 <= i <= j <= k && MinFrom(h, i, e.first) && MinFrom(h, j, e.second) && MinFrom(h, k, e.third);
    assert h[i].time <= h[j].time <= h[k].time;
  }

  // ---------- what the filter remembers ----------

  /** While the first estimate is in the window and not beaten, it stays. */
  lemma {:induction false} FirstStays(e: Estimates, win: nat, val: Sample)
    requires val.value > e.first.value
    requires Since(val.time, e.third.time) <= win && Since(val.time, e.first.time) <= win
    ensures RunningMin(e, win, val).first == e.first
  {}

  /** When the first estimate leaves the window, the next one still in the window and smaller than
      the sample takes its place, and the sample is last in line. */
  lemma {:induction false} NextInLine(e: Estimates, win: nat, val: Sample)
    requires val.value > e.first.value
    requires Since(val.time, e.third.time) <= win < Since(val.time, e.first.time)
    ensures var e', kept := RunningMin(e, win, val), val.value > e.second.value && val.value > e.third.value;
      && e'.third == val
      && (Since(val.time, e.second.time) <= win && val.value > e.second.value ==> e'.first == e.second)
      && (Since(val.time, e.second.time) <= win && kept ==> e'.second == e.third)
      && (Since(val.time, e.second.time) > win && kept ==> e'.first == e.third && e'.second == val)
  {}

  /** While the first estimate stays, the others are spread over the window: after a quarter of it
      the second is a later sample, after half of it the third is. */
  lemma {:induction false} StaysSpread(e: Estimates, win: nat, val: Sample)
    requires var e' := RunningMin(e, win, val); e'.first == e.first
    ensures var e', age := RunningMin(e, win, val), Since(val.time, e.first.time);
      && (e'.second.time == e'.first.time ==> 4 * age <= win || e'.second == val)
      && (e'.third.time == e'.second.time ==> 2 * age <= win || e'.second == val || e'.third == val)
  {}

  /** And they are not replaced without need: a smaller estimate stays if it is spread already, or
      if it is too early for that. */
  lemma {:induction false} OthersStay(e: Estimates, win: nat, val: Sample)
    requires val.value > e.first.value && val.value > e.second.value
    requires Since(val.time, e.third.time) <= win && Since(val.time, e.first.time) <= win
    requires e.second.time != e.first.time || 4 * Since(val.time, e.first.time) <= win
    ensures var e' := RunningMin(e, win, val);
      && e'.second == e.second
      && (val.value > e.third.value && (e.third.time != e.second.time || 2 * Since(val.time, e.first.time) <= win) ==>
            e' == e)
  {}

  /** The estimates that are kept are the old ones, or the sample where it is smaller or fills a gap. */
  lemma {:induction false} OnlyOldOrNew(e: Estimates, win: nat, val: Sample)
    ensures var e' := RunningMin(e, win, val);
      && e'.first in {e.first, e.second, e.third, val}
      && e'.second in {e.second, e.third, val} && e'.third in {e.third, val}
  {}

  /** Observation `n` is the smallest so far, the latest if there are several, and was still in the
      window at every later observation. */
  predicate SmallestInWindow(start: Sample, obs: seq<Observation>, n: nat) {
    var h := History(start, obs);
    && n < |h|
    && (forall j :: 0 <= j < n ==> h[n].value <= h[j].value)
    && (forall j :: n < j < |h| ==> h[n].value < h[j].value)
    && (forall j :: n <= j < |obs| ==> Since(obs[j].sample.time, h[n].time) <= obs[j].win)
  }

  lemma {:induction false} HistoryPrefix(start: Sample, obs: seq<Observation>)
    requires obs != []
    ensures var n := |obs| - 1;
      History(start, obs) == History(start, obs[..n]) + [obs[n].sample]
  {}

  lemma {:induction false} InitInOrder(start: Sample, obs: seq<Observation>)
    requires obs != [] && InOrder(History(start, obs))
    ensures InOrder(History(start, obs[..|obs| - 1]))
  {
    var h, h0 := History(start, obs), History(start, obs[..|obs| - 1]);
    HistoryPrefix(start, obs);
    assert forall i :: 0 <= i < |h0| ==> h0[i] == h[i];
  }

  /** A smallest observation becomes the first estimate at once. */
  lemma {:induction false} SmallestTakesOver(start: Sample, obs: seq<Observation>)
    requires obs != [] && InOrder(History(start, obs)) && SmallestInWindow(start, obs, |obs|)
    ensures Run(start, obs).first == obs[|obs| - 1].sample
  {
    var init := obs[..|obs| - 1];
    var h, h0 := History(start, obs), History(start, init);
    HistoryPrefix(start, obs);
    InitInOrder(start, obs);
    RunTracks(start, init);
    var i :| 0 <= i && MinFrom(h0, i, Run(start, init).first);
    assert h[i] == h0[i] && h[|obs|].value <= h[i].value;
  }

  lemma {:induction false} SmallestSoFar(start: Sample, obs: seq<Observation>, n: nat)
    requires SmallestInWindow(start, obs, n) && n < |obs|
    ensures SmallestInWindow(start, obs[..|obs| - 1], n)
    ensures History(start, obs[..|obs| - 1])[n] == History(start, obs)[n]
    ensures History(start, obs)[n].value < obs[|obs| - 1].sample.value
  {
    var h, h0 := History(start, obs), History(start, obs[..|obs| - 1]);
    HistoryPrefix(start, obs);
    assert forall i :: 0 <= i < |h0| ==> h0[i] == h[i];
    assert h[|obs|] == obs[|obs| - 1].sample;
  }

  /** The filter is exact for as long as the smallest observation is in the window: it returns that
      observation. */
  lemma {:induction false} ExactInWindow(start: Sample, obs: seq<Observation>, n: nat)
    requires InOrder(History(start, obs)) && SmallestInWindow(start, obs, n)
    ensures Run(start, obs).first == History(start, obs)[n]
    decreases |obs|
  {
    if n < |obs| {
      var init, last := obs[..|obs| - 1], obs[|obs| - 1];
      InitInOrder(start, obs);
      SmallestSoFar(start, obs, n);
      ExactInWindow(start, init, n);
      EstimatesOrdered(start, init);
      var e := Run(start, init);
      assert Since(last.sample.time, e.third.time) <= Since(last.sample.time, e.first.time) <= last.win;
      FirstStays(e, last.win, last.sample);
      assert Run(start, obs) == RunningMin(e, last.win, last.sample);
    } else if n > 0 {
      SmallestTakesOver(start, obs);
      assert History(start, obs)[n] == obs[n - 1].sample;
    } else {
      assert History(start, obs) == [start] && Run(start, obs) == All(start);
    }
  }

  /** Over every run: what the last observation does to the estimates before it. */
  lemma {:induction false} RunRemembers(start: Sample, obs: seq<Observation>)
    requires obs != [] && InOrder(History(start, obs))
    ensures var n := |obs| - 1;
      var e, e', win, val := Run(start, obs[..n]), Run(start, obs), obs[n].win, obs[n].sample;
      var age := Since(val.time, e.first.time);
      var beaten := val.value <= e.first.value || Since(val.time, e.third.time) > win;
      && (beaten ==> e' == Estimates(val, val, val))
      && (!beaten && age <= win ==> e'.first == e.first)
      && (!beaten && age <= win ==>
            && (e'.second.time == e'.first.time ==> 4 * age <= win || e'.second == val)
            && (e'.third.time == e'.second.time ==> 2 * age <= win || e'.second == val || e'.third == val))
      && (!beaten && age <= win && val.value > e.second.value && (e.second.time != e.first.time || 4 * age <= win) ==>
            && e'.second == e.second
            && (val.value > e.third.value && (e.third.time != e.second.time || 2 * age <= win) ==> e' == e))
      && (!beaten && age > win ==> e'.third == val)
      && (!beaten && age > win && Since(val.time, e.second.time) <= win && val.value > e.second.value ==>
            e'.first == e.second && (val.value > e.third.value ==> e'.second == e.third))
      && (!beaten && age > win && Since(val.time, e.second.time) > win && val.value > e.third.value ==>
            e'.first == e.third && e'.second == val)
  {
    var n := |obs| - 1;
    var e, win, val := Run(start, obs[..n]), obs[n].win, obs[n].sample;
    InitInOrder(start, obs);
    EstimatesOrdered(start, obs[..n]);
    if val.value > e.first.value && Since(val.time, e.third.time) <= win {
      if Since(val.time, e.first.time) <= win {
        FirstStays(e, win, val);
        StaysSpread(e, win, val);
        if val.value > e.second.value && (e.second.time != e.first.time || 4 * Since(val.time, e.first.time) <= win) {
          OthersStay(e, win, val);
        }
      } else {
        NextInLine(e, win, val);
      }
    }
  }

  /** The smallest value observed within the window that ends at the last observation. */
  function WindowMin(h: seq<Sample>, win: nat): (m: int)
    requires h != []
    ensures forall i :: 0 <= i < |h| && Since(h[|h| - 1].time, h[i].time) <= win ==> m <= h[i].value
    ensures exists i :: 0 <= i < |h| && Since(h[|h| - 1].time, h[i].time) <= win && m == h[i].value
  {
    MinUpTo(h, win, |h|)
  }

  function MinUpTo(h: seq<Sample>, win: nat, n: nat): (m: int)
    requires 0 < n <= |h|
    ensures forall i :: |h| - n <= i < |h| && Since(h[|h| - 1].time, h[i].time) <= win ==> m <= h[i].value
    ensures exists i :: 0 <= i < |h| && Since(h[|h| - 1].time, h[i].time) <= win && m == h[i].value
  {
    var i := |h| - n;
    if n == 1 then h[i].value
    else
      var m := MinUpTo(h, win, n - 1);
      if Since(h[|h| - 1].time, h[i].time) <= win then Min(h[i].value, m) else m
  }

  /** So it is the true minimum over the window. */
  lemma {:induction false} ExactMinimum(start: Sample, obs: seq<Observation>, n: nat)
    requires obs != [] && InOrder(History(start, obs)) && SmallestInWindow(start, obs, n)
    ensures Run(start, obs).first.value == WindowMin(History(start, obs), obs[|obs| - 1].win)
  {
    var h, win := History(start, obs), obs[|obs| - 1].win;
    ExactInWindow(start, obs, n);
    var i :| 0 <= i < |h| && Since(h[|h| - 1].time, h[i].time) <= win && WindowMin(h, win) == h[i].value;
    assert h[n].value <= h[i].value;
    ReturnedWithinWindow(start, obs);
  }

  /** The value returned is one observed within the window; it lies between the true minimum over
      the window and the current observation, and it is below everything observed since. */
  lemma {:induction false} ReturnedWithinWindow(start: Sample, obs: seq<Observation>)
    requires obs != [] && InOrder(History(start, obs))
    ensures var h, e, last := History(start, obs), Run(start, obs), obs[|obs| - 1];
      && WindowMin(h, last.win) <= e.first.value <= last.sample.value
      && Since(last.sample.time, e.first.time) <= last.win
      && exists i :: 0 <= i < |h| && MinFrom(h, i, e.first)
  {
    RunTracks(start, obs);
    var h, e := History(start, obs), Run(start, obs);
    assert h[|h| - 1] == obs[|obs| - 1].sample;
    var i :| 0 <= i < |h| && MinFrom(h, i, e.first);
  }

  // ---------- the maximum ----------

  function NegSample(s: Sample): Sample { Sample(s.time, -s.value) }

  function Neg(e: Estimates): Estimates { Estimates(NegSample(e.first), NegSample(e.second), NegSample(e.third)) }

  function NegObs(obs: seq<Observation>): (r: seq<Observation>)
    ensures |r| == |obs|
  {
    seq(|obs|, i requires 0 <= i < |obs| => Observation(obs[i].win, NegSample(obs[i].sample)))
  }

  function RunMax(start: Sample, obs: seq<Observation>): Estimates {
    if obs == [] then All(start)
    else
      var n := |obs| - 1;
      RunningMax(RunMax(start, obs[..n]), obs[n].win, obs[n].sample)
  }

  lemma {:induction false} RunningMaxMirrors(e: Estimates, win: nat, val: Sample)
    ensures RunningMax(Neg(e), win, NegSample(val)) == Neg(RunningMin(e, win, val))
  {}

  /** The maximum filter is the minimum filter on negated values. */
  lemma {:induction false} RunMaxMirrors(start: Sample, obs: seq<Observation>)
    ensures RunMax(start, obs) == Neg(Run(NegSample(start), NegObs(obs)))
    decreases |obs|
  {
    if obs != [] {
      var n := |obs| - 1;
      RunMaxMirrors(start, obs[..n]);
      assert NegObs(obs)[..n] == NegObs(obs[..n]);
      var e := Run(NegSample(start), NegObs(obs[..n]));
      RunningMaxMirrors(e, obs[n].win, NegSample(obs[n].sample));
    }
  }

  /** `s` is the observation at `k` and no later observation is larger. */
  predicate MaxFrom(h: seq<Sample>, k: nat, s: Sample) {
    k < |h| && h[k] == s && forall j :: k <= j < |h| ==> h[j].value <= s.value
  }

  lemma {:induction false} NegatedHistory(start: Sample, obs: seq<Observation>)
    ensures var h, h' := History(start, obs), History(NegSample(start), NegObs(obs));
      forall i :: 0 <= i < |h| ==> h'[i] == NegSample(h[i])
  {}

  lemma {:induction false} MaxFromMirrors(start: Sample, obs: seq<Observation>, k: nat, s: Sample)
    requires MinFrom(History(NegSample(start), NegObs(obs)), k, NegSample(s))
    ensures MaxFrom(History(start, obs), k, s)
  {
    NegatedHistory(start, obs);
    var h, h' := History(start, obs), History(NegSample(start), NegObs(obs));
    assert h'[k] == NegSample(h[k]);
    forall j | k <= j < |h| ensures h[j].value <= s.value { assert h'[j] == NegSample(h[j]); }
  }

  lemma {:induction false} NegatedInOrder(start: Sample, obs: seq<Observation>)
    requires InOrder(History(start, obs))
    ensures InOrder(History(NegSample(start), NegObs(obs)))
  {
    NegatedHistory(start, obs);
    var h, h' := History(start, obs), History(NegSample(start), NegObs(obs));
    forall i, j | 0 <= i <= j < |h'| ensures h'[i].time <= h'[j].time {
      assert h'[i] == NegSample(h[i]) && h'[j] == NegSample(h[j]);
    }
  }

  /** The largest value observed within the window that ends at the last observation. */
  function WindowMax(h: seq<Sample>, win: nat): (m: int)
    requires h != []
    ensures forall i :: 0 <= i < |h| && Since(h[|h| - 1].time, h[i].time) <= win ==> m >= h[i].value
    ensures exists i :: 0 <= i < |h| && Since(h[|h| - 1].time, h[i].time) <= win && m == h[i].value
  {
    MaxUpTo(h, win, |h|)
  }

  function MaxUpTo(h: seq<Sample>, win: nat, n: nat): (m: int)
    requires 0 < n <= |h|
    ensures forall i :: |h| - n <= i < |h| && Since(h[|h| - 1].time, h[i].time) <= win ==> m >= h[i].value
    ensures exists i :: 0 <= i < |h| && Since(h[|h| - 1].time, h[i].time) <= win && m == h[i].value
  {
    var i := |h| - n;
    if n == 1 then h[i].value
    else
      var m := MaxUpTo(h, win, n - 1);
      if Since(h[|h| - 1].time, h[i].time) <= win then Max(h[i].value, m) else m
  }

  /** The value the maximum filter returns was observed within the window, so it lies between the
      current one and the window's maximum. */
  lemma {:induction false} ReturnedBelowMaximum(start: Sample, obs: seq<Observation>)
    requires obs != [] && InOrder(History(start, obs))
    ensures var h, e, last := History(start, obs), RunMax(start, obs), obs[|obs| - 1];
      && WindowMax(h, last.win) >= e.first.value >= last.sample.value
      && Since(last.sample.time, e.first.time) <= last.win
  {
    var start', obs' := NegSample(start), NegObs(obs);
    var e', e := Run(start', obs'), RunMax(start, obs);
    NegatedInOrder(start, obs);
    RunMaxMirrors(start, obs);
    RunTracks(start', obs');
    var i :| 0 <= i && MinFrom(History(start', obs'), i, e'.first);
    MaxFromMirrors(start, obs, i, e.first);
    InWindowBelowMaximum(History(start, obs), obs[|obs| - 1].win, i, e.first);
  }

  lemma {:induction false} InWindowBelowMaximum(h: seq<Sample>, win: nat, i: nat, s: Sample)
    requires MaxFrom(h, i, s) && Since(h[|h| - 1].time, s.time) <= win
    ensures WindowMax(h, win) >= s.value >= h[|h| - 1].value
  {}

  /** The mirror image of the two theorems above: ordered estimates, each the maximum from then on,
      and a value observed within the window, between the current one and the true maximum. */
  lemma {:induction false} MaximumWithinWindow(start: Sample, obs: seq<Observation>)
    requires obs != [] && InOrder(History(start, obs))
    ensures var h, e, last := History(start, obs), RunMax(start, obs), obs[|obs| - 1];
      && e.first.time <= e.second.time <= e.third.time
      && e.first.value >= e.second.value >= e.third.value
      && WindowMax(h, last.win) >= e.first.value >= last.sample.value
      && Since(last.sample.time, e.first.time) <= last.win
      && exists i, j, k ::
           0 <= i <= j <= k && MaxFrom(h, i, e.first) && MaxFrom(h, j, e.second) && MaxFrom(h, k, e.third)
  {
    var start', obs' := NegSample(start), NegObs(obs);
    var e', e := Run(start', obs'), RunMax(start, obs);
    ReturnedBelowMaximum(start, obs);
    NegatedInOrder(start, obs);
    RunMaxMirrors(start, obs);
    EstimatesOrdered(start', obs');
    var h' := History(start', obs');
    var i, j, k :|
      0 <= i <= j <= k && MinFrom(h', i, e'.first) && MinFrom(h', j, e'.second) && MinFrom(h', k, e'.third);
    MaxFromMirrors(start, obs, i, e.first);
    MaxFromMirrors(start, obs, j, e.second);
    MaxFromMirrors(start, obs, k, e.third);
  }

  // What the maximum filter remembers, by the same mirror.

  /** The three rules for one update, for the maximum: the first estimate stays while it is in the
      window and not beaten; then the next in line follows; and the others are spread in between. */
  lemma {:induction false} MaximumRemembers(e: Estimates, win: nat, val: Sample)
    requires val.value < e.first.value && Since(val.time, e.third.time) <= win
    ensures var e', age := RunningMax(e, win, val), Since(val.time, e.first.time);
      && (age <= win ==>
            && e'.first == e.first
            && (e'.second.time == e'.first.time ==> 4 * age <= win || e'.second == val)
            && (e'.third.time == e'.second.time ==> 2 * age <= win || e'.second == val || e'.third == val))
      && (age <= win && val.value < e.second.value && (e.second.time != e.first.time || 4 * age <= win) ==>
            && e'.second == e.second
            && (val.value < e.third.value && (e.third.time != e.second.time || 2 * age <= win) ==> e' == e))
      && (age > win && Since(val.time, e.second.time) <= win && val.value < e.second.value ==> e'.first == e.second)
      && (age > win && Since(val.time, e.second.time) > win && val.value < Min(e.second.value, e.third.value) ==>
            e'.first == e.third && e'.second == val && e'.third == val)
  {
    var m, v := Neg(e), NegSample(val);
    assert Neg(m) == e && NegSample(v) == val;
    RunningMaxMirrors(m, win, v);
    if Since(val.time, e.first.time) <= win {
      FirstStays(m, win, v);
      StaysSpread(m, win, v);
      if val.value < e.second.value && (e.second.time != e.first.time || 4 * Since(val.time, e.first.time) <= win) {
        OthersStay(m, win, v);
      }
    } else {
      NextInLine(m, win, v);
    }
  }

  /** Observation `n` is the largest so far, the latest if there are several, and was still in the
      window at every later observation. */
  predicate LargestInWindow(start: Sample, obs: seq<Observation>, n: nat) {
    var h := History(start, obs);
    && n < |h|
    && (forall j :: 0 <= j < n ==> h[n].value >= h[j].value)
    && (forall j :: n < j < |h| ==> h[n].value > h[j].value)
    && (forall j :: n <= j < |obs| ==> Since(obs[j].sample.time, h[n].time) <= obs[j].win)
  }

  /** The maximum filter is exact for as long as the largest observation is in the window. */
  lemma {:induction false} ExactMaximum(start: Sample, obs: seq<Observation>, n: nat)
    requires InOrder(History(start, obs)) && LargestInWindow(start, obs, n)
    ensures RunMax(start, obs).first == History(start, obs)[n]
    ensures obs != [] ==>
      RunMax(start, obs).first.value == WindowMax(History(start, obs), obs[|obs| - 1].win)
  {
    var h, h' := History(start, obs), History(NegSample(start), NegObs(obs));
    NegatedHistory(start, obs);
    assert SmallestInWindow(NegSample(start), NegObs(obs), n) by {
      assert forall j :: 0 <= j < |h| ==> h'[j] == NegSample(h[j]);
    }
    RunMaxMirrors(start, obs);
    NegatedInOrder(start, obs);
    ExactInWindow(NegSample(start), NegObs(obs), n);
    if obs != [] {
      var win := obs[|obs| - 1].win;
      ReturnedBelowMaximum(start, obs);
      var i :| 0 <= i < |h| && Since(h[|h| - 1].time, h[i].time) <= win && WindowMax(h, win) == h[i].value;
      assert h[n].value >= h[i].value;
    }
  }
}

/** The filter itself, three samples updated in place. */
module MinmaxFilter {
  import opened Minmax

  class Filter {
    const estimate: array<Sample>

    ghost predicate Valid()
      reads this
    {
      estimate.Length == 3
    }

    ghost function Current(): Estimates
      requires Valid()
      reads this, estimate
    {
      Estimates(estimate[0], estimate[1], estimate[2])
    }

    constructor (now: nat, value: int)
      ensures Valid() && Current() == All(Sample(now, value)) && fresh(estimate)
    {
      estimate := new Sample[3](_ => Sample(now, value));
    }

    method Reset(time: nat, meas: int) returns (r: int)
      requires Valid()
      modifies estimate
      ensures Current() == All(Sample(time, meas)) && r == meas
    {
      var val := Sample(time, meas);
      for i := 0 to 3
        invariant forall j :: 0 <= j < i ==> estimate[j] == val
      {
        estimate[i] := val;
      }
      r := estimate[0].value;
    }

    method RunningMin(win: nat, time: nat, meas: int) returns (r: int)
      requires Valid()
      modifies estimate
      ensures Current() == Minmax.RunningMin(old(Current()), win, Sample(time, meas)) && r == Current().first.value
    {
      var val := Sample(time, meas);
      if val.value <= estimate[0].value || Since(time, estimate[2].time) > win {
        r := Reset(time, meas);
        return;
      }
      if val.value <= estimate[1].value {
        estimate[2] := val;
        estimate[1] := val;
      } else if val.value <= estimate[2].value {
        estimate[2] := val;
      }
      r := SubwinUpdate(win, time, meas);
    }

    method RunningMax(win: nat, time: nat, meas: int) returns (r: int)
      requires Valid()
      modifies estimate
      ensures Current() == Minmax.RunningMax(old(Current()), win, Sample(time, meas)) && r == Current().first.value
    {
      var val := Sample(time, meas);
      if val.value >= estimate[0].value || Since(time, estimate[2].time) > win {
        r := Reset(time, meas);
        return;
      }
      if val.value >= estimate[1].value {
        estimate[2] := val;
        estimate[1] := val;
      } else if val.value >= estimate[2].value {
        estimate[2] := val;
      }
      r := SubwinUpdate(win, time, meas);
    }

    method SubwinUpdate(win: nat, time: nat, meas: int) returns (r: int)
      requires Valid()
      modifies estimate
      ensures Current() == Minmax.SubwinUpdate(old(Current()), win, Sample(time, meas)) && r == Current().first.value
    {
      var val := Sample(time, meas);
      var delta := Since(time, estimate[0].time);
      if delta > win {
        estimate[0] := estimate[1];
        estimate[1] := estimate[2];
        estimate[2] := val;
        if Since(time, estimate[0].time) > win {
          estimate[0] := estimate[1];
          estimate[1] := estimate[2];
          estimate[2] := val;
        }
      } else if estimate[1].time == estimate[0].time && 4 * delta > win {
        estimate[2] := val;
        estimate[1] := val;
      } else if estimate[2].time == estimate[1].time && 2 * delta > win {
        estimate[2] := val;
      }
      r := estimate[0].value;
    }
  }
}
