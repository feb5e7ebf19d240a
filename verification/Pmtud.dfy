/** Path-MTU discovery of quiche/src/pmtud.rs (section 14.3 of RFC 9000, section 5.3 of RFC 8899):
    an optimistic binary search between the minimum size and the supported maximum. */
module Pmtud {
  import opened Base

  const MIN_CLIENT_INITIAL_LEN: nat := 1200

  datatype State = State(
    pmtu: Option<nat>,
    probeSize: nat,
    maximum: nat,
    failed: Option<nat>,
    successful: Option<nat>,
    inFlight: bool)

  // ---------- the operations ----------

  function Initial(maximum: nat): State { State(None, maximum, maximum, None, None, false) }

  predicate ShouldProbe(s: State) {
    !s.inFlight && s.pmtu.None? && s.failed != Some(MIN_CLIENT_INITIAL_LEN)
  }

  function CurrentMtu(s: State): nat { if s.successful.Some? then s.successful.value else MIN_CLIENT_INITIAL_LEN }

  function Restart(s: State): State {
    s.(probeSize := s.maximum, failed := None, successful := None, pmtu := None)
  }

  function UpdateProbeSize(s: State): State {
    match (s.failed, s.successful)
    case (Some(f), Some(g)) =>
      if f <= g then Restart(s)
      else if f - g <= 1 then s.(pmtu := Some(g), probeSize := g)
      else s.(probeSize := (g + f) / 2)
    case (Some(f), None) => s.(probeSize := (MIN_CLIENT_INITIAL_LEN + f) / 2)
    case (None, Some(g)) => s.(pmtu := Some(g), probeSize := g)
    case (None, None) => s.(probeSize := s.maximum)
  }

  function SuccessfulProbe(s: State, size: nat): State {
    var g := Min(size, s.maximum);
    var best := match s.successful case Some(prior) => Max(g, prior) case None => g;
    UpdateProbeSize(s.(successful := Some(best))).(inFlight := false)
  }

  function FailedProbe(s: State, size: nat): State {
    var f := Max(size, MIN_CLIENT_INITIAL_LEN);
    var least := match s.failed case Some(prior) => Min(f, prior) case None => f;
    UpdateProbeSize(s.(failed := Some(least))).(inFlight := false)
  }

  function Revalidate(s: State): State {
    match s.pmtu
    case Some(pmtu) => s.(probeSize := Min(pmtu, s.maximum), pmtu := None)
    case None => s
  }

  // ---------- searching a path that carries packets up to `path` ----------

  /** One probe of the chosen size, acknowledged exactly if the path carries it. */
  function Round(s: State, path: nat): State {
    var sent := s.(inFlight := true);
    if s.probeSize <= path then SuccessfulProbe(sent, s.probeSize) else FailedProbe(sent, s.probeSize)
  }

  /** What the search should find. */
  function Expected(maximum: nat, path: nat): Option<nat> {
    if maximum <= path then Some(maximum)
    else if path >= MIN_CLIENT_INITIAL_LEN then Some(path)
    else None
  }

  /** Where a search that started fresh may stand: nothing known; only failures; the answer
      bracketed by a success and a failure; or the maximum acknowledged at once. */
  predicate Searching(s: State, path: nat) {
    && !s.inFlight
    && match (s.failed, s.successful)
       case (None, None) => s.pmtu.None? && s.probeSize == s.maximum
       case (Some(f), None) =>
         && s.pmtu.None? && s.maximum > path && path < f && MIN_CLIENT_INITIAL_LEN <= f
         && s.probeSize == (MIN_CLIENT_INITIAL_LEN + f) / 2 && f <= Max(s.maximum, MIN_CLIENT_INITIAL_LEN)
       case (Some(f), Some(g)) =>
         && MIN_CLIENT_INITIAL_LEN <= g <= path < f <= s.maximum
         && (if f - g <= 1 then s.pmtu == Some(g) else s.pmtu.None? && s.probeSize == (g + f) / 2)
       case (None, Some(g)) => s.pmtu == Some(g) && g == s.maximum <= path
  }

  /** Ceiling of the binary logarithm: the least `k` with `n <= 2^k` (`Log2Ceiling`). */
  function Log2(n: nat): nat { if n <= 1 then 0 else 1 + Log2((n + 1) / 2) }

  /** How many more probes a search may need. */
  function ProbesLeft(s: State): nat {
    match (s.failed, s.successful)
    case (None, None) => if s.maximum <= MIN_CLIENT_INITIAL_LEN then 1 else 2 + Log2(s.maximum - MIN_CLIENT_INITIAL_LEN)
    case (Some(f), None) => if f <= MIN_CLIENT_INITIAL_LEN then 0 else 1 + Log2(f - MIN_CLIENT_INITIAL_LEN)
    case (Some(f), Some(g)) => if f <= g then 0 else Log2(f - g)
    case (None, Some(_)) => 0
  }

  lemma {:induction false} Log2Ceiling(n: nat, k: nat)
    ensures n <= Pow2(k) <==> Log2(n) <= k
    decreases n
  {
    if n > 1 && k > 0 { Log2Ceiling((n + 1) / 2, k - 1); }
  }

  lemma {:induction false} Log2Monotone(a: nat, b: nat)
    requires a <= b
    ensures Log2(a) <= Log2(b)
  {
    if a > 1 { Log2Monotone((a + 1) / 2, (b + 1) / 2); }
  }

  lemma {:induction false} FirstRound(s: State, path: nat)
    requires Searching(s, path) && ShouldProbe(s) && s.failed.None?
    ensures var s' := Round(s, path);
      Searching(s', path) && s'.maximum == s.maximum && ProbesLeft(s') < ProbesLeft(s)
  {}

  /** With failures only, the gap to the minimum halves, or becomes a bracket of half the size. */
  lemma {:induction false} DescendingRound(s: State, path: nat)
    requires Searching(s, path) && ShouldProbe(s) && s.failed.Some? && s.successful.None?
    ensures var s' := Round(s, path);
      Searching(s', path) && s'.maximum == s.maximum && ProbesLeft(s') < ProbesLeft(s)
  {
    var gap := s.failed.value - MIN_CLIENT_INITIAL_LEN;
    assert s.probeSize == MIN_CLIENT_INITIAL_LEN + gap / 2;
    Log2Monotone(gap / 2, (gap + 1) / 2);
  }

  lemma {:induction false} BracketRound(s: State, path: nat)
    requires Searching(s, path) && ShouldProbe(s) && s.failed.Some? && s.successful.Some?
    ensures var s' := Round(s, path);
      Searching(s', path) && s'.maximum == s.maximum && ProbesLeft(s') < ProbesLeft(s)
  {
    var gap := s.failed.value - s.successful.value;
    assert s.probeSize == s.successful.value + gap / 2;
    Log2Monotone(gap / 2, (gap + 1) / 2);
  }

  /** Each probe of a search keeps its shape and uses up one of the probes left. */
  lemma {:induction false} RoundSearches(s: State, path: nat)
    requires Searching(s, path) && ShouldProbe(s)
    ensures var s' := Round(s, path);
      Searching(s', path) && s'.maximum == s.maximum && ProbesLeft(s') < ProbesLeft(s)
  {
    match (s.failed, s.successful)
    case (None, _) => FirstRound(s, path);
    case (_, None) => DescendingRound(s, path);
    case _ => BracketRound(s, path);
  }

  /** The states of the probe loop, up to the point where no further probe is wanted. */
  function Search(s: State, path: nat): (trace: seq<State>)
    requires Searching(s, path)
    ensures trace != []
    decreases ProbesLeft(s)
  {
    if !ShouldProbe(s) then [s]
    else
      RoundSearches(s, path);
      [s] + Search(Round(s, path), path)
  }

  lemma {:induction false} SearchTrace(s: State, path: nat)
    requires Searching(s, path)
    ensures var trace := Search(s, path);
      var last := trace[|trace| - 1];
      && |trace| - 1 <= ProbesLeft(s)
      && Searching(last, path) && !ShouldProbe(last) && last.maximum == s.maximum
      && forall t <- trace :: CurrentMtu(t) <= Max(MIN_CLIENT_INITIAL_LEN, path)
    decreases ProbesLeft(s)
  {
    if ShouldProbe(s) {
      RoundSearches(s, path);
      SearchTrace(Round(s, path), path);
    }
  }

  /** The probe loop ends, finds the path MTU or the maximum, whichever is smaller (or nothing when
      the path carries less than the minimum), needs at most 2 + ceil(log2(maximum - 1200)) probes,
      and never reports an MTU above what the path carries or the minimum. */
  lemma {:induction false} SearchFinds(maximum: nat, path: nat)
    ensures var trace := Search(Initial(maximum), path);
      var last := trace[|trace| - 1];
      && last.pmtu == Expected(maximum, path) && !ShouldProbe(last)
      && (maximum > MIN_CLIENT_INITIAL_LEN ==> |trace| - 1 <= 2 + Log2(maximum - MIN_CLIENT_INITIAL_LEN))
      && forall t <- trace :: CurrentMtu(t) <= Max(MIN_CLIENT_INITIAL_LEN, path)
  {
    SearchTrace(Initial(maximum), path);
  }

  /** What the connection uses at the end of a search: the size found, or else the minimum. */
  lemma {:induction false} SearchUses(maximum: nat, path: nat)
    ensures var trace := Search(Initial(maximum), path);
      CurrentMtu(trace[|trace| - 1]) ==
        if maximum <= path then maximum else if path >= 1200 then path else 1200
    ensures var trace := Search(Initial(maximum), path);
      forall i, j :: 0 <= i <= j < |trace| && maximum >= 1200 ==> CurrentMtu(trace[i]) <= CurrentMtu(trace[j])
  {
    SearchTrace(Initial(maximum), path);
    SearchRises(Initial(maximum), path);
  }

  /** During a search the size in use never falls. */
  lemma {:induction false} SearchRises(s: State, path: nat)
    requires Searching(s, path)
    ensures var trace := Search(s, path);
      && trace[0] == s
      && forall i, j :: 0 <= i <= j < |trace| && s.maximum >= 1200 ==> CurrentMtu(trace[i]) <= CurrentMtu(trace[j])
    decreases ProbesLeft(s)
  {
    if ShouldProbe(s) {
      RoundSearches(s, path);
      var s' := Round(s, path);
      SearchRises(s', path);
      var trace, rest := Search(s, path), Search(s', path);
      assert s.maximum >= 1200 ==> CurrentMtu(s) <= CurrentMtu(s');
      forall i, j | 0 <= i <= j < |trace| && s.maximum >= 1200 ensures CurrentMtu(trace[i]) <= CurrentMtu(trace[j]) {
        if j > 0 { assert trace[j] == rest[j - 1] && CurrentMtu(rest[0]) <= CurrentMtu(rest[j - 1]); }
        if i > 0 { assert trace[i] == rest[i - 1]; }
      }
    }
  }

  /** At most one probe is on its way: none is sent while one is in flight, and every result, however
      late and for whatever size, ends the wait. */
  lemma {:induction false} OneProbeAtATime(s: State, size: nat)
    ensures s.inFlight ==> !ShouldProbe(s)
    ensures !SuccessfulProbe(s, size).inFlight && !FailedProbe(s, size).inFlight
    ensures ShouldProbe(s) ==> s.pmtu.None? && s.failed != Some(1200)
  {}

  /** Results that arrive out of order, or for sizes never sent: an acknowledged size counts up to
      the maximum and a lost one down to the minimum size; the largest and the smallest are kept, and
      a contradiction between the two starts everything over. */
  lemma {:induction false} ResultsKept(s: State, size: nat)
    ensures var s', g := SuccessfulProbe(s, size), if size <= s.maximum then size else s.maximum;
      var best := if s.successful.Some? && s.successful.value > g then s.successful.value else g;
      if s.failed.Some? && s.failed.value <= best then s' == Initial(s.maximum)
      else s'.successful == Some(best) && s'.failed == s.failed && s'.maximum == s.maximum
    ensures var s', f := FailedProbe(s, size), if size >= 1200 then size else 1200;
      var least := if s.failed.Some? && s.failed.value < f then s.failed.value else f;
      if s.successful.Some? && least <= s.successful.value then s' == Initial(s.maximum)
      else s'.failed == Some(least) && s'.successful == s.successful && s'.maximum == s.maximum
  {}

  /** The size to probe next lies in the middle of what is left; a size found is also the one to
      probe; with nothing known it is the maximum. */
  lemma {:induction false} NextSize(s: State)
    ensures var s' := UpdateProbeSize(s);
      && (s.failed.Some? && s.successful.Some? && s.failed.value > s.successful.value + 1 ==>
            && 0 <= s.failed.value + s.successful.value - 2 * s'.probeSize <= 1 && s'.pmtu == s.pmtu)
      && (s.failed.Some? && s.successful.Some? && s.failed.value == s.successful.value + 1 ==>
            s'.pmtu == Some(s'.probeSize) == s.successful)
      && (s.failed.Some? && s.successful.None? ==>
            0 <= s.failed.value + 1200 - 2 * s'.probeSize <= 1 && s'.pmtu == s.pmtu)
      && (s.failed.None? && s.successful.Some? ==> s'.pmtu == Some(s'.probeSize) == s.successful)
      && (s.failed.None? && s.successful.None? ==> s'.probeSize == s.maximum && s'.pmtu == s.pmtu)
  {}

  // ---------- revalidation ----------

  /** A finished search that found a path MTU. */
  predicate Found(s: State, path: nat) { Searching(s, path) && s.pmtu.Some? }

  /** Revalidating on a path that still carries the found size restores it. */
  lemma {:induction false} RevalidateConfirms(s: State, before: nat, path: nat)
    requires Found(s, before) && s.pmtu.value <= path
    ensures var s' := Round(Revalidate(s), path);
      ShouldProbe(Revalidate(s)) && s'.pmtu == s.pmtu && s'.successful == s.successful && s'.failed == s.failed
  {}

  /** When the path no longer carries the found size, the lost probe restarts the search from
      scratch if and only if the found size is at least the minimum.  Below it the lost probe counts
      as one of the minimum size, and the search ends there: the state keeps using the refused size,
      and one byte below the minimum it even reports that size as found again. */
  lemma {:induction false} RevalidateRestarts(s: State, before: nat, path: nat)
    requires Found(s, before) && path < s.pmtu.value
    ensures var s' := Round(Revalidate(s), path);
      && (s' == Initial(s.maximum) <==> s.pmtu.value >= MIN_CLIENT_INITIAL_LEN)
      && (s.pmtu.value < MIN_CLIENT_INITIAL_LEN ==> !ShouldProbe(s') && CurrentMtu(s') == s.pmtu.value)
      && s'.pmtu == (if s.pmtu.value == MIN_CLIENT_INITIAL_LEN - 1 then s.pmtu else None)
  {}

  /** Such a size is found where the maximum is below the minimum size, as the local setting
      max_udp_payload_size can make it; the path then shrinks, and the refused size stays. */
  lemma {:induction false} RefusedSizeStays()
    ensures var s := Round(Initial(1199), 1500);
      && Found(s, 1500) && s.pmtu == Some(1199)
      && Round(Revalidate(s), 1000).pmtu == Some(1199) && !ShouldProbe(Round(Revalidate(s), 1000))
  {}

  /** How revalidation ends on any new path: with the found size if it still fits, with what a fresh
      search finds if not, and without a new search exactly if the found size is below the minimum. */
  lemma {:induction false} RevalidateFinds(s: State, before: nat, path: nat)
    requires Found(s, before)
    ensures var s' := Round(Revalidate(s), path);
      if s.pmtu.value <= path then s'.pmtu == s.pmtu && !ShouldProbe(s')
      else if s.pmtu.value < MIN_CLIENT_INITIAL_LEN then
        s'.pmtu == (if s.pmtu.value == MIN_CLIENT_INITIAL_LEN - 1 then s.pmtu else None) && !ShouldProbe(s')
      else
        var trace := Search(Initial(s.maximum), path);
        s' == Initial(s.maximum) && trace[|trace| - 1].pmtu == Expected(s.maximum, path)
  {
    if s.pmtu.value > path {
      RevalidateRestarts(s, before, path);
      SearchFinds(s.maximum, path);
    }
  }

  /** So revalidation ends with the right answer for the new path exactly if the found size still
      fits or is not one byte below the minimum. */
  lemma {:induction false} RevalidateRight(s: State, before: nat, path: nat)
    requires Found(s, before)
    ensures var s' := Round(Revalidate(s), path);
      var last := if ShouldProbe(s') then var trace := Search(Initial(s.maximum), path); trace[|trace| - 1] else s';
      (last.pmtu == if s.pmtu.value <= path then s.pmtu else Expected(s.maximum, path)) <==>
      (s.pmtu.value <= path || s.pmtu.value != MIN_CLIENT_INITIAL_LEN - 1)
  {
    RevalidateFinds(s, before, path);
  }
}

/** The discovery state, updated in place by each probe result. */
module PmtudMachine {
  import opened Base
  import Spec = Pmtud

  class Pmtud {
    var pmtu: Option<nat>
    var probeSize: nat
    var maximumSupportedMtu: nat
    var smallestFailedProbeSize: Option<nat>
    var largestSuccessfulProbeSize: Option<nat>
    var inFlight: bool

    function State(): Spec.State
      reads this
    {
      Spec.State(pmtu, probeSize, maximumSupportedMtu, smallestFailedProbeSize, largestSuccessfulProbeSize, inFlight)
    }

    constructor (maximum: nat)
      ensures State() == Spec.Initial(maximum)
    {
      pmtu, probeSize, maximumSupportedMtu := None, maximum, maximum;
      smallestFailedProbeSize, largestSuccessfulProbeSize, inFlight := None, None, false;
    }

    predicate ShouldProbe()
      reads this
      ensures ShouldProbe() == Spec.ShouldProbe(State())
    {
      !inFlight && pmtu.None? && smallestFailedProbeSize != Some(Spec.MIN_CLIENT_INITIAL_LEN)
    }

    method SetProbeSize(size: nat)
      modifies this
      ensures State() == old(State()).(probeSize := Min(size, old(maximumSupportedMtu)))
    {
      probeSize := Min(size, maximumSupportedMtu);
    }

    method SetInFlight(value: bool)
      modifies this
      ensures State() == old(State()).(inFlight := value)
    {
      inFlight := value;
    }

    method RestartPmtud()
      modifies this
      ensures State() == Spec.Restart(old(State()))
    {
      SetProbeSize(maximumSupportedMtu);
      smallestFailedProbeSize := None;
      largestSuccessfulProbeSize := None;
      pmtu := None;
    }

    method UpdateProbeSize()
      modifies this
      ensures State() == Spec.UpdateProbeSize(old(State()))
    {
      match (smallestFailedProbeSize, largestSuccessfulProbeSize) {
        case (Some(f), Some(g)) =>
          if f <= g {
            RestartPmtud();
          } else if f - g <= 1 {
            pmtu := Some(g);
            probeSize := g;
          } else {
            probeSize := (g + f) / 2;
          }
        case (Some(f), None) => probeSize := (Spec.MIN_CLIENT_INITIAL_LEN + f) / 2;
        case (None, Some(g)) =>
          pmtu := Some(g);
          probeSize := g;
        case (None, None) => probeSize := maximumSupportedMtu;
      }
    }

    method SuccessfulProbe(size: nat) returns (largest: Option<nat>)
      modifies this
      ensures State() == Spec.SuccessfulProbe(old(State()), size) && largest == State().successful
    {
      var g := Min(size, maximumSupportedMtu);
      if largestSuccessfulProbeSize.None? || largestSuccessfulProbeSize.value < g {
        largestSuccessfulProbeSize := Some(g);
      }
      UpdateProbeSize();
      inFlight := false;
      largest := largestSuccessfulProbeSize;
    }

    method FailedProbe(size: nat)
      modifies this
      ensures State() == Spec.FailedProbe(old(State()), size)
    {
      var f := Max(size, Spec.MIN_CLIENT_INITIAL_LEN);
      if smallestFailedProbeSize.None? || f < smallestFailedProbeSize.value {
        smallestFailedProbeSize := Some(f);
      }
      UpdateProbeSize();
      inFlight := false;
    }

    method RevalidatePmtu()
      modifies this
      ensures State() == Spec.Revalidate(old(State()))
    {
      if pmtu.Some? {
        SetProbeSize(pmtu.value);
        pmtu := None;
      }
    }
  }

  /** Probes a fixed path until no further probe is wanted. */
  method Discover(maximum: nat, path: nat) returns (found: Option<nat>, probes: nat)
    ensures found == Spec.Expected(maximum, path)
    ensures maximum > Spec.MIN_CLIENT_INITIAL_LEN ==>
              probes <= 2 + Spec.Log2(maximum - Spec.MIN_CLIENT_INITIAL_LEN)
  {
    var p := new Pmtud(maximum);
    probes := 0;
    ghost var budget := Spec.ProbesLeft(p.State());
    while p.ShouldProbe()
      invariant fresh(p) && p.maximumSupportedMtu == maximum && Spec.Searching(p.State(), path)
      invariant probes + Spec.ProbesLeft(p.State()) <= budget
      decreases Spec.ProbesLeft(p.State())
    {
      Spec.RoundSearches(p.State(), path);
      var size := p.probeSize;
      p.SetInFlight(true);
      if size <= path {
        var _ := p.SuccessfulProbe(size);
      } else {
        p.FailedProbe(size);
      }
      probes := probes + 1;
    }
    found := p.pmtu;
  }
}
