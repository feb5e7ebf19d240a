/** The receive window of quiche/src/flowcontrol.rs (sections 4.1 and 4.2 of RFC 9000): how far the
    peer may send, and when to tell it that it may send more. */
module FlowControl {
  import opened Base

  const WINDOW_INCREASE_FACTOR: nat := 2
  const WINDOW_TRIGGER_FACTOR: nat := 2

  datatype State = State(consumed: nat, maxData: nat, window: nat, maxWindow: nat, lastUpdate: Option<nat>)

  // ---------- the operations ----------

  predicate ShouldUpdate(s: State) { s.maxData - s.consumed < s.window / 2 }

  function MaxDataNext(s: State): nat { s.consumed + s.window }

  function UpdateMaxData(s: State, now: nat): State { s.(maxData := MaxDataNext(s), lastUpdate := Some(now)) }

  /** The last update was less than two round trips ago.  `now - last_update` is zero when the
      clock went back. */
  predicate Hurried(s: State, now: nat, rtt: nat) {
    s.lastUpdate.Some? && Max(0, now - s.lastUpdate.value) < rtt * WINDOW_TRIGGER_FACTOR
  }

  function AutotuneWindow(s: State, now: nat, rtt: nat): State {
    if Hurried(s, now, rtt) then s.(window := Min(s.window * WINDOW_INCREASE_FACTOR, s.maxWindow)) else s
  }

  function EnsureWindowLowerBound(s: State, least: nat): State {
    if least > s.window then s.(window := least) else s
  }

  // ---------- runs ----------

  /** The application reads bytes, the connection polls for an update, optionally autotuning the
      window, or the window's lower bound is raised. */
  datatype Event = Consume(n: nat) | Poll(now: nat, rtt: nat, autotune: bool) | Raise(least: nat)

  /** An update sent to the peer: the bytes consumed by then, the window before and after
      autotuning, and the limit advertised. */
  datatype Grant = Grant(at: nat, checked: nat, window: nat, limit: nat)

  function Step(s: State, e: Event): (State, seq<Grant>) {
    match e
    case Consume(n) => (s.(consumed := s.consumed + n), [])
    case Poll(now, rtt, autotune) =>
      if !ShouldUpdate(s) then (s, [])
      else
        var t := if autotune then AutotuneWindow(s, now, rtt) else s;
        (UpdateMaxData(t, now), [Grant(s.consumed, s.window, t.window, MaxDataNext(t))])
    case Raise(least) => (EnsureWindowLowerBound(s, least), [])
  }

  function Run(s: State, events: seq<Event>): (State, seq<Grant>)
    decreases |events|
  {
    if events == [] then (s, [])
    else
      var n := |events| - 1;
      var (t, grants) := Run(s, events[..n]);
      var (u, more) := Step(t, events[n]);
      (u, grants + more)
  }

  /** The highest limit the peer was ever told. */
  function Highest(first: nat, grants: seq<Grant>): nat
    decreases |grants|
  {
    if grants == [] then first
    else Max(grants[|grants| - 1].limit, Highest(first, grants[..|grants| - 1]))
  }

  /** The peer never sends past the highest limit it was told, so no more can be read. */
  predicate Honours(highest: nat, s: State, e: Event) { e.Consume? ==> s.consumed + e.n <= highest }

  predicate AllHonour(s: State, events: seq<Event>)
    decreases |events|
  {
    events == [] ||
    var n := |events| - 1;
    var (t, grants) := Run(s, events[..n]);
    AllHonour(s, events[..n]) && Honours(Highest(s.maxData, grants), t, events[n])
  }

  /** Moreover, no lower bound exceeds the maximum window. */
  predicate AllAllowed(s: State, events: seq<Event>) {
    AllHonour(s, events) && forall e <- events :: e.Raise? ==> e.least <= s.maxWindow
  }

  predicate Sane(s: State) { s.consumed <= s.maxData && s.window <= s.maxWindow }

  /** Each advertised limit is above the one before. */
  predicate Rising(first: nat, grants: seq<Grant>) {
    && (grants != [] ==> first < grants[0].limit)
    && forall i, j :: 0 <= i && j == i + 1 < |grants| ==> grants[i].limit < grants[j].limit
  }

  function LastLimit(first: nat, grants: seq<Grant>): nat {
    if grants == [] then first else grants[|grants| - 1].limit
  }

  /** While limits rise the last one is the highest. */
  lemma {:induction false} HighestIsLast(first: nat, grants: seq<Grant>)
    requires Rising(first, grants)
    ensures Highest(first, grants) == LastLimit(first, grants)
    decreases |grants|
  {
    if grants != [] {
      var n := |grants| - 1;
      assert Rising(first, grants[..n]);
      HighestIsLast(first, grants[..n]);
      if n > 0 { assert grants[n - 1].limit < grants[n].limit; }
    }
  }

  /** Between two updates the application consumed more than the window then granted less half
      the window found at the next check. */
  predicate Spaced(grants: seq<Grant>) {
    forall i, j :: 0 <= i && j == i + 1 < |grants| ==>
      2 * (grants[j].at - grants[i].at) > 2 * grants[i].window - grants[j].checked
  }

  /** The state after a run, as far as it is determined by the last update. */
  predicate Follows(s: State, t: State, grants: seq<Grant>) {
    && Sane(t) && t.maxWindow == s.maxWindow && s.window <= t.window
    && (if grants == [] then t.maxData == s.maxData
        else
          var last := grants[|grants| - 1];
          t.maxData == last.limit == last.at + last.window && last.at <= t.consumed)
    && (forall g <- grants :: g.window >= g.checked >= s.window)
  }

  lemma {:induction false} AutotuneGrows(s: State, now: nat, rtt: nat)
    requires s.window <= s.maxWindow
    ensures var t := AutotuneWindow(s, now, rtt); s.window <= t.window <= s.maxWindow && t == s.(window := t.window)
  {}

  /** The main run property: credit is never overdrawn, limits strictly rise, updates are spaced. */
  lemma {:induction false} RunSafe(s: State, events: seq<Event>)
    requires Sane(s) && AllAllowed(s, events)
    ensures var (t, grants) := Run(s, events);
      Follows(s, t, grants) && Rising(s.maxData, grants) && Spaced(grants)
    decreases |events|
  {
    if events != [] {
      var n := |events| - 1;
      assert forall e <- events[..n] :: e in events;
      RunSafe(s, events[..n]);
      var (t, grants) := Run(s, events[..n]);
      HighestIsLast(s.maxData, grants);
      assert events[n] in events;
      StepSafe(s, t, grants, events[n]);
    }
  }

  lemma {:induction false} StepSafe(s: State, t: State, grants: seq<Grant>, e: Event)
    requires Follows(s, t, grants) && Rising(s.maxData, grants) && Spaced(grants)
    requires Honours(t.maxData, t, e) && (e.Raise? ==> e.least <= t.maxWindow)
    ensures var (u, more) := Step(t, e);
      Follows(s, u, grants + more) && Rising(s.maxData, grants + more) && Spaced(grants + more)
  {
    var (u, more) := Step(t, e);
    if more == [] {
      assert grants + more == grants;
    } else {
      PollFollows(s, t, grants, e);
      AppendGrant(s, grants, more[0], t.maxData);
      assert more == [more[0]];
    }
  }

  lemma {:induction false} PollFollows(s: State, t: State, grants: seq<Grant>, e: Event)
    requires Follows(s, t, grants) && e.Poll? && ShouldUpdate(t)
    ensures var (u, more) := Step(t, e);
      && |more| == 1 && Follows(s, u, grants + more)
      && more[0].at == t.consumed && more[0].checked == t.window && more[0].limit > t.maxData
  {
    var u := if e.autotune then AutotuneWindow(t, e.now, e.rtt) else t;
    AutotuneGrows(t, e.now, e.rtt);
    var g := Grant(t.consumed, t.window, u.window, MaxDataNext(u));
    assert (grants + [g])[|grants|] == g;
    assert forall x <- grants + [g] :: x in grants || x == g;
  }

  lemma {:induction false} AppendGrant(s: State, grants: seq<Grant>, g: Grant, limit: nat)
    requires Rising(s.maxData, grants) && Spaced(grants)
    requires limit == if grants == [] then s.maxData else grants[|grants| - 1].limit
    requires limit < g.limit
    requires grants != [] ==> var last := grants[|grants| - 1];
      last.limit == last.at + last.window && limit - g.at < g.checked / 2
    ensures Rising(s.maxData, grants + [g]) && Spaced(grants + [g])
  {
    var all, k := grants + [g], |grants|;
    forall i, j | 0 <= i && j == i + 1 < |all|
      ensures all[i].limit < all[j].limit && 2 * (all[j].at - all[i].at) > 2 * all[i].window - all[j].checked
    {
      assert j < k ==> all[i] == grants[i] && all[j] == grants[j];
    }
  }

  /** Consecutive updates with no raise in between are separated by more than half the window
      granted by the first. */
  lemma {:induction false} HalfWindowApart(s: State, events: seq<Event>, i: nat)
    requires Sane(s) && AllAllowed(s, events) && i + 1 < |Run(s, events).1|
    ensures var grants := Run(s, events).1;
      grants[i + 1].checked == grants[i].window ==> 2 * (grants[i + 1].at - grants[i].at) > grants[i].window
  {
    RunSafe(s, events);
    var j := i + 1;
    assert Spaced(Run(s, events).1);
  }

  predicate NoRaise(events: seq<Event>) { forall e <- events :: !e.Raise? }

  /** At each check the window is the one granted before. */
  predicate Chained(grants: seq<Grant>) {
    forall i, j :: 0 <= i && j == i + 1 < |grants| ==> grants[j].checked == grants[i].window
  }

  /** Without raises the window at a check is the one last granted. */
  lemma {:induction false} WindowKept(s: State, events: seq<Event>)
    requires NoRaise(events)
    ensures var (t, grants) := Run(s, events);
      && t.window == (if grants == [] then s.window else grants[|grants| - 1].window)
      && Chained(grants)
    decreases |events|
  {
    if events != [] {
      var n := |events| - 1;
      WindowKept(s, events[..n]);
      var (t, grants) := Run(s, events[..n]);
      var (u, more) := Step(t, events[n]);
      assert forall i :: 0 <= i < |grants| ==> (grants + more)[i] == grants[i];
    }
  }

  function Windows(grants: seq<Grant>): nat {
    if grants == [] then 0 else Windows(grants[..|grants| - 1]) + grants[|grants| - 1].window
  }

  /** Amortised cost: all windows granted before the last update together are at most twice the
      bytes consumed, so the updates sent number at most 1 + 2 * consumed / initial window. */
  lemma {:induction false} UpdatesAmortised(s: State, events: seq<Event>)
    requires Sane(s) && AllAllowed(s, events) && NoRaise(events)
    ensures var (t, grants) := Run(s, events);
      grants != [] ==>
        && Windows(grants[..|grants| - 1]) <= 2 * t.consumed
        && (|grants| - 1) * s.window <= 2 * t.consumed
  {
    var (t, grants) := Run(s, events);
    RunSafe(s, events);
    WindowKept(s, events);
    if grants != [] { GrantsAmortised(s.window, grants); }
  }

  lemma {:induction false} GrantsAmortised(least: nat, grants: seq<Grant>)
    requires grants != [] && Spaced(grants) && Chained(grants) && forall g <- grants :: g.window >= least
    ensures var n := |grants| - 1; n * least <= Windows(grants[..n]) <= 2 * grants[n].at
  {
    SpacedSum(grants);
    WindowsLower(grants[..|grants| - 1], least);
  }

  lemma {:induction false} SpacedSum(grants: seq<Grant>)
    requires grants != [] && Spaced(grants) && Chained(grants)
    ensures Windows(grants[..|grants| - 1]) <= 2 * grants[|grants| - 1].at
    decreases |grants|
  {
    var n := |grants| - 1;
    if n > 0 {
      var rest := grants[..n];
      assert Spaced(rest) && Chained(rest);
      SpacedSum(rest);
      assert rest[..n - 1] == grants[..n - 1];
      LastGap(grants, n);
    }
  }

  lemma {:induction false} WindowsLower(grants: seq<Grant>, least: nat)
    requires forall g <- grants :: g.window >= least
    ensures |grants| * least <= Windows(grants)
    decreases |grants|
  {
    if grants != [] {
      var n := |grants| - 1;
      WindowsLower(grants[..n], least);
      assert (n + 1) * least == n * least + least;
    }
  }

  lemma {:induction false} LastGap(grants: seq<Grant>, j: nat)
    requires Spaced(grants) && Chained(grants) && 0 < j < |grants|
    ensures 2 * (grants[j].at - grants[j - 1].at) > grants[j - 1].window
  {
    var i := j - 1;
    assert grants[j].checked == grants[i].window;
    assert 2 * (grants[j].at - grants[i].at) > 2 * grants[i].window - grants[j].checked;
  }

  /** A peer that used up its credit always gets an update, unless the window is below two. */
  lemma {:induction false} ExhaustedUpdates(s: State)
    requires s.consumed == s.maxData
    ensures ShouldUpdate(s) <==> s.window >= 2
  {}

  /** After a positive check the next limit is above the one in force, unless autotuning shrinks
      the window: exactly when the credit left is at least the maximum window. */
  lemma {:induction false} LimitRises(s: State, now: nat, rtt: nat)
    requires s.consumed <= s.maxData && ShouldUpdate(s)
    ensures MaxDataNext(AutotuneWindow(s, now, rtt)) > s.maxData
       <==> (Hurried(s, now, rtt) ==> s.maxData - s.consumed < s.maxWindow)
  {}

  // ---------- when limits rise ----------

  /** An update that autotunes within two round trips finds less credit left than the maximum
      window. */
  predicate Uncapped(s: State, e: Event) {
    e.Poll? && e.autotune && ShouldUpdate(s) && Hurried(s, e.now, e.rtt) ==> s.maxData - s.consumed < s.maxWindow
  }

  predicate AllUncapped(s: State, events: seq<Event>)
    decreases |events|
  {
    events == [] ||
    var n := |events| - 1;
    AllUncapped(s, events[..n]) && Uncapped(Run(s, events[..n]).0, events[n])
  }

  /** At no time was more read than the limit in force allows. */
  predicate InCredit(s: State, events: seq<Event>)
    decreases |events|
  {
    Run(s, events).0.consumed <= Run(s, events).0.maxData && (events == [] || InCredit(s, events[..|events| - 1]))
  }

  lemma {:induction false} StepRises(s: State, e: Event)
    requires s.consumed <= s.maxData && Honours(s.maxData, s, e)
    ensures var (t, more) := Step(s, e);
      && t.consumed <= t.maxData
      && (Uncapped(s, e) <==> more == [] || more[0].limit > s.maxData)
  {
    if e.Poll? && ShouldUpdate(s) { LimitRises(s, e.now, e.rtt); }
  }

  /** The limit in force is the one last advertised. */
  lemma {:induction false} LastGranted(s: State, events: seq<Event>)
    ensures var (t, grants) := Run(s, events); t.maxData == LastLimit(s.maxData, grants)
    decreases |events|
  {
    if events != [] {
      var (t, grants) := Run(s, events[..|events| - 1]);
      LastGranted(s, events[..|events| - 1]);
      assert grants + [] == grants;
    }
  }

  lemma {:induction false} RisingAppend(first: nat, grants: seq<Grant>, g: Grant)
    ensures Rising(first, grants + [g]) <==> Rising(first, grants) && LastLimit(first, grants) < g.limit
  {
    var all := grants + [g];
    assert forall i :: 0 <= i < |grants| ==> all[i] == grants[i];
    if Rising(first, all) {
      forall i, j | 0 <= i && j == i + 1 < |grants| ensures grants[i].limit < grants[j].limit {
        assert all[i].limit < all[j].limit;
      }
      if grants != [] { assert all[|grants| - 1].limit < all[|grants|].limit; }
    }
  }

  /** Over every run with an honest peer, whatever the windows: all advertised limits rise and no
      more is ever read than the limit in force allows, exactly when autotuning never caps the
      window at or below the credit left. */
  lemma {:induction false} RisesExactly(s: State, events: seq<Event>)
    requires s.consumed <= s.maxData && AllHonour(s, events)
    ensures Rising(s.maxData, Run(s, events).1) && InCredit(s, events) <==> AllUncapped(s, events)
    decreases |events|
  {
    if events != [] {
      var n := |events| - 1;
      var (t, grants) := Run(s, events[..n]);
      var (_, more) := Step(t, events[n]);
      RisesExactly(s, events[..n]);
      if more == [] {
        assert grants + more == grants;
      } else {
        assert more == [more[0]];
        RisingAppend(s.maxData, grants, more[0]);
      }
      LastGranted(s, events[..n]);
      if AllUncapped(s, events[..n]) {
        HighestIsLast(s.maxData, grants);
        StepRises(t, events[n]);
      }
    }
  }

  // ---------- how the window grows ----------

  /** An update less than two round trips after the last one doubles the window, up to the maximum;
      later, or without an earlier one, the window stays. */
  lemma {:induction false} AutotuneExact(s: State, now: nat, rtt: nat)
    ensures var t := AutotuneWindow(s, now, rtt);
      && (s.lastUpdate.Some? && s.lastUpdate.value <= now < s.lastUpdate.value + 2 * rtt ==>
            t == s.(window := if s.window + s.window <= s.maxWindow then s.window + s.window else s.maxWindow))
      && (s.lastUpdate.None? ==> t == s)
      && (s.lastUpdate.Some? && now >= s.lastUpdate.value + 2 * rtt ==> t == s)
      && (s.lastUpdate.Some? && now < s.lastUpdate.value && rtt > 0 ==>
            t == s.(window := if s.window + s.window <= s.maxWindow then s.window + s.window else s.maxWindow))
  {}

  /** Raising the lower bound ends with the larger of the window and the bound. */
  lemma {:induction false} LowerBoundExact(s: State, least: nat)
    ensures var t := EnsureWindowLowerBound(s, least);
      && t == s.(window := t.window) && t.window >= s.window && t.window >= least
      && (t.window == s.window || t.window == least)
  {}

  /** One update: it is noted when it was sent, and promises one window beyond what was read. */
  lemma {:induction false} UpdateExact(s: State, now: nat)
    ensures var t := UpdateMaxData(s, now);
      t.maxData - s.consumed == s.window && t == s.(maxData := t.maxData, lastUpdate := Some(now))
  {}

  /** An update is autotuned and less than two round trips after the one before. */
  predicate Quick(s: State, e: Event) {
    e.Poll? && s.maxData - s.consumed < s.window / 2 ==>
      e.autotune && s.lastUpdate.Some? && s.lastUpdate.value <= e.now < s.lastUpdate.value + 2 * e.rtt
  }

  predicate AllQuick(s: State, events: seq<Event>)
    decreases |events|
  {
    events == [] ||
    (AllQuick(s, events[..|events| - 1]) && Quick(Run(s, events[..|events| - 1]).0, events[|events| - 1]))
  }

  /** `k` updates in a row, each within two round trips of the one before, multiply the window by
      2^k, up to the maximum, whatever is read and however often the check is negative in between. */
  lemma {:induction false} WindowDoubles(s: State, events: seq<Event>)
    requires s.window <= s.maxWindow && NoRaise(events) && AllQuick(s, events)
    ensures var (t, grants) := Run(s, events);
      t.window == Min(s.window * Pow2(|grants|), s.maxWindow) && t.maxWindow == s.maxWindow
    decreases |events|
  {
    assert Pow2(0) == 1;
    if events != [] {
      var n := |events| - 1;
      assert NoRaise(events[..n]);
      WindowDoubles(s, events[..n]);
      var (t, grants) := Run(s, events[..n]);
      if events[n].Poll? {
        AutotuneExact(t, events[n].now, events[n].rtt);
        CappedDoubling(s.window, Pow2(|grants|), s.maxWindow);
        assert Pow2(|grants| + 1) == 2 * Pow2(|grants|);
      }
    }
  }

  /** Capping before or after doubling makes no difference in the end. */
  lemma {:induction false} CappedDoubling(w: nat, p: nat, cap: nat)
    ensures var x := Min(w * p, cap); Min(x + x, cap) == Min(w * (2 * p), cap)
  {
    assert w * (2 * p) == w * p + w * p;
  }

  // A new stream's window with a maximum below it: the limit and the window are 60, the maximum 5.

  const START: State := State(0, 60, 60, 5, None)
  const FALLING: seq<Event> := [Consume(60), Poll(0, 1, true), Consume(35), Poll(0, 1, true), Consume(25)]
  const RAISED: Grant := Grant(60, 60, 60, 120)
  const LOWERED: Grant := Grant(95, 60, 5, 100)

  lemma {:induction false} RunNext(s: State, events: seq<Event>, n: nat, t: State, grants: seq<Grant>)
    requires n < |events| && Run(s, events[..n]) == (t, grants)
    ensures var (u, more) := Step(t, events[n]);
      Run(s, events[..n + 1]) == (u, grants + more)
    ensures AllHonour(s, events[..n + 1]) <==>
      AllHonour(s, events[..n]) && Honours(Highest(s.maxData, grants), t, events[n])
  {
    assert events[..n + 1][..n] == events[..n];
  }

  lemma {:induction false} FirstUpdate()
    ensures AllHonour(START, FALLING[..2]) && Run(START, FALLING[..2]) == (State(60, 120, 60, 5, Some(0)), [RAISED])
  {
    ghost var none: seq<Grant> := [];
    assert FALLING[..0] == [] && none + none == none && none + [RAISED] == [RAISED];
    RunNext(START, FALLING, 0, START, none);
    RunNext(START, FALLING, 1, State(60, 60, 60, 5, None), none);
  }

  lemma {:induction false} SecondUpdate()
    ensures AllHonour(START, FALLING[..4])
    ensures Run(START, FALLING[..4]) == (State(95, 100, 5, 5, Some(0)), [RAISED, LOWERED])
  {
    FirstUpdate();
    HighestOfTwo();
    assert [RAISED] + [] == [RAISED] && [RAISED] + [LOWERED] == [RAISED, LOWERED];
    RunNext(START, FALLING, 2, State(60, 120, 60, 5, Some(0)), [RAISED]);
    RunNext(START, FALLING, 3, State(95, 120, 60, 5, Some(0)), [RAISED]);
  }

  /** The peer was told 120, then 100, and never sent past 120; yet 120 bytes are read under a
      limit of 100, where the source's unsigned subtraction fails. */
  lemma {:induction false} LimitMayFall()
    ensures AllHonour(START, FALLING)
    ensures Run(START, FALLING) == (State(120, 100, 5, 5, Some(0)), [RAISED, LOWERED])
  {
    SecondUpdate();
    HighestOfTwo();
    assert FALLING[..5] == FALLING && [RAISED, LOWERED] + [] == [RAISED, LOWERED];
    RunNext(START, FALLING, 4, State(95, 100, 5, 5, Some(0)), [RAISED, LOWERED]);
  }

  lemma {:induction false} HighestOfTwo()
    ensures Highest(60, [RAISED]) == 120 && Highest(60, [RAISED, LOWERED]) == 120
  {
    assert [RAISED][..0] == [] && [RAISED, LOWERED][..1] == [RAISED];
  }
}

/** The window, updated in place. */
module FlowControlState {
  import opened Base
  import Spec = FlowControl

  class FlowControl {
    var consumed: nat
    var maxData: nat
    var window: nat
    var maxWindow: nat
    var lastUpdate: Option<nat>

    function State(): Spec.State
      reads this
    {
      Spec.State(consumed, maxData, window, maxWindow, lastUpdate)
    }

    constructor (maxData: nat, window: nat, maxWindow: nat)
      ensures State() == Spec.State(0, maxData, window, maxWindow, None)
    {
      this.consumed, this.maxData, this.window, this.maxWindow, this.lastUpdate := 0, maxData, window, maxWindow, None;
    }

    method AddConsumed(n: nat)
      modifies this
      ensures State() == Spec.Step(old(State()), Spec.Consume(n)).0
    {
      consumed := consumed + n;
    }

    /** The source subtracts unsigned numbers, so the peer must have kept to the limit. */
    predicate ShouldUpdateMaxData()
      requires consumed <= maxData
      reads this
      ensures ShouldUpdateMaxData() == Spec.ShouldUpdate(State())
    {
      maxData - consumed < window / 2
    }

    function MaxDataNext(): nat
      reads this
    {
      consumed + window
    }

    method UpdateMaxData(now: nat)
      modifies this
      ensures State() == Spec.UpdateMaxData(old(State()), now)
    {
      maxData := MaxDataNext();
      lastUpdate := Some(now);
    }

    method AutotuneWindow(now: nat, rtt: nat)
      modifies this
      ensures State() == Spec.AutotuneWindow(old(State()), now, rtt)
    {
      if lastUpdate.Some? {
        if Max(0, now - lastUpdate.value) < rtt * Spec.WINDOW_TRIGGER_FACTOR {
          window := Min(window * Spec.WINDOW_INCREASE_FACTOR, maxWindow);
        }
      }
    }

    method EnsureWindowLowerBound(least: nat)
      modifies this
      ensures State() == Spec.EnsureWindowLowerBound(old(State()), least)
    {
      if least > window { window := least; }
    }

    /** One poll: an update goes out when the check is positive. */
    method Poll(now: nat, rtt: nat, autotune: bool) returns (sent: Option<nat>)
      requires consumed <= maxData
      modifies this
      ensures var (t, grants) := Spec.Step(old(State()), Spec.Poll(now, rtt, autotune));
        State() == t && sent == if grants == [] then None else Some(grants[0].limit)
    {
      if !ShouldUpdateMaxData() { return None; }
      if autotune { AutotuneWindow(now, rtt); }
      UpdateMaxData(now);
      sent := Some(maxData);
    }
  }
}
