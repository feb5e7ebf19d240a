/** The sharded buffer pool of buffer-pool/src/lib.rs as a transition system.

    Any number of handles are in flight at once, each a `get`, `get_empty` or `from_owned` followed
    by a `drop`, and each action is one atomic access to shared memory.  Actions of different
    handles interleave arbitrarily; atomics are sequentially consistent. */
module BufferPool {
  import opened Base

  /** `AtomicUsize` wraps around. */
  const USIZE: nat := 0x1_0000_0000_0000_0000

  /** Buffers are told apart by a number, so that handing one out twice would show. */
  type Buffer = nat

  /** Where a handle stands between its atomic actions. */
  datatype Stage =
    | Picked    // get: has taken a shard number
    | Popped    // get: has taken a buffer out of the queue, the count not yet lowered
    | Held      // the caller owns the buffer
    | Reserved  // drop: has raised the count from below the maximum, not yet pushed
    | Overflow  // drop: has raised the count at the maximum, not yet lowered it again

  datatype Handle = Handle(stage: Stage, shard: nat, buf: Option<Buffer>)

  datatype Shard = Shard(queue: seq<Buffer>, count: int)

  /** `handles` are the handles in flight; buffers from `unused` on do not exist yet. */
  datatype Pool = Pool(limit: nat, shards: seq<Shard>, nextShard: nat, handles: map<nat, Handle>, unused: Buffer)

  datatype Action =
    | Pick(h: nat)             // get: take the next shard number
    | PickOwned(h: nat)        // from_owned: the same, with the caller's buffer
    | PickEmpty(h: nat)        // get_empty: read the shard number
    | Pop(h: nat)              // get: pop the queue, or make a new buffer
    | LowerAfterPop(h: nat)    // get: lower the count
    | TakeInner(h: nat)        // into_inner: the caller keeps the buffer, a new one is left behind
    | Discard(h: nat)          // drop: the buffer does not qualify
    | Raise(h: nat)            // drop: raise the count and look at its old value
    | Push(h: nat)             // drop: push the buffer
    | LowerAfterRaise(h: nat)  // drop: no room, lower the count again

  /** The room of one shard: the pool's limit divided by the number of shards. */
  function MaxOf(p: Pool): nat
    requires |p.shards| > 0
  {
    p.limit / |p.shards|
  }

  predicate Enabled(p: Pool, a: Action) {
    match a
    case Pick(h) => h !in p.handles
    case PickOwned(h) => h !in p.handles
    case PickEmpty(h) => h !in p.handles
    case Pop(h) => h in p.handles && p.handles[h].stage == Picked
    case LowerAfterPop(h) => h in p.handles && p.handles[h].stage == Popped
    case TakeInner(h) => h in p.handles && p.handles[h].stage == Held
    case Discard(h) => h in p.handles && p.handles[h].stage == Held
    case Raise(h) => h in p.handles && p.handles[h].stage == Held
    case Push(h) => h in p.handles && p.handles[h].stage == Reserved
    case LowerAfterRaise(h) => h in p.handles && p.handles[h].stage == Overflow
  }

  predicate HasBuffer(stage: Stage) { stage == Popped || stage == Held || stage == Reserved }

  predicate WellFormed(p: Pool) {
    && |p.shards| > 0
    && forall h <- p.handles ::
         p.handles[h].shard < |p.shards| && (p.handles[h].buf.Some? <==> HasBuffer(p.handles[h].stage))
  }

  function WithShard(p: Pool, s: nat, shard: Shard): Pool
    requires s < |p.shards|
  {
    p.(shards := p.shards[s := shard])
  }

  function Apply(p: Pool, a: Action): Pool
    requires WellFormed(p) && Enabled(p, a)
  {
    var turn := p.nextShard % |p.shards|;
    var next := (p.nextShard + 1) % USIZE;
    match a
    case Pick(h) => p.(nextShard := next, handles := p.handles[h := Handle(Picked, turn, None)])
    case PickOwned(h) =>
      p.(nextShard := next, handles := p.handles[h := Handle(Held, turn, Some(p.unused))], unused := p.unused + 1)
    case PickEmpty(h) =>
      p.(handles := p.handles[h := Handle(Held, turn, Some(p.unused))], unused := p.unused + 1)
    case Pop(h) =>
      var s := p.handles[h].shard;
      var shard := p.shards[s];
      if shard.queue == [] then
        p.(handles := p.handles[h := Handle(Held, s, Some(p.unused))], unused := p.unused + 1)
      else
        WithShard(p, s, shard.(queue := shard.queue[1..]))
          .(handles := p.handles[h := Handle(Popped, s, Some(shard.queue[0]))])
    case LowerAfterPop(h) =>
      var s := p.handles[h].shard;
      WithShard(p, s, p.shards[s].(count := p.shards[s].count - 1))
        .(handles := p.handles[h := p.handles[h].(stage := Held)])
    case TakeInner(h) =>
      p.(handles := p.handles[h := p.handles[h].(buf := Some(p.unused))], unused := p.unused + 1)
    case Discard(h) => p.(handles := p.handles - {h})
    case Raise(h) =>
      var s := p.handles[h].shard;
      var shard := p.shards[s];
      var handle := if shard.count < MaxOf(p) then p.handles[h].(stage := Reserved) else Handle(Overflow, s, None);
      WithShard(p, s, shard.(count := shard.count + 1)).(handles := p.handles[h := handle])
    case Push(h) =>
      var s := p.handles[h].shard;
      WithShard(p, s, p.shards[s].(queue := p.shards[s].queue + [p.handles[h].buf.value]))
        .(handles := p.handles - {h})
    case LowerAfterRaise(h) =>
      var s := p.handles[h].shard;
      WithShard(p, s, p.shards[s].(count := p.shards[s].count - 1)).(handles := p.handles - {h})
  }

  // ---------- the invariant ----------

  function Members(m: map<nat, Handle>, stage: Stage, s: nat): set<nat> {
    set h <- m | m[h].stage == stage && m[h].shard == s
  }

  /** The count is the queue plus everyone between two actions; the queue, with what was taken
      out of it or promised to it, stays within the maximum. */
  predicate Counted(p: Pool, s: nat)
    requires WellFormed(p) && s < |p.shards|
  {
    var popped, reserved := |Members(p.handles, Popped, s)|, |Members(p.handles, Reserved, s)|;
    && p.shards[s].count == |p.shards[s].queue| + popped + reserved + |Members(p.handles, Overflow, s)|
    && |p.shards[s].queue| + popped + reserved <= MaxOf(p)
  }

  predicate AllCounted(p: Pool)
    requires WellFormed(p)
  {
    forall s :: 0 <= s < |p.shards| ==> Counted(p, s)
  }

  /** Buffer `b` lies in some shard's queue. */
  predicate Queued(p: Pool, b: Buffer) { exists s :: 0 <= s < |p.shards| && b in p.shards[s].queue }

  predicate Owns(p: Pool, h: nat, b: Buffer) { h in p.handles && p.handles[h].buf == Some(b) }

  /** No queue holds a buffer twice, and no two queues share one. */
  predicate QueuesDistinct(p: Pool) {
    && (forall s, i, j :: 0 <= s < |p.shards| && 0 <= i < j < |p.shards[s].queue| ==>
          p.shards[s].queue[i] != p.shards[s].queue[j])
    && (forall s, t, b :: 0 <= s < t < |p.shards| && b in p.shards[s].queue ==> b !in p.shards[t].queue)
  }

  /** No buffer is in two places: two handles, a handle and a queue, or two spots of the queues. */
  ghost predicate Unique(p: Pool) {
    && QueuesDistinct(p)
    && (forall b: Buffer :: Queued(p, b) ==> b < p.unused)
    && (forall h: nat, b: Buffer :: Owns(p, h, b) ==> b < p.unused && !Queued(p, b))
    && (forall h: nat, g: nat, b: Buffer :: Owns(p, h, b) && Owns(p, g, b) ==> h == g)
  }

  lemma {:induction false} RemoveOne(s: set<nat>, h: nat)
    ensures |s - {h}| == |s| - (if h in s then 1 else 0)
  {
    if h in s { assert s == (s - {h}) + {h}; } else { assert s - {h} == s; }
  }

  lemma {:induction false} MembersOthers(m: map<nat, Handle>, h: nat, handle: Handle, stage: Stage, s: nat)
    ensures Members(m[h := handle], stage, s) - {h} == Members(m, stage, s) - {h}
    ensures h in Members(m[h := handle], stage, s) <==> handle.stage == stage && handle.shard == s
  {
    var m' := m[h := handle];
    assert forall g :: g != h ==> (g in m' <==> g in m) && (g in m ==> m'[g] == m[g]);
  }

  /** How replacing or adding one handle changes the number at a stage of a shard. */
  lemma {:induction false} MembersUpdate(m: map<nat, Handle>, h: nat, handle: Handle, stage: Stage, s: nat)
    ensures |Members(m[h := handle], stage, s)| ==
      |Members(m, stage, s)| - (if h in Members(m, stage, s) then 1 else 0)
        + (if handle.stage == stage && handle.shard == s then 1 else 0)
  {
    MembersOthers(m, h, handle, stage, s);
    RemoveOne(Members(m, stage, s), h);
    RemoveOne(Members(m[h := handle], stage, s), h);
  }

  lemma {:induction false} MembersRemove(m: map<nat, Handle>, h: nat, stage: Stage, s: nat)
    ensures |Members(m - {h}, stage, s)| == |Members(m, stage, s)| - (if h in Members(m, stage, s) then 1 else 0)
  {
    assert Members(m - {h}, stage, s) == Members(m, stage, s) - {h};
    RemoveOne(Members(m, stage, s), h);
  }

  lemma {:induction false} StepCounts(p: Pool, a: Action, s: nat)
    requires WellFormed(p) && Enabled(p, a) && s < |p.shards| && Counted(p, s)
    ensures WellFormed(Apply(p, a)) && |Apply(p, a).shards| == |p.shards| && Apply(p, a).limit == p.limit
    ensures Counted(Apply(p, a), s)
  {
    var p' := Apply(p, a);
    var h := a.h;
    if h in p'.handles {
      MembersUpdate(p.handles, h, p'.handles[h], Popped, s);
      MembersUpdate(p.handles, h, p'.handles[h], Reserved, s);
      MembersUpdate(p.handles, h, p'.handles[h], Overflow, s);
    } else {
      MembersRemove(p.handles, h, Popped, s);
      MembersRemove(p.handles, h, Reserved, s);
      MembersRemove(p.handles, h, Overflow, s);
    }
  }

  /** A step that only touches handle `h`, giving it nothing or a buffer nobody else has. */
  lemma {:induction false} HandleStepUnique(p: Pool, p': Pool, h: nat)
    requires Unique(p) && p.unused <= p'.unused
    requires |p'.shards| == |p.shards| && forall s :: 0 <= s < |p.shards| ==> p'.shards[s].queue == p.shards[s].queue
    requires forall g :: g != h ==> (g in p'.handles <==> g in p.handles)
    requires forall g :: g != h && g in p.handles ==> p'.handles[g] == p.handles[g]
    requires forall b :: Owns(p', h, b) ==> Owns(p, h, b) || (b == p.unused && p.unused < p'.unused)
    ensures Unique(p')
  {
    assert QueuesDistinct(p');
    forall b | Queued(p', b) ensures Queued(p, b) {
      var s :| 0 <= s < |p'.shards| && b in p'.shards[s].queue;
      assert b in p.shards[s].queue;
    }
    forall g, b | Owns(p', g, b) ensures Owns(p, g, b) || (g == h && b == p.unused < p'.unused) {}
  }

  /** Popping moves the first buffer of a queue to the handle. */
  lemma {:induction false} PopUnique(p: Pool, h: nat)
    requires WellFormed(p) && Unique(p) && Enabled(p, Pop(h)) && p.shards[p.handles[h].shard].queue != []
    ensures Unique(Apply(p, Pop(h)))
  {
    var p' := Apply(p, Pop(h));
    var s := p.handles[h].shard;
    var q := p.shards[s].queue;
    assert q == [q[0]] + q[1..];
    forall b | Queued(p', b) ensures Queued(p, b) && b != q[0] {
      var t :| 0 <= t < |p'.shards| && b in p'.shards[t].queue;
      assert b in p.shards[t].queue;
      assert t != s ==> q[0] in p.shards[s].queue;
    }
    assert Queued(p, q[0]);
    forall g, b | Owns(p', g, b) ensures if g == h then b == q[0] else Owns(p, g, b) {}
  }

  /** Pushing moves the handle's buffer to the end of a queue. */
  lemma {:induction false} PushUnique(p: Pool, h: nat)
    requires WellFormed(p) && Unique(p) && Enabled(p, Push(h))
    ensures Unique(Apply(p, Push(h)))
  {
    var p' := Apply(p, Push(h));
    var s, e := p.handles[h].shard, p.handles[h].buf.value;
    assert Owns(p, h, e);
    forall t | 0 <= t < |p.shards| ensures e !in p.shards[t].queue { assert !Queued(p, e); }
    forall b | Queued(p', b) ensures Queued(p, b) || b == e {
      var t :| 0 <= t < |p'.shards| && b in p'.shards[t].queue;
      assert b in p.shards[t].queue || b == e;
    }
    forall g, b | Owns(p', g, b) ensures Owns(p, g, b) && g != h {}
  }

  lemma {:induction false} StepUnique(p: Pool, a: Action)
    requires WellFormed(p) && Unique(p) && Enabled(p, a)
    ensures Unique(Apply(p, a))
  {
    match a
    case Pop(h) =>
      if p.shards[p.handles[h].shard].queue == [] { HandleStepUnique(p, Apply(p, a), h); } else { PopUnique(p, h); }
    case Push(h) => PushUnique(p, h);
    case _ => HandleStepUnique(p, Apply(p, a), a.h);
  }

  // ---------- runs ----------

  predicate Init(p: Pool) {
    && |p.shards| > 0 && p.nextShard == 0 && p.handles == map[]
    && forall s :: 0 <= s < |p.shards| ==> p.shards[s] == Shard([], 0)
  }

  ghost predicate IsRun(pools: seq<Pool>, actions: seq<Action>) {
    && |pools| == |actions| + 1 && Init(pools[0])
    && forall n :: 0 <= n < |actions| ==>
         WellFormed(pools[n]) && Enabled(pools[n], actions[n]) && pools[n + 1] == Apply(pools[n], actions[n])
  }

  ghost predicate Inv(p: Pool) { WellFormed(p) && AllCounted(p) && Unique(p) }

  lemma {:induction false} StepInv(p: Pool, a: Action)
    requires Inv(p) && Enabled(p, a)
    ensures Inv(Apply(p, a))
  {
    StepCounts(p, a, 0);
    forall s | 0 <= s < |p.shards| ensures Counted(Apply(p, a), s) { StepCounts(p, a, s); }
    StepUnique(p, a);
  }

  lemma {:induction false} RunInv(pools: seq<Pool>, actions: seq<Action>, n: nat)
    requires IsRun(pools, actions) && n < |pools|
    ensures Inv(pools[n])
    ensures pools[n].limit == pools[0].limit && |pools[n].shards| == |pools[0].shards|
  {
    if n == 0 {
      var p := pools[0];
      forall s | 0 <= s < |p.shards| ensures Counted(p, s) {
        assert forall stage :: Members(p.handles, stage, s) == {};
      }
    } else {
      RunInv(pools, actions, n - 1);
      StepInv(pools[n - 1], actions[n - 1]);
      StepCounts(pools[n - 1], actions[n - 1], 0);
    }
  }

  function Stored(shards: seq<Shard>): nat {
    if shards == [] then 0 else |shards[0].queue| + Stored(shards[1..])
  }

  lemma {:induction false} StoredBound(shards: seq<Shard>, max: nat)
    requires forall shard <- shards :: |shard.queue| <= max
    ensures Stored(shards) <= |shards| * max
  {
    if shards != [] { StoredBound(shards[1..], max); }
  }

  /** No handle of shard `s` is between two of its actions on the shard. */
  predicate Idle(p: Pool, s: nat) {
    forall h <- p.handles :: p.handles[h].shard == s ==> p.handles[h].stage == Held || p.handles[h].stage == Picked
  }

  lemma {:induction false} ShardBounds(p: Pool, s: nat)
    requires WellFormed(p) && s < |p.shards| && Counted(p, s)
    ensures |p.shards[s].queue| + |Members(p.handles, Reserved, s)| <= MaxOf(p) && 0 <= p.shards[s].count
    ensures Idle(p, s) ==> p.shards[s].count == |p.shards[s].queue|
  {
    if Idle(p, s) {
      assert Members(p.handles, Popped, s) == {} && Members(p.handles, Reserved, s) == {};
      assert Members(p.handles, Overflow, s) == {};
    }
  }

  lemma {:induction false} ShareOut(limit: nat, n: nat)
    requires n > 0
    ensures n * (limit / n) <= limit
  {}

  /** In every state of every interleaving: no shard's queue, with the slots reserved in it,
      exceeds its maximum; the count is never negative, and while no operation is in the middle of
      its actions on the shard it is the length of the queue; all shards together hold at most
      `limit` buffers; and no buffer is in two places. */
  lemma {:induction false} RunSafe(pools: seq<Pool>, actions: seq<Action>, n: nat)
    requires IsRun(pools, actions) && n < |pools|
    ensures var p := pools[n];
      && WellFormed(p)
      && (forall s :: 0 <= s < |p.shards| ==>
            && |p.shards[s].queue| + |Members(p.handles, Reserved, s)| <= MaxOf(p)
            && 0 <= p.shards[s].count
            && (Idle(p, s) ==> p.shards[s].count == |p.shards[s].queue|))
      && Stored(p.shards) <= pools[0].limit
      && Unique(p)
  {
    var p := pools[n];
    RunInv(pools, actions, n);
    forall s | 0 <= s < |p.shards|
      ensures |p.shards[s].queue| + |Members(p.handles, Reserved, s)| <= MaxOf(p) && 0 <= p.shards[s].count
      ensures Idle(p, s) ==> p.shards[s].count == |p.shards[s].queue|
    {
      ShardBounds(p, s);
    }
    StoredBound(p.shards, MaxOf(p));
    ShareOut(p.limit, |p.shards|);
  }

  lemma {:induction false} NoUnderflow(pools: seq<Pool>, actions: seq<Action>, n: nat)
    requires IsRun(pools, actions) && n < |actions|
    requires actions[n].LowerAfterPop? || actions[n].LowerAfterRaise?
    ensures var p, h := pools[n], actions[n].h;
      h in p.handles && p.handles[h].shard < |p.shards| && p.shards[p.handles[h].shard].count >= 1
  {
    RunInv(pools, actions, n);
    var p, h := pools[n], actions[n].h;
    var s := p.handles[h].shard;
    assert Counted(p, s);
    assert h in Members(p.handles, p.handles[h].stage, s);
  }

  // ---------- what get and drop do ----------

  /** The shards other than `s` and the handles other than `h` are untouched. */
  ghost predicate OnlyTouches(p: Pool, p': Pool, h: nat, s: nat) {
    && |p'.shards| == |p.shards| && p'.limit == p.limit && p'.nextShard == p.nextShard
    && (forall t :: 0 <= t < |p.shards| && t != s ==> p'.shards[t] == p.shards[t])
    && (forall g: nat :: g != h ==> (g in p'.handles <==> g in p.handles))
    && (forall g: nat :: g != h && g in p.handles && g in p'.handles ==> p'.handles[g] == p.handles[g])
  }

  /** Dropping a buffer while its shard has room returns exactly that buffer to the shard's queue. */
  lemma {:induction false} DropReturns(p: Pool, h: nat)
    requires WellFormed(p) && Enabled(p, Raise(h)) && p.shards[p.handles[h].shard].count < p.limit / |p.shards|
    ensures var s, b, raised := p.handles[h].shard, p.handles[h].buf, Apply(p, Raise(h));
      && WellFormed(raised) && Enabled(raised, Push(h)) && !Enabled(raised, LowerAfterRaise(h))
      && var p' := Apply(raised, Push(h));
        && b.Some? && h !in p'.handles && p'.unused == p.unused && OnlyTouches(p, p', h, s)
        && p'.shards[s].queue == p.shards[s].queue + [b.value]
        && p'.shards[s].count == p.shards[s].count + 1
  {}

  /** Dropping a buffer while its shard has no room lets go of it and leaves the shard as it was. */
  lemma {:induction false} DropOverflows(p: Pool, h: nat)
    requires WellFormed(p) && Enabled(p, Raise(h)) && p.shards[p.handles[h].shard].count >= p.limit / |p.shards|
    ensures var s, raised := p.handles[h].shard, Apply(p, Raise(h));
      && WellFormed(raised) && Enabled(raised, LowerAfterRaise(h)) && !Enabled(raised, Push(h))
      && var p' := Apply(raised, LowerAfterRaise(h));
        && h !in p'.handles && p'.unused == p.unused && OnlyTouches(p, p', h, s) && p'.shards == p.shards
  {}

  /** Taking from a queue that is not empty hands out its oldest buffer and nothing else. */
  lemma {:induction false} GetReuses(p: Pool, h: nat)
    requires WellFormed(p) && Enabled(p, Pop(h)) && p.shards[p.handles[h].shard].queue != []
    ensures var s, popped := p.handles[h].shard, Apply(p, Pop(h));
      && WellFormed(popped) && Enabled(popped, LowerAfterPop(h))
      && var p' := Apply(popped, LowerAfterPop(h));
        && h in p'.handles && p'.handles[h].stage == Held && p'.handles[h].buf.Some? && p'.handles[h].shard == s
        && [p'.handles[h].buf.value] + p'.shards[s].queue == p.shards[s].queue
        && p'.shards[s].count == p.shards[s].count - 1 && p'.unused == p.unused && OnlyTouches(p, p', h, s)
  {}

  /** Taking from an empty queue makes a buffer nobody has seen and leaves the shard as it was. */
  lemma {:induction false} GetCreates(p: Pool, h: nat)
    requires WellFormed(p) && Enabled(p, Pop(h)) && p.shards[p.handles[h].shard].queue == []
    ensures var s, p' := p.handles[h].shard, Apply(p, Pop(h));
      && h in p'.handles && p'.handles[h] == Handle(Held, s, Some(p.unused)) && p'.unused == p.unused + 1
      && p'.shards == p.shards && OnlyTouches(p, p', h, s)
  {}

  /** Taking the inner value keeps it out of the pool: the handle is left with a buffer nobody has
      seen.  A buffer that does not qualify for reuse is let go. */
  lemma {:induction false} TakenOrDiscarded(p: Pool, h: nat)
    requires WellFormed(p) && Enabled(p, TakeInner(h))
    ensures var s, p' := p.handles[h].shard, Apply(p, TakeInner(h));
      && p'.handles == p.handles[h := Handle(Held, s, Some(p.unused))] && p'.unused == p.unused + 1
      && p'.shards == p.shards && OnlyTouches(p, p', h, s)
    ensures var p' := Apply(p, Discard(h));
      h !in p'.handles && p'.shards == p.shards && p'.unused == p.unused && OnlyTouches(p, p', h, p.handles[h].shard)
  {}

  /** How many of the first `n` actions take the next shard number. */
  function Picks(actions: seq<Action>, n: nat): nat
    requires n <= |actions|
  {
    if n == 0 then 0
    else Picks(actions, n - 1) + (if actions[n - 1].Pick? || actions[n - 1].PickOwned? then 1 else 0)
  }

  /** The shard counter moves by one for `get` and `from_owned` only; all three ways to get a handle
      assign the shard it points to. */
  lemma {:induction false} AssignsShard(p: Pool, a: Action)
    requires WellFormed(p) && Enabled(p, a)
    ensures var p' := Apply(p, a);
      && p'.nextShard == (if a.Pick? || a.PickOwned? then (p.nextShard + 1) % USIZE else p.nextShard)
      && (a.Pick? || a.PickOwned? || a.PickEmpty? ==>
            a.h in p'.handles && p'.handles[a.h].shard == p.nextShard % |p.shards|)
  {}

  lemma {:induction false} StepAt(pools: seq<Pool>, actions: seq<Action>, n: nat)
    requires IsRun(pools, actions) && n < |actions|
    ensures |pools[n].shards| == |pools[0].shards|
    ensures WellFormed(pools[n]) && Enabled(pools[n], actions[n]) && pools[n + 1] == Apply(pools[n], actions[n])
  {
    RunInv(pools, actions, n);
  }

  lemma {:induction false} CounterIsPicks(pools: seq<Pool>, actions: seq<Action>, n: nat)
    requires IsRun(pools, actions) && n < |pools| && Picks(actions, n) < USIZE
    ensures pools[n].nextShard == Picks(actions, n)
  {
    if n > 0 {
      CounterIsPicks(pools, actions, n - 1);
      StepAt(pools, actions, n - 1);
      AssignsShard(pools[n - 1], actions[n - 1]);
    }
  }

  /** Handles are dealt to the shards in turn: the k-th one to ask gets shard k modulo their number,
      until the counter wraps around. */
  lemma {:induction false} ShardsInTurn(pools: seq<Pool>, actions: seq<Action>, n: nat)
    requires IsRun(pools, actions) && n < |actions| && Picks(actions, n) < USIZE
    requires actions[n].Pick? || actions[n].PickOwned? || actions[n].PickEmpty?
    ensures var h := actions[n].h;
      h in pools[n + 1].handles && pools[n + 1].handles[h].shard == Picks(actions, n) % |pools[0].shards|
  {
    CounterIsPicks(pools, actions, n);
    StepAt(pools, actions, n);
    AssignsShard(pools[n], actions[n]);
  }

  /** A buffer that is dropped and gets back into its shard's empty queue is what the next handle on
      that shard is given. */
  lemma {:induction false} DroppedIsReused(p: Pool, h: nat, g: nat)
    requires WellFormed(p) && Enabled(p, Raise(h)) && h != g && Enabled(p, Pop(g))
    requires p.handles[g].shard == p.handles[h].shard
    requires var shard := p.shards[p.handles[h].shard]; shard.queue == [] && shard.count < p.limit / |p.shards|
    ensures var returned := Apply(Apply(p, Raise(h)), Push(h));
      Enabled(returned, Pop(g)) && Apply(returned, Pop(g)).handles[g].buf == p.handles[h].buf
  {
    DropReturns(p, h);
    GetReuses(Apply(Apply(p, Raise(h)), Push(h)), g);
  }
}
