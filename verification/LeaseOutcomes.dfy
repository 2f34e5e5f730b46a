/** What each transaction over tasks and leases leaves, said on the documents' fields: where
    `LeaseLifecycle` proves what every step keeps, this proves what each one does. */
module LeaseOutcomes {
  import opened Common
  import opened Admission
  import opened LeaseLifecycle

  // ----- what a task takes --------------------------------------------------------------

  /** A task takes its units in the global pool and its tenant's, resource class's, runner's and
      backend's, and one session in its provider's and the tenant's share of it. */
  predicate Takes(r: Request, n: string, k: nat) {
    (n in {"global", "tenant:" + r.tenant, "resource:" + r.resourceClass, "runner:" + r.runnerProfile, "backend:" + r.backend}
     && k == r.units)
    || (r.provider.Some? && r.provider.value != ""
        && n in {"provider:" + r.provider.value, "provider:" + r.provider.value + ":tenant:" + r.tenant} && k == 1)
  }

  lemma {:induction false} OtherLetter(n: string)
    requires n != "" && n[0] != 'p'
    ensures !IsProviderPool(n)
  {
    assert "provider:"[0] == 'p';
  }

  lemma {:induction false} TakesExactly(r: Request, n: string, k: nat)
    ensures Takes(r, n, k) <==> n in PoolNames(r) && UnitsIn(n, r.units) == k
  {
    var names := PoolNames(r);
    OtherLetter(names[0]);
    OtherLetter(names[1]);
    OtherLetter(names[2]);
    OtherLetter(names[3]);
    OtherLetter(names[4]);
    if r.provider.Some? && r.provider.value != "" {
      var p := "provider:" + r.provider.value;
      assert p[..9] == "provider:" && (p + ":tenant:" + r.tenant)[..9] == "provider:";
      assert IsProviderPool(p) && IsProviderPool(p + ":tenant:" + r.tenant);
    }
  }

  /** What a lease holds in a pool: what it recorded, or its units where it recorded nothing. */
  predicate Holding(l: Lease, n: string, k: nat) {
    n in l.pools && if l.poolUnits.Some? && n in l.poolUnits.value then k == l.poolUnits.value[n] else k == l.units
  }

  // ----- admission ----------------------------------------------------------------------

  /** A configured pool the task needs has room for what it takes there. */
  predicate HasRoom(db: Db, r: Request, n: string, k: nat) {
    Takes(r, n, k) && n in db.pools ==> db.pools[n].HasCapacity(k)
  }

  /** A task is admitted exactly when it is READY with no cancel pressed and every configured
      pool has room for what it takes there. */
  lemma {:induction false} AdmittedExactly(db: Db, r: Request)
    ensures Acquire(db, r).1.Admitted?
       <==> r.id in db.tasks && db.tasks[r.id].state == Ready && !db.tasks[r.id].cancelRequested
            && forall n, k {:trigger HasRoom(db, r, n, k)} :: HasRoom(db, r, n, k)
  {
    AdmitsExactly(db, r);
    forall n, k: nat
      ensures Takes(r, n, k) <==> n in PoolNames(r) && UnitsIn(n, r.units) == k
    {
      TakesExactly(r, n, k);
    }
    if forall n, k {:trigger HasRoom(db, r, n, k)} :: HasRoom(db, r, n, k) {
      forall n | n in PoolNames(r) && n in db.pools
        ensures db.pools[n].HasCapacity(UnitsIn(n, r.units))
      {
        assert HasRoom(db, r, n, UnitsIn(n, r.units));
      }
    }
  }

  /** What an admission writes: the task LEASED under a new unreleased lease of the next
      generation, and no other task or lease. */
  lemma {:induction false} AdmissionLeaves(db: Db, r: Request)
    requires Acquire(db, r).1.Admitted?
    ensures var (db', outcome) := Acquire(db, r);
            var task, lease := db.tasks[r.id], |db.leases|;
            && outcome == Admitted(lease)
            && db'.tasks == db.tasks[r.id := Task(Leased, false, Some(lease), task.generation + 1, task.attempts + 1)]
            && |db'.leases| == lease + 1 && db'.leases[..lease] == db.leases
            && db'.leases[lease].task == r.id && db'.leases[lease].generation == task.generation + 1
            && !db'.leases[lease].released
  {
    AdmitsExactly(db, r);
  }

  /** The lease records what was taken in each pool, and the pools that exist are raised by just
      that. */
  lemma {:induction false} AdmissionTakes(db: Db, r: Request, n: string, k: nat)
    requires Acquire(db, r).1.Admitted?
    ensures var db' := Acquire(db, r).0;
            && db'.pools.Keys == db.pools.Keys && |db'.leases| > |db.leases|
            && (Takes(r, n, k) ==> Holding(db'.leases[|db.leases|], n, k))
            && (Takes(r, n, k) && n in db.pools ==> db'.pools[n] == db.pools[n].(active := db.pools[n].active + k))
            && ((forall j: nat :: !Takes(r, n, j)) && n in db.pools ==> db'.pools[n] == db.pools[n])
  {
    AllOrNothing(db, r);
    AdmissionMints(db, r);
    TakesExactly(r, n, k);
    TakesExactly(r, n, UnitsIn(n, r.units));
  }

  lemma {:induction false} AdmissionMints(db: Db, r: Request)
    requires Acquire(db, r).1.Admitted?
    ensures Acquire(db, r).0.leases == db.leases + [MintLease(r, db.tasks[r.id])]
  {
  }

  /** Why a pool holds a task back. */
  predicate HoldsBack(db: Db, r: Request, n: string, k: nat, b: Blocker) {
    Takes(r, n, k) && n in db.pools
    && var pool := db.pools[n];
       b.pool == n && b.active == pool.active && b.limit == pool.EffectiveLimit() && !pool.HasCapacity(k)
       && (b.reason.ManualPause? <==> !pool.enabled)
       && (b.reason.PoolLimitUnset? <==> pool.enabled && pool.hardLimit.None?)
  }

  lemma {:induction false} BlockersOfNames(pools: map<string, Pool>, names: seq<string>, units: nat, b: Blocker)
    ensures b in Evaluate(pools, names, units, 1) <==> b.pool in names && BlockerOf(pools, b.pool, units, 1) == Some(b)
  {
    if names != [] {
      BlockersOfNames(pools, names[..|names| - 1], units, b);
      assert names == names[..|names| - 1] + [names[|names| - 1]];
    }
  }

  /** A denial says why: the task is gone, or not READY, or being cancelled, or exactly the pools
      that hold it back, each with its reason. */
  lemma {:induction false} DenialSaysWhy(db: Db, r: Request, b: Blocker)
    requires Acquire(db, r).1.Denied?
    ensures match Acquire(db, r).1.why
            case TaskMissing => r.id !in db.tasks
            case NotReady(state) => r.id in db.tasks && db.tasks[r.id].state == state != Ready
            case CancelRequested => r.id in db.tasks && db.tasks[r.id].state == Ready && db.tasks[r.id].cancelRequested
            case Blocked(blockers) =>
              r.id in db.tasks && db.tasks[r.id].state == Ready && !db.tasks[r.id].cancelRequested
              && (b in blockers <==> exists k :: HoldsBack(db, r, b.pool, k, b))
  {
    var names := PoolNames(r);
    BlockersOfNames(db.pools, names, r.units, b);
    forall k: nat
      ensures Takes(r, b.pool, k) <==> b.pool in names && UnitsIn(b.pool, r.units) == k
    {
      TakesExactly(r, b.pool, k);
    }
    assert BlockerOf(db.pools, b.pool, r.units, 1) == Some(b) && b.pool in names
      ==> HoldsBack(db, r, b.pool, UnitsIn(b.pool, r.units), b);
  }

  // ----- release ------------------------------------------------------------------------

  /** What release returns of one pool: never below zero. */
  ghost predicate GivenBack(l: Lease, n: string, before: Pool, after: Pool) {
    SameLimits(before, after) && after.enabled == before.enabled
    && (n !in l.pools ==> after == before)
    && forall k: nat :: Holding(l, n, k) ==>
         after.active >= 0 && (after.active == before.active - k || (after.active == 0 && before.active < k))
  }

  /** The lease, if it was unreleased, is released and its pools get back what it holds; nothing
      else among leases and pools changes. */
  ghost predicate Frees(db: Db, db': Db, lease: nat) {
    if lease >= |db.leases| || db.leases[lease].released then db'.leases == db.leases && db'.pools == db.pools
    else
      && db'.leases == db.leases[lease := db.leases[lease].(released := true)]
      && db'.pools.Keys == db.pools.Keys
      && forall n :: n in db.pools ==> GivenBack(db.leases[lease], n, db.pools[n], db'.pools[n])
  }

  lemma {:induction false} ReleaseLeaves(db: Db, lease: nat)
    ensures Frees(db, Release(db, lease).0, lease) && Release(db, lease).0.tasks == db.tasks
    ensures Release(db, lease).1 <==> lease < |db.leases| && !db.leases[lease].released
  {
    if lease < |db.leases| && !db.leases[lease].released {
      var l, db' := db.leases[lease], Release(db, lease).0;
      assert l.pools[..|l.pools|] == l.pools;
      forall n | n in db.pools
        ensures GivenBack(l, n, db.pools[n], db'.pools[n])
      {
        assert n in l.pools ==> Holding(l, n, l.HeldIn(n));
      }
    }
  }

  // ----- the state machine, read by where it leads --------------------------------------

  /** From where each state may be entered. */
  lemma {:induction false} EnteredFrom(s: TaskState, t: TaskState)
    ensures CanTransition(s, t) <==>
            match t
            case Submitted => false
            case Queued => s == Submitted
            case Ready => s in {Queued, Parked, Leased, Dispatched, Starting, Running, Failed}
            case Leased => s == Ready
            case Dispatched => s == Leased
            case Starting => s == Dispatched
            case Running => s == Starting
            case Parked => s in {Queued, Ready, Leased, Running}
            case Succeeded => s in {Parked, Running}
            case Failed => s in {Queued, Parked, Ready, Leased, Dispatched, Starting, Running}
            case Cancelled => !IsTerminal(s)
            case DeadLettered => s in {Parked, Failed}
  {
  }

  // ----- what each transaction leaves ---------------------------------------------------

  /** Only this task's document may differ. */
  ghost predicate OnlyTask(db: Db, db': Db, id: string) {
    db'.tasks.Keys == db.tasks.Keys && forall t :: t in db.tasks && t != id ==> db'.tasks[t] == db.tasks[t]
  }

  ghost predicate KeepsLeases(db: Db, db': Db) {
    db'.leases == db.leases && db'.pools == db.pools
  }

  /** The task in another state and under no lease, all else as it was. */
  ghost predicate MovedOff(before: Task, after: Task, to: TaskState) {
    after.state == to && after.currentLease.None? && after.generation == before.generation
    && after.cancelRequested == before.cancelRequested && after.attempts == before.attempts
  }

  /** A reclaim's fence: the generation passes the expected one, in any state but a terminal one. */
  function GenerationAfter(task: Task, expected: nat): nat {
    if task.state !in {Succeeded, Failed, Cancelled, DeadLettered} && task.generation == expected then expected + 1
    else task.generation
  }

  /** The guard refuses: the task, past the fence, still holds the lease at its generation. */
  ghost predicate ReclaimRefused(db: Db, id: string, expected: nat, lease: Option<nat>, guarded: bool)
    requires id in db.tasks && (lease.Some? ==> lease.value < |db.leases|)
  {
    guarded && lease.Some? && db.tasks[id].state in {Leased, Dispatched, Starting, Running}
    && db.tasks[id].currentLease == lease
    && GenerationAfter(db.tasks[id], expected) == db.leases[lease.value].generation
  }

  /** Where the repair moves the task: CANCELLED in place of READY or FAILED under a pressed cancel. */
  function RepairState(task: Task, to: TaskState): TaskState {
    if task.cancelRequested && (to == Ready || to == Failed) then Cancelled else to
  }

  /** The repair applies: the task is not terminal, on no lease or the one the finding is about,
      and may go where the repair wants it. */
  ghost predicate Repairable(task: Task, repair: Repair) {
    task.state !in {Succeeded, Failed, Cancelled, DeadLettered}
    && (task.currentLease.None? || task.currentLease == repair.expectedLease)
    && CanTransition(task.state, RepairState(task, repair.to))
  }

  lemma {:induction false} NeverToItself(s: TaskState)
    ensures !CanTransition(s, s)
  {
  }

  /** What a reclaim does. Refused, it moves the generation at most. Otherwise the lease is
      released with what it holds given back, and the task is in the repair's state under no
      lease exactly when the repair applies; if not, only its generation moves. */
  lemma {:induction false} ReclaimLeaves(db: Db, id: string, expected: nat, lease: Option<nat>, repair: Option<Repair>, guarded: bool)
    requires id in db.tasks && (lease.Some? ==> lease.value < |db.leases| && db.leases[lease.value].task == id)
    requires repair.Some? ==> !HoldsCapacity(repair.value.to)
    ensures var db' := ApplyReclaim(db, id, expected, lease, repair, guarded);
            var was := db.tasks[id];
            var fenced := was.(generation := GenerationAfter(was, expected));
            && OnlyTask(db, db', id)
            && if ReclaimRefused(db, id, expected, lease, guarded) then KeepsLeases(db, db') && db'.tasks[id] == fenced
               else
                 && (if lease.Some? then Frees(db, db', lease.value) else KeepsLeases(db, db'))
                 && (if repair.Some? && Repairable(was, repair.value)
                     then MovedOff(fenced, db'.tasks[id], RepairState(was, repair.value.to))
                     else db'.tasks[id] == fenced)
  {
    var was := db.tasks[id];
    var fenced := Fenced(was, expected);
    assert fenced == was.(generation := GenerationAfter(was, expected));
    if repair.Some? {
      NeverToItself(was.state);
      RepairTargets(fenced, repair.value);
    }
    var target := TargetOf(fenced, repair);
    var after := SetTask(db, id, if target.Some? then MoveOff(fenced, target.value) else fenced);
    if lease.Some? {
      ReleaseLeaves(after, lease.value);
    }
  }

  lemma {:induction false} RepairTargets(task: Task, repair: Repair)
    ensures TargetOf(task, Some(repair))
         == if Repairable(task, repair) then Some(RepairState(task, repair.to)) else None
  {
    NeverToItself(task.state);
  }

  /** So a task whose worker was lost runs again: after an unrefused reclaim to READY with no
      cancel pressed, its old attempt owns nothing, and it is admitted once its pools have room. */
  lemma {:induction false} ReclaimedRunsAgain(db: Db, id: string, lease: nat, r: Request)
    requires id in db.tasks && HoldsCapacity(db.tasks[id].state) && !db.tasks[id].cancelRequested && r.id == id
    requires lease < |db.leases| && db.leases[lease].task == id && db.tasks[id].currentLease == Some(lease)
    ensures var db' := ApplyReclaim(db, id, db.tasks[id].generation, Some(lease), Some(Repair(Ready, Some(lease))), false);
            && lease < |db'.leases| && db'.leases[lease].released && db'.tasks[id].state == Ready
            && !Owns(db', id, db.tasks[id].generation, lease)
            && (Acquire(db', r).1.Admitted? <==> forall n, k {:trigger HasRoom(db', r, n, k)} :: HasRoom(db', r, n, k))
  {
    ReclaimLeaves(db, id, db.tasks[id].generation, Some(lease), Some(Repair(Ready, Some(lease))), false);
    AdmittedExactly(ApplyReclaim(db, id, db.tasks[id].generation, Some(lease), Some(Repair(Ready, Some(lease))), false), r);
  }

  /** The attempt's fence, on the documents: the task at its generation in a capacity state, the
      lease its own, unreleased, of that generation, and no other lease current. */
  ghost predicate OwnedBy(db: Db, id: string, generation: nat, lease: nat) {
    id in db.tasks && lease < |db.leases|
    && db.tasks[id].generation == generation == db.leases[lease].generation
    && db.tasks[id].state in {Leased, Dispatched, Starting, Running}
    && db.leases[lease].task == id && !db.leases[lease].released
    && (db.tasks[id].currentLease.Some? ==> db.tasks[id].currentLease.value == lease)
  }

  /** A worker's move and its end: nothing unless the attempt still owns the task and the state
      machine allows it; an end leaves the capacity states and frees the lease in one commit. */
  lemma {:induction false} AttemptLeaves(db: Db, id: string, generation: nat, lease: nat, to: TaskState)
    ensures var moved, ended := ApplyAdvance(db, id, generation, lease, to), ApplyEnd(db, id, generation, lease, to);
            var may := OwnedBy(db, id, generation, lease) && CanTransition(db.tasks[id].state, to);
            && (if may && to in {Leased, Dispatched, Starting, Running}
                then OnlyTask(db, moved, id) && KeepsLeases(db, moved) && moved.tasks[id] == db.tasks[id].(state := to)
                else moved == db)
            && (if may && to !in {Leased, Dispatched, Starting, Running}
                then OnlyTask(db, ended, id) && Frees(db, ended, lease) && MovedOff(db.tasks[id], ended.tasks[id], to)
                else ended == db)
  {
    if id in db.tasks {
      ReleaseLeaves(SetTask(db, id, MoveOff(db.tasks[id], to)), lease);
    }
  }

  /** A failed dispatch, for a lease of this task: the task moves on only if it still points at
      the lease and is either LEASED at its generation or superseded with the release already in;
      the lease is freed unless a reclaim or the worker still has it. */
  lemma {:induction false} DispatchFailedLeaves(db: Db, id: string, lease: nat, to: TaskState)
    requires id in db.tasks && lease < |db.leases| && db.leases[lease].task == id && !HoldsCapacity(to)
    ensures var db' := ApplyDispatchFailed(db, id, lease, to);
            var was, held := db.tasks[id], db.leases[lease];
            var holds := was.currentLease == Some(lease) && was.state in {Leased, Dispatched, Starting, Running};
            var mine := holds && was.state == Leased && was.generation == held.generation;
            var left := holds && was.generation != held.generation && held.released;
            && OnlyTask(db, db', id)
            && (if (mine || left) && CanTransition(was.state, to) then MovedOff(was, db'.tasks[id], to)
                else db'.tasks[id] == was)
            && (if !holds || (mine && CanTransition(was.state, to))
                then Frees(db, db', lease) else KeepsLeases(db, db'))
  {
    ReleaseLeaves(db, lease);
    ReleaseLeaves(SetTask(db, id, MoveOff(db.tasks[id], to)), lease);
  }

  /** A cancel with nobody to act on it: released, fenced and CANCELLED at once. */
  lemma {:induction false} CancelUnattendedLeaves(db: Db, id: string)
    requires id in db.tasks
    ensures var db' := ApplyCancelUnattended(db, id);
            var was := db.tasks[id];
            if was.state in {Leased, Dispatched, Starting, Running} && was.currentLease.Some? then
              OnlyTask(db, db', id) && Frees(db, db', was.currentLease.value)
              && db'.tasks[id] == Task(Cancelled, true, None, was.generation + 1, was.attempts)
            else db' == db
  {
    var was := db.tasks[id];
    if was.currentLease.Some? {
      ReleaseLeaves(SetTask(db, id, MoveOff(was, Cancelled).(cancelRequested := true, generation := was.generation + 1)),
                    was.currentLease.value);
    }
  }

  /** The guarded release: refused exactly while the task the lease names holds it. */
  lemma {:induction false} ReleaseOrphanLeaves(db: Db, lease: nat)
    requires lease < |db.leases|
    ensures var id := db.leases[lease].task;
            if id in db.tasks && db.tasks[id].state in {Leased, Dispatched, Starting, Running}
               && db.tasks[id].currentLease == Some(lease) && db.tasks[id].generation == db.leases[lease].generation
            then ApplyReleaseOrphan(db, lease) == db
            else Frees(db, ApplyReleaseOrphan(db, lease), lease) && ApplyReleaseOrphan(db, lease).tasks == db.tasks
  {
    ReleaseLeaves(db, lease);
  }

  /** The record of a dispatch: only of a task as its admission left it. */
  lemma {:induction false} MarkDispatchedLeaves(db: Db, id: string, lease: nat)
    requires id in db.tasks && lease < |db.leases|
    ensures var db' := ApplyMarkDispatched(db, id, lease);
            && OnlyTask(db, db', id) && KeepsLeases(db, db')
            && db'.tasks[id] == if db.tasks[id].state == Leased && db.tasks[id].currentLease == Some(lease)
                                   && db.tasks[id].generation == db.leases[lease].generation
                                then db.tasks[id].(state := Dispatched) else db.tasks[id]
  {
  }

  /** The steps that write one document: a submission, a move between states that hold nothing, a
      cancel pressed, a fence, and a pool's limits set. */
  lemma {:induction false} SingleWritesLeave(db: Db, id: string, to: TaskState, expected: nat, name: string,
                                             hard: Option<int>, adaptive: Option<int>, quota: Option<int>, enabled: bool)
    ensures id !in db.tasks ==>
              Apply(db, Submit(id)) == db.(tasks := db.tasks[id := Task(Submitted, false, None, 0, 0)])
    ensures id in db.tasks ==>
              && Apply(db, Submit(id)) == db
              && Apply(db, PressCancel(id)) == db.(tasks := db.tasks[id := db.tasks[id].(cancelRequested := true)])
              && Apply(db, Fence(id, expected))
                 == db.(tasks := db.tasks[id := db.tasks[id].(generation := GenerationAfter(db.tasks[id], expected))])
              && Apply(db, Move(id, to))
                 == (if CanTransition(db.tasks[id].state, to) && db.tasks[id].state !in {Leased, Dispatched, Starting, Running}
                        && to !in {Leased, Dispatched, Starting, Running}
                     then db.(tasks := db.tasks[id := db.tasks[id].(state := to)]) else db)
    ensures name in db.pools ==>
              Apply(db, SetPool(name, hard, adaptive, quota, enabled))
              == db.(pools := db.pools[name := Pool(hard, adaptive, quota, db.pools[name].active, enabled)])
  {
    if id in db.tasks {
      assert Fenced(db.tasks[id], expected) == db.tasks[id].(generation := GenerationAfter(db.tasks[id], expected));
    }
  }
}
