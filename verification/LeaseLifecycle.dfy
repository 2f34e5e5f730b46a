/** What every transaction over leases keeps, and what follows for whole runs: pools
    count exactly the leases that hold them, no step takes a pool past its limit, a task
    holds at most one lease, and a fenced attempt never writes again. */
module LeaseLifecycle {
  import opened Admission
  import opened Common

  // ----- what a pool's count means ------------------------------------------------------

  /** The units unreleased leases hold in a pool. */
  function HeldSum(leases: seq<Lease>, name: string): nat {
    if leases == [] then 0 else HeldSum(leases[..|leases| - 1], name) + leases[|leases| - 1].Counts(name)
  }

  /** `active` is the count of the leases holding the pool, exactly. */
  ghost predicate Conserved(db: Db) {
    forall n :: n in db.pools ==> db.pools[n].active == HeldSum(db.leases, n)
  }

  lemma {:induction false} HeldSumAppend(leases: seq<Lease>, l: Lease, name: string)
    ensures HeldSum(leases + [l], name) == HeldSum(leases, name) + l.Counts(name)
  {
    assert (leases + [l])[..|leases|] == leases;
  }

  lemma {:induction false} HeldSumUpdate(leases: seq<Lease>, id: nat, l: Lease, name: string)
    requires id < |leases|
    ensures HeldSum(leases[id := l], name) + leases[id].Counts(name) == HeldSum(leases, name) + l.Counts(name)
    ensures leases[id].Counts(name) <= HeldSum(leases, name)
  {
    var n := |leases| - 1;
    if id < n {
      HeldSumUpdate(leases[..n], id, l, name);
      assert leases[id := l][..n] == leases[..n][id := l];
    } else {
      assert leases[id := l][..n] == leases[..n];
    }
  }

  /** The new lease counts for exactly the shares its pools were raised by. */
  lemma {:induction false} MintedShares(r: Request, task: Task, name: string)
    ensures MintLease(r, task).Counts(name) == if name in PoolNames(r) then UnitsIn(name, r.units) else 0
  {
  }

  lemma {:induction false} AcquireConserves(db: Db, r: Request)
    requires Conserved(db)
    ensures Conserved(Acquire(db, r).0)
  {
    if Acquire(db, r).1.Admitted? {
      var db' := Acquire(db, r).0;
      forall n | n in db'.pools
        ensures db'.pools[n].active == HeldSum(db'.leases, n)
      {
        HeldSumAppend(db.leases, MintLease(r, db.tasks[r.id]), n);
        MintedShares(r, db.tasks[r.id], n);
      }
    }
  }

  /** A release gives back what the lease holds and no more, so `max(0, ...)` never clips. */
  lemma {:induction false} ReleaseConserves(db: Db, id: nat)
    requires Conserved(db)
    ensures Conserved(Release(db, id).0)
  {
    if Release(db, id).1 {
      var db', lease := Release(db, id).0, db.leases[id];
      forall n | n in db'.pools
        ensures db'.pools[n].active == HeldSum(db'.leases, n)
      {
        HeldSumUpdate(db.leases, id, lease.(released := true), n);
      }
    }
  }

  // ----- one admission ---------------------------------------------------------------------

  /** Admission is possible exactly when the task is READY with no cancel pressed and every
      configured pool it needs has room for its share. */
  ghost predicate Admissible(db: Db, r: Request) {
    && r.id in db.tasks && db.tasks[r.id].state.Ready? && !db.tasks[r.id].cancelRequested
    && forall n :: n in PoolNames(r) && n in db.pools ==> db.pools[n].HasCapacity(UnitsIn(n, r.units))
  }

  lemma {:induction false} AdmitsExactly(db: Db, r: Request)
    ensures Acquire(db, r).1.Admitted? <==> Admissible(db, r)
  {
    var names := PoolNames(r);
    EvaluateEmpty(db.pools, names, r.units, 1);
    forall n | n in names && n in db.pools
      ensures BlockerOf(db.pools, n, r.units, 1).None? <==> db.pools[n].HasCapacity(UnitsIn(n, r.units))
    {
    }
  }

  /** All or nothing: a denial writes nothing, and an admission raises every configured
      pool it needs by its share and touches no other pool, task or lease. */
  lemma {:induction false} AllOrNothing(db: Db, r: Request)
    ensures var (db', outcome) := Acquire(db, r);
            && (outcome.Denied? ==> db' == db)
            && (outcome.Admitted? ==>
                 && outcome.lease == |db.leases| && db'.leases[..|db.leases|] == db.leases && |db'.leases| == |db.leases| + 1
                 && db'.tasks.Keys == db.tasks.Keys
                 && (forall t :: t in db.tasks && t != r.id ==> db'.tasks[t] == db.tasks[t])
                 && db'.tasks[r.id].currentLease == Some(outcome.lease)
                 && db'.tasks[r.id].generation == db.tasks[r.id].generation + 1 == db'.leases[outcome.lease].generation
                 && db'.pools.Keys == db.pools.Keys
                 && forall n :: n in db.pools ==>
                      db'.pools[n] == db.pools[n].(active := db.pools[n].active
                        + if n in PoolNames(r) then UnitsIn(n, r.units) else 0))
  {
  }

  predicate SameLimits(p: Pool, q: Pool) {
    p.hardLimit == q.hardLimit && p.adaptiveTarget == q.adaptiveTarget && p.quotaLimit == q.quotaLimit
  }

  /** No admission takes a pool past any of its limits: the hard one, the adaptive target or the
      quota's. */
  lemma {:induction false} AdmissionWithinLimit(db: Db, r: Request, n: string)
    requires n in db.pools
    ensures var db' := Acquire(db, r).0;
            && n in db'.pools && SameLimits(db.pools[n], db'.pools[n])
            && (db'.pools[n].active <= db.pools[n].active
                || (db.pools[n].enabled && (db'.pools[n].active <= 0 || db.pools[n].AllowsAll(db'.pools[n].active))))
  {
    AdmitsExactly(db, r);
    AllOrNothing(db, r);
  }

  lemma {:induction false} GiveBackUndoesReserve(pools: map<string, Pool>, lease: Lease, units: nat)
    requires lease.poolUnits == Some(Shares(lease.pools, units))
    requires forall n :: n in pools ==> pools[n].active >= 0
    ensures GiveBack(Reserve(pools, lease.pools, units), lease, |lease.pools|) == pools
  {
    var raised := Reserve(pools, lease.pools, units);
    forall n | n in pools
      ensures GiveBack(raised, lease, |lease.pools|)[n] == pools[n]
    {
    }
  }

  /** Release undoes the admission's reservation in every pool. */
  lemma {:induction false} ReleaseUndoesAdmission(db: Db, r: Request)
    requires Conserved(db) && Acquire(db, r).1.Admitted?
    ensures var (db', outcome) := Acquire(db, r);
            Release(db', outcome.lease).1 && Release(db', outcome.lease).0.pools == db.pools
  {
    GiveBackUndoesReserve(db.pools, MintLease(r, db.tasks[r.id]), r.units);
  }

  /** A second release of the same lease, by whoever raced, changes nothing. */
  lemma {:induction false} ReleaseIsIdempotent(db: Db, id: nat)
    ensures Release(Release(db, id).0, id) == (Release(db, id).0, false)
  {
  }

  /** Two requests race for the last room in a pool they both need: whichever runs first
      is admitted and the other is denied. */
  lemma {:induction false} LastSlotHasOneWinner(db: Db, r: Request, s: Request, n: string)
    requires r.id != s.id && Admissible(db, r) && Admissible(db, s)
    requires n in db.pools && n in PoolNames(r) && n in PoolNames(s)
    requires db.pools[n].active + UnitsIn(n, r.units) + UnitsIn(n, s.units) > db.pools[n].EffectiveLimit().value
    ensures var first := Acquire(db, r);
            first.1.Admitted? && Acquire(first.0, s).1.Denied? && Acquire(first.0, s).0 == first.0
  {
    AdmitsExactly(db, r);
    AllOrNothing(db, r);
    AdmitsExactly(Acquire(db, r).0, s);
    AllOrNothing(Acquire(db, r).0, s);
  }

  // ----- pools made while leases are out ---------------------------------------------------

  /** A pool document written where there was none starts at zero active. */
  function CreatePool(db: Db, name: string, pool: Pool): Db {
    if name in db.pools then db else db.(pools := db.pools[name := pool.(active := 0)])
  }

  /** The counts survive a new pool exactly when no unreleased lease holds units in it. */
  lemma {:induction false} CreatePoolConservesExactly(db: Db, name: string, pool: Pool)
    requires Conserved(db) && name !in db.pools
    ensures Conserved(CreatePool(db, name, pool)) <==> HeldSum(db.leases, name) == 0
  {
    var db' := CreatePool(db, name, pool);
    assert db'.pools[name].active == 0;
  }

  /** Why that matters: once a lease older than the pool is released, the pool counts
      less than is held. A pool made with room for one such lease then admits a second
      holder beside the first. */
  lemma {:induction false} PoolMadeUnderALeaseUndercounts(db: Db, id: nat, n: string, pool: Pool, b: Request)
    requires Conserved(db) && n !in db.pools && id < |db.leases| && !db.leases[id].released
    requires Acquire(CreatePool(db, n, pool), b).1.Admitted? && n in PoolNames(b)
    ensures var older, newer := db.leases[id].HeldIn(n), UnitsIn(n, b.units);
            var after := Release(Acquire(CreatePool(db, n, pool), b).0, id).0;
            && n in after.pools
            && after.pools[n].active == Max(0, newer - older)
            && HeldSum(after.leases, n) == HeldSum(db.leases, n) - older + newer >= newer
            && (older == newer > 0 && pool.hardLimit == Some(newer) && pool.adaptiveTarget.None? && pool.quotaLimit.None?
                  && pool.enabled ==>
                after.pools[n].HasCapacity(newer) && HeldSum(after.leases, n) + newer > after.pools[n].EffectiveLimit().value)
  {
    var db1 := CreatePool(db, n, pool);
    AllOrNothing(db1, b);
    var db2 := Acquire(db1, b).0;
    assert db2.leases[id] == db.leases[id];
    MintedShares(b, db1.tasks[b.id], n);
    HeldSumAppend(db.leases, MintLease(b, db1.tasks[b.id]), n);
    HeldSumUpdate(db2.leases, id, db2.leases[id].(released := true), n);
    HeldSumUpdate(db.leases, id, db.leases[id], n);
  }

  predicate ReadyTask(db: Db, id: string) {
    id in db.tasks && db.tasks[id] == Task(Ready, false, None, 0, 0)
  }

  /** The first is admitted, the pool is made with room for one, the second is admitted, the
      first released. */
  function MadeUnderFirst(start: Db, a: Request, b: Request, n: string): Db {
    var made := CreatePool(Acquire(start, a).0, n, Pool(Some(1), None, None, 0, true));
    Release(Acquire(made, b).0, 0).0
  }

  lemma {:induction false} AdmittedWithoutPools(start: Db, a: Request)
    requires start.pools == map[] && ReadyTask(start, a.id)
    ensures Acquire(start, a).1.Admitted?
  {
    AdmitsExactly(start, a);
  }

  lemma {:induction false} AdmittedIntoOne(made: Db, b: Request, n: string)
    requires made.pools == map[n := Pool(Some(1), None, None, 0, true)] && ReadyTask(made, b.id) && UnitsIn(n, b.units) == 1
    ensures Acquire(made, b).1.Admitted?
  {
    AdmitsExactly(made, b);
    assert made.pools[n].HasCapacity(1);
  }

  /** It happens to any two READY tasks that take one unit of the same missing pool: it then
      counts nobody and has room again while the second still holds it. */
  lemma {:induction false} TwoTasksUndercount(start: Db, a: Request, b: Request, n: string)
    requires start.pools == map[] && start.leases == [] && ReadyTask(start, a.id) && ReadyTask(start, b.id) && a.id != b.id
    requires n in PoolNames(a) && n in PoolNames(b) && UnitsIn(n, a.units) == UnitsIn(n, b.units) == 1
    ensures var after := MadeUnderFirst(start, a, b, n);
            && HeldSum(after.leases, n) == 1
            && n in after.pools && after.pools[n].active == 0 && after.pools[n].HasCapacity(1)
  {
    AdmittedWithoutPools(start, a);
    AllOrNothing(start, a);
    AcquireConserves(start, a);
    var first := Acquire(start, a).0;
    var lease := MintLease(a, start.tasks[a.id]);
    MintedShares(a, start.tasks[a.id], n);
    HeldSumAppend([], lease, n);
    assert first.leases == [lease];
    var pool := Pool(Some(1), None, None, 0, true);
    AdmittedIntoOne(CreatePool(first, n, pool), b, n);
    PoolMadeUnderALeaseUndercounts(first, 0, n, pool, b);
  }

  /** For instance to two tasks of one provider. */
  lemma {:induction false} UndercountHappens()
    ensures var ready := Task(Ready, false, None, 0, 0);
            var start := Db(map[], map["a" := ready, "b" := ready], []);
            var after := MadeUnderFirst(start, Request("a", "t", Some("p"), "c", "r", "k", 1),
                                        Request("b", "t", Some("p"), "c", "r", "k", 1), "provider:p");
            Conserved(start) && HeldSum(after.leases, "provider:p") == 1 && after.pools["provider:p"].active == 0
  {
    var ready := Task(Ready, false, None, 0, 0);
    var start := Db(map[], map["a" := ready, "b" := ready], []);
    var a, b := Request("a", "t", Some("p"), "c", "r", "k", 1), Request("b", "t", Some("p"), "c", "r", "k", 1);
    assert PoolNames(a)[5] == "provider:p" && PoolNames(b)[5] == "provider:p";
    TwoTasksUndercount(start, a, b, "provider:p");
  }

  // ----- the other transactions on tasks and leases ----------------------------------------

  /** The transitions the state machine allows (states.py, `_ALLOWED`). */
  predicate CanTransition(s: TaskState, t: TaskState) {
    match s
    case Submitted => t.Queued? || t.Cancelled?
    case Queued => t.Ready? || t.Parked? || t.Cancelled? || t.Failed?
    case Parked => t.Ready? || t.Cancelled? || t.DeadLettered? || t.Succeeded? || t.Failed?
    case Ready => t.Leased? || t.Parked? || t.Cancelled? || t.Failed?
    case Leased => t.Dispatched? || t.Ready? || t.Parked? || t.Failed? || t.Cancelled?
    case Dispatched => t.Starting? || t.Ready? || t.Failed? || t.Cancelled?
    case Starting => t.Running? || t.Ready? || t.Failed? || t.Cancelled?
    case Running => t.Succeeded? || t.Failed? || t.Cancelled? || t.Parked? || t.Ready?
    case Failed => t.Ready? || t.DeadLettered?
    case Succeeded | Cancelled | DeadLettered => false
  }

  /** How far an attempt has come, from its lease to its program. */
  function Progress(s: TaskState): nat {
    match s
    case Leased => 1
    case Dispatched => 2
    case Starting => 3
    case Running => 4
    case _ => 0
  }

  /** Capacity is entered only by admission, from READY to LEASED, and among the states that
      hold it a task only goes forward, one at a time; what is terminal and did not fail stays. */
  lemma {:induction false} CapacityIsEnteredByAdmission(s: TaskState, t: TaskState)
    requires CanTransition(s, t)
    ensures HoldsCapacity(t) <==> Progress(t) == Progress(s) + 1 && (s.Ready? || HoldsCapacity(s))
    ensures IsTerminal(s) ==> s.Failed?
    ensures s != t && !t.Submitted?
  {
  }

  /** The attempt at `generation` under `lease` still owns the task: no fence, no release,
      no newer lease (`_task_fence` and `_lease_fence`, neither refusing). */
  predicate Owns(db: Db, id: string, generation: nat, lease: nat) {
    && id in db.tasks && db.tasks[id].generation == generation && HoldsCapacity(db.tasks[id].state)
    && lease < |db.leases| && !db.leases[lease].released && db.leases[lease].generation == generation
    && db.leases[lease].task == id
    && (db.tasks[id].currentLease.None? || db.tasks[id].currentLease == Some(lease))
  }

  /** The task document holds the lease at its generation (`_holds`). */
  predicate Holds(task: Task, db: Db, lease: nat)
    requires lease < |db.leases|
  {
    HoldsCapacity(task.state) && task.currentLease == Some(lease) && task.generation == db.leases[lease].generation
  }

  function MoveOff(task: Task, to: TaskState): Task {
    task.(state := to, currentLease := None)
  }

  /** Where a repair may move the task, if anywhere (`_repair_decision`): not a terminal
      one, not one on another lease than the finding's, and a pressed cancel wins. */
  function RepairTarget(task: Task, expectedLease: Option<nat>, to: TaskState): Option<TaskState> {
    var target := if (to.Ready? || to.Failed?) && task.cancelRequested then Cancelled else to;
    if IsTerminal(task.state) || (task.currentLease.Some? && task.currentLease != expectedLease) then None
    else if task.state == target || !CanTransition(task.state, target) then None
    else Some(target)
  }

  /** A `RepairPlan`: the state to move to and the lease the finding was about. */
  datatype Repair = Repair(to: TaskState, expectedLease: Option<nat>)

  datatype Step =
    | Admit(requests: seq<Request>)
    | Submit(id: string)
    | Move(id: string, to: TaskState)
    | PressCancel(id: string)
    | MarkDispatched(id: string, lease: nat)
    | Advance(id: string, generation: nat, lease: nat, to: TaskState)
    | End(id: string, generation: nat, lease: nat, to: TaskState)
    | DispatchFailed(id: string, lease: nat, to: TaskState)
    | Fence(id: string, expected: nat)
    | Reclaim(id: string, expected: nat, found: Option<nat>, repair: Option<Repair>, guarded: bool)
    | ReleaseLease(lease: nat)
    | ReleaseOrphan(lease: nat)
    | CancelUnattended(id: string)
    | SetPool(name: string, hardLimit: Option<int>, adaptiveTarget: Option<int>, quotaLimit: Option<int>, enabled: bool)
    | AddPool(name: string, pool: Pool)

  function SetTask(db: Db, id: string, task: Task): Db {
    db.(tasks := db.tasks[id := task])
  }

  /** The scheduler's record of a dispatch: it asks for the task as admission left it, not that
      the lease is unreleased. */
  function ApplyMarkDispatched(db: Db, id: string, lease: nat): Db {
    if id in db.tasks && lease < |db.leases| && Holds(db.tasks[id], db, lease) && db.tasks[id].state.Leased?
    then SetTask(db, id, db.tasks[id].(state := Dispatched))
    else db
  }

  /** A worker's move between states that hold capacity: written only while it owns the task. */
  function ApplyAdvance(db: Db, id: string, generation: nat, lease: nat, to: TaskState): Db {
    if Owns(db, id, generation, lease) && HoldsCapacity(to) && CanTransition(db.tasks[id].state, to)
    then SetTask(db, id, db.tasks[id].(state := to))
    else db
  }

  /** A worker's end: the state that holds nothing, and the release, in one commit. */
  function ApplyEnd(db: Db, id: string, generation: nat, lease: nat, to: TaskState): Db {
    if Owns(db, id, generation, lease) && !HoldsCapacity(to) && CanTransition(db.tasks[id].state, to)
    then Release(SetTask(db, id, MoveOff(db.tasks[id], to)), lease).0
    else db
  }

  /** The scheduler's settlement of a dispatch that failed. */
  function ApplyDispatchFailed(db: Db, id: string, lease: nat, to: TaskState): Db {
    if lease >= |db.leases| || db.leases[lease].task != id || HoldsCapacity(to) then db
    else if id !in db.tasks then Release(db, lease).0
    else
      var task, at := db.tasks[id], db.leases[lease].generation;
      var pointsHere := task.currentLease == Some(lease);
      if HoldsCapacity(task.state) && pointsHere && task.generation != at then
        // superseded by a fence: finish the reclaim only if its release is already in
        if db.leases[lease].released && CanTransition(task.state, to) then SetTask(db, id, MoveOff(task, to)) else db
      else if pointsHere && task.generation == at && task.state.Leased? then
        if CanTransition(task.state, to) then Release(SetTask(db, id, MoveOff(task, to)), lease).0 else db
      else if pointsHere && task.generation == at && HoldsCapacity(task.state) then db  // its worker owns it
      else Release(db, lease).0
  }

  function Fenced(task: Task, expected: nat): Task {
    if IsTerminal(task.state) || task.generation != expected then task else task.(generation := task.generation + 1)
  }

  function ApplyFence(db: Db, id: string, expected: nat): Db {
    if id in db.tasks then SetTask(db, id, Fenced(db.tasks[id], expected)) else db
  }

  function TargetOf(task: Task, repair: Option<Repair>): Option<TaskState> {
    if repair.Some? then RepairTarget(task, repair.value.expectedLease, repair.value.to) else None
  }

  /** The reconciler's fence, release and repair in one transaction: a refused release also
      refuses the repair. The finding about a task whose lease is gone releases nothing. */
  function ApplyReclaim(db: Db, id: string, expected: nat, lease: Option<nat>, repair: Option<Repair>, guarded: bool): Db {
    if id !in db.tasks || (lease.Some? && (lease.value >= |db.leases| || db.leases[lease.value].task != id))
       || (repair.Some? && HoldsCapacity(repair.value.to)) then db
    else
      var task := Fenced(db.tasks[id], expected);
      if guarded && lease.Some? && Holds(task, db, lease.value) then SetTask(db, id, task)
      else
        var target := TargetOf(task, repair);
        var after := SetTask(db, id, if target.Some? then MoveOff(task, target.value) else task);
        if lease.Some? then Release(after, lease.value).0 else after
  }

  /** An orphan's release, refused while the task it names still holds it. */
  function ApplyReleaseOrphan(db: Db, lease: nat): Db {
    if lease < |db.leases| && db.leases[lease].task in db.tasks && Holds(db.tasks[db.leases[lease].task], db, lease)
    then db
    else Release(db, lease).0
  }

  /** A cancel with no worker to act on it: released, fenced and ended in one commit. */
  function ApplyCancelUnattended(db: Db, id: string): Db {
    if id !in db.tasks || !HoldsCapacity(db.tasks[id].state) || db.tasks[id].currentLease.None? then db
    else
      var task := db.tasks[id];
      Release(SetTask(db, id, MoveOff(task, Cancelled).(cancelRequested := true, generation := task.generation + 1)),
              task.currentLease.value).0
  }

  function Apply(db: Db, step: Step): Db {
    match step
    case Admit(requests) => AcquireEach(db, requests).0
    case Submit(id) => if id in db.tasks then db else SetTask(db, id, Task(Submitted, false, None, 0, 0))
    case Move(id, to) =>
      if id in db.tasks && !HoldsCapacity(db.tasks[id].state) && !HoldsCapacity(to) && CanTransition(db.tasks[id].state, to)
      then SetTask(db, id, db.tasks[id].(state := to))
      else db
    case PressCancel(id) => if id in db.tasks then SetTask(db, id, db.tasks[id].(cancelRequested := true)) else db
    case MarkDispatched(id, lease) => ApplyMarkDispatched(db, id, lease)
    case Advance(id, generation, lease, to) => ApplyAdvance(db, id, generation, lease, to)
    case End(id, generation, lease, to) => ApplyEnd(db, id, generation, lease, to)
    case DispatchFailed(id, lease, to) => ApplyDispatchFailed(db, id, lease, to)
    case Fence(id, expected) => ApplyFence(db, id, expected)
    case Reclaim(id, expected, lease, repair, guarded) => ApplyReclaim(db, id, expected, lease, repair, guarded)
    case ReleaseLease(lease) => Release(db, lease).0
    case ReleaseOrphan(lease) => ApplyReleaseOrphan(db, lease)
    case CancelUnattended(id) => ApplyCancelUnattended(db, id)
    case SetPool(name, hard, adaptive, quota, enabled) =>
      if name in db.pools then db.(pools := db.pools[name := Pool(hard, adaptive, quota, db.pools[name].active, enabled)]) else db
    case AddPool(name, pool) => CreatePool(db, name, pool)
  }

  /** The database after the first `n` steps, in the order they committed. */
  function Run(db: Db, steps: seq<Step>, n: nat): Db
    requires n <= |steps|
  {
    if n == 0 then db else Apply(Run(db, steps, n - 1), steps[n - 1])
  }

  // ----- what every step keeps --------------------------------------------------------------

  /** An unreleased lease is its task's current one, and the task holds capacity. */
  ghost predicate HeldByItsTask(db: Db, l: nat)
    requires l < |db.leases|
  {
    var lease := db.leases[l];
    && lease.task in db.tasks && lease.generation <= db.tasks[lease.task].generation
    && (!lease.released ==>
         db.tasks[lease.task].currentLease == Some(l) && HoldsCapacity(db.tasks[lease.task].state))
  }

  ghost predicate AllHeld(db: Db) {
    forall l: nat {:trigger HeldByItsTask(db, l)} :: l < |db.leases| ==> HeldByItsTask(db, l)
  }

  /** A task's leases carry strictly growing generations. */
  ghost predicate TokensGrow(leases: seq<Lease>) {
    forall k, l :: 0 <= k < l < |leases| && leases[k].task == leases[l].task ==> leases[k].generation < leases[l].generation
  }

  ghost predicate Inv(db: Db) {
    Conserved(db) && AllHeld(db) && TokensGrow(db.leases)
  }

  /** The lease a repair moves its task off is released, or the one released with it. */
  predicate FreesWhatItLeaves(db: Db, lease: Option<nat>, repair: Option<Repair>) {
    repair.Some? && repair.value.expectedLease.Some? ==>
      var from := repair.value.expectedLease.value;
      from < |db.leases| ==> db.leases[from].released || lease == Some(from)
  }

  /** No pool is made while unreleased leases hold units in it, and no repair leaves behind a
      lease that stays held. */
  ghost predicate Orderly(db: Db, step: Step) {
    && (step.AddPool? && step.name !in db.pools ==> HeldSum(db.leases, step.name) == 0)
    && (step.Reclaim? ==> FreesWhatItLeaves(db, step.found, step.repair))
  }

  /** Tasks are kept and their generations never fall; leases are kept, and stay released. */
  ghost predicate Grows(db: Db, db': Db) {
    && (forall id :: id in db.tasks ==> id in db'.tasks && db.tasks[id].generation <= db'.tasks[id].generation)
    && |db.leases| <= |db'.leases|
    && forall l :: 0 <= l < |db.leases| ==>
         db'.leases[l] == db.leases[l] || db'.leases[l] == db.leases[l].(released := true)
  }

  lemma {:induction false} AcquireKeepsLeases(db: Db, r: Request)
    requires AllHeld(db) && TokensGrow(db.leases)
    ensures AllHeld(Acquire(db, r).0) && TokensGrow(Acquire(db, r).0.leases)
  {
    AllOrNothing(db, r);
    var (db', outcome) := Acquire(db, r);
    if outcome.Admitted? {
      assert db.tasks[r.id].state.Ready?;
      forall l: nat {:trigger HeldByItsTask(db', l)} | l < |db'.leases|
        ensures HeldByItsTask(db', l)
      {
        if l < |db.leases| {
          assert HeldByItsTask(db, l) && db'.leases[l] == db.leases[l];
        }
      }
      forall k | 0 <= k < |db.leases| && db'.leases[k].task == r.id
        ensures db'.leases[k].generation < db'.leases[|db.leases|].generation
      {
        assert HeldByItsTask(db, k);
      }
    }
  }

  lemma {:induction false} AcquireInTurnKeeps(db: Db, rs: seq<Request>, n: nat)
    requires n <= |rs| && Inv(db)
    ensures Inv(AcquireInTurn(db, rs, n).0)
  {
    if n > 0 {
      AcquireInTurnKeeps(db, rs, n - 1);
      AcquireConserves(AcquireInTurn(db, rs, n - 1).0, rs[n - 1]);
      AcquireKeepsLeases(AcquireInTurn(db, rs, n - 1).0, rs[n - 1]);
    }
  }

  /** A step that rewrites one task, keeping its lease or moving it off a released one. */
  lemma {:induction false} SetTaskKeeps(db: Db, id: string, task: Task)
    requires Inv(db) && (id in db.tasks ==> task.generation >= db.tasks[id].generation)
    requires forall l: nat :: l < |db.leases| && db.leases[l].task == id && !db.leases[l].released ==>
               task.currentLease == Some(l) && HoldsCapacity(task.state)
    ensures Inv(SetTask(db, id, task))
  {
    var db' := SetTask(db, id, task);
    forall l: nat {:trigger HeldByItsTask(db', l)} | l < |db'.leases|
      ensures HeldByItsTask(db', l)
    {
      assert HeldByItsTask(db, l);
    }
  }

  /** A release, whatever the task does in the same commit, so long as every other
      unreleased lease of the task stays its current one. */
  lemma {:induction false} ReleaseKeeps(db: Db, id: string, task: Task, lease: nat)
    requires Inv(db) && id in db.tasks && task.generation >= db.tasks[id].generation
    requires forall l: nat :: l < |db.leases| && l != lease && db.leases[l].task == id && !db.leases[l].released ==>
               task.currentLease == Some(l) && HoldsCapacity(task.state)
    requires lease < |db.leases|
    ensures Inv(Release(SetTask(db, id, task), lease).0)
  {
    var mid := SetTask(db, id, task);
    var db' := Release(mid, lease).0;
    ReleaseConserves(mid, lease);
    forall l: nat {:trigger HeldByItsTask(db', l)} | l < |db'.leases|
      ensures HeldByItsTask(db', l)
    {
      assert HeldByItsTask(db, l);
    }
    forall k, l | 0 <= k < l < |db'.leases| && db'.leases[k].task == db'.leases[l].task
      ensures db'.leases[k].generation < db'.leases[l].generation
    {
      assert db.leases[k].task == db.leases[l].task;
    }
  }

  /** A task holds at most one lease. */
  lemma {:induction false} OneLeasePerTask(db: Db, k: nat, l: nat)
    requires AllHeld(db) && k < |db.leases| && l < |db.leases| && !db.leases[k].released && !db.leases[l].released
    requires db.leases[k].task == db.leases[l].task
    ensures k == l
  {
    assert HeldByItsTask(db, k) && HeldByItsTask(db, l);
  }

  lemma {:induction false} ReclaimKeeps(db: Db, id: string, expected: nat, lease: Option<nat>, repair: Option<Repair>, guarded: bool)
    requires Inv(db) && FreesWhatItLeaves(db, lease, repair)
    ensures Inv(ApplyReclaim(db, id, expected, lease, repair, guarded))
  {
    if id in db.tasks {
      var task := Fenced(db.tasks[id], expected);
      var target := TargetOf(task, repair);
      var after := if target.Some? then MoveOff(task, target.value) else task;
      forall l: nat | l < |db.leases| && db.leases[l].task == id && !db.leases[l].released
        ensures task.currentLease == Some(l) && HoldsCapacity(task.state)
      {
        assert HeldByItsTask(db, l);
      }
      SetTaskKeeps(db, id, task);
      if lease.Some? && lease.value < |db.leases| {
        ReleaseKeeps(db, id, after, lease.value);
      } else if lease.None? {
        SetTaskKeeps(db, id, after);
      }
    }
  }

  lemma {:induction false} DispatchFailedKeeps(db: Db, id: string, lease: nat, to: TaskState)
    requires Inv(db)
    ensures Inv(ApplyDispatchFailed(db, id, lease, to))
  {
    if lease < |db.leases| && db.leases[lease].task == id {
      assert HeldByItsTask(db, lease);
      forall l: nat | l < |db.leases| && db.leases[l].task == id && !db.leases[l].released
        ensures db.tasks[id].currentLease == Some(l) && HoldsCapacity(db.tasks[id].state)
      {
        assert HeldByItsTask(db, l);
      }
      assert SetTask(db, id, db.tasks[id]) == db;
      ReleaseKeeps(db, id, db.tasks[id], lease);
      if db.tasks[id].currentLease == Some(lease) {
        ReleaseKeeps(db, id, MoveOff(db.tasks[id], to), lease);
        if db.leases[lease].released {
          SetTaskKeeps(db, id, MoveOff(db.tasks[id], to));
        }
      }
    }
  }

  lemma {:induction false} EndKeeps(db: Db, id: string, generation: nat, lease: nat, to: TaskState)
    requires Inv(db)
    ensures Inv(ApplyEnd(db, id, generation, lease, to))
  {
    if Owns(db, id, generation, lease) {
      assert HeldByItsTask(db, lease);
      forall l: nat | l < |db.leases| && db.leases[l].task == id && !db.leases[l].released
        ensures l == lease
      {
        OneLeasePerTask(db, l, lease);
      }
      ReleaseKeeps(db, id, MoveOff(db.tasks[id], to), lease);
    }
  }

  /** A release alone keeps it, whoever asks and whatever state the task is in. */
  lemma {:induction false} ReleaseAloneKeeps(db: Db, lease: nat)
    requires Inv(db)
    ensures Inv(Release(db, lease).0)
  {
    if lease < |db.leases| {
      assert HeldByItsTask(db, lease);
      var id := db.leases[lease].task;
      forall l: nat | l < |db.leases| && db.leases[l].task == id && !db.leases[l].released
        ensures db.tasks[id].currentLease == Some(l) && HoldsCapacity(db.tasks[id].state)
      {
        assert HeldByItsTask(db, l);
      }
      assert SetTask(db, id, db.tasks[id]) == db;
      ReleaseKeeps(db, id, db.tasks[id], lease);
    }
  }

  lemma {:induction false} CancelUnattendedKeeps(db: Db, id: string)
    requires Inv(db)
    ensures Inv(ApplyCancelUnattended(db, id))
  {
    if id in db.tasks && db.tasks[id].currentLease.Some? {
      var task, lease := db.tasks[id], db.tasks[id].currentLease.value;
      var after := MoveOff(task, Cancelled).(cancelRequested := true, generation := task.generation + 1);
      forall l: nat | l < |db.leases| && db.leases[l].task == id && !db.leases[l].released
        ensures l == lease
      {
        assert HeldByItsTask(db, l);
      }
      if lease < |db.leases| {
        ReleaseKeeps(db, id, after, lease);
      } else {
        SetTaskKeeps(db, id, after);
      }
    }
  }

  lemma {:induction false} PoolStepKeeps(db: Db, step: Step)
    requires Inv(db) && Orderly(db, step) && (step.SetPool? || step.AddPool?)
    ensures Inv(Apply(db, step))
  {
    var db' := Apply(db, step);
    if step.AddPool? && step.name !in db.pools {
      CreatePoolConservesExactly(db, step.name, step.pool);
    }
    forall l: nat {:trigger HeldByItsTask(db', l)} | l < |db'.leases|
      ensures HeldByItsTask(db', l)
    {
      assert HeldByItsTask(db, l);
    }
  }

  lemma {:induction false} TaskStepKeeps(db: Db, step: Step)
    requires Inv(db) && (step.Submit? || step.Move? || step.PressCancel? || step.MarkDispatched? || step.Advance? || step.Fence?)
    ensures Inv(Apply(db, step))
  {
    var id := step.id;
    forall l: nat | l < |db.leases| && db.leases[l].task == id && !db.leases[l].released
      ensures id in db.tasks && db.tasks[id].currentLease == Some(l) && HoldsCapacity(db.tasks[id].state)
    {
      assert HeldByItsTask(db, l);
    }
    match step
    case Submit(_) =>
      if id !in db.tasks {
        SetTaskKeeps(db, id, Task(Submitted, false, None, 0, 0));
      }
    case Move(_, to) =>
      if id in db.tasks && !HoldsCapacity(db.tasks[id].state) {
        SetTaskKeeps(db, id, db.tasks[id].(state := to));
      }
    case PressCancel(_) =>
      if id in db.tasks {
        SetTaskKeeps(db, id, db.tasks[id].(cancelRequested := true));
      }
    case MarkDispatched(_, _) =>
      if id in db.tasks {
        SetTaskKeeps(db, id, db.tasks[id].(state := Dispatched));
      }
    case Advance(_, _, _, to) =>
      if id in db.tasks && HoldsCapacity(to) {
        SetTaskKeeps(db, id, db.tasks[id].(state := to));
      }
    case Fence(_, expected) =>
      if id in db.tasks {
        SetTaskKeeps(db, id, Fenced(db.tasks[id], expected));
      }
  }

  /** Every transaction keeps the counts exact, every unreleased lease its task's own, and
      the fencing tokens growing. */
  lemma {:induction false} StepKeepsInv(db: Db, step: Step)
    requires Inv(db) && Orderly(db, step)
    ensures Inv(Apply(db, step))
  {
    match step
    case Admit(requests) => AcquireInTurnKeeps(db, requests, |requests|);
    case End(id, generation, lease, to) => EndKeeps(db, id, generation, lease, to);
    case DispatchFailed(id, lease, to) => DispatchFailedKeeps(db, id, lease, to);
    case Reclaim(id, expected, lease, repair, guarded) => ReclaimKeeps(db, id, expected, lease, repair, guarded);
    case ReleaseLease(lease) => ReleaseAloneKeeps(db, lease);
    case ReleaseOrphan(lease) => ReleaseAloneKeeps(db, lease);
    case CancelUnattended(id) => CancelUnattendedKeeps(db, id);
    case SetPool(_, _, _, _, _) => PoolStepKeeps(db, step);
    case AddPool(_, _) => PoolStepKeeps(db, step);
    case _ => TaskStepKeeps(db, step);
  }

  // ----- limits ---------------------------------------------------------------------------

  /** A configured limit is not below what the pool counts. */
  ghost predicate Within(pool: Pool) {
    pool.hardLimit.Some? ==> pool.active <= 0 || pool.AllowsAll(pool.active)
  }

  ghost predicate AllWithin(db: Db) {
    forall n :: n in db.pools ==> Within(db.pools[n])
  }

  /** No limit is set below what the pool counts at that moment. */
  ghost predicate NotLowered(db: Db, step: Step) {
    step.SetPool? && step.name in db.pools ==>
      Within(Pool(step.hardLimit, step.adaptiveTarget, step.quotaLimit, db.pools[step.name].active, step.enabled))
  }

  lemma {:induction false} AcquireInTurnWithin(db: Db, rs: seq<Request>, n: nat)
    requires n <= |rs| && AllWithin(db)
    ensures AllWithin(AcquireInTurn(db, rs, n).0)
  {
    if n > 0 {
      AcquireInTurnWithin(db, rs, n - 1);
      var before := AcquireInTurn(db, rs, n - 1).0;
      AllOrNothing(before, rs[n - 1]);
      forall p | p in before.pools
        ensures Within(Acquire(before, rs[n - 1]).0.pools[p])
      {
        AdmissionWithinLimit(before, rs[n - 1], p);
      }
    }
  }

  lemma {:induction false} ReleaseWithin(db: Db, lease: nat)
    requires AllWithin(db)
    ensures AllWithin(Release(db, lease).0)
  {
  }

  lemma {:induction false} StepWithin(db: Db, step: Step)
    requires AllWithin(db) && NotLowered(db, step)
    ensures AllWithin(Apply(db, step))
  {
    match step
    case Admit(requests) => AcquireInTurnWithin(db, requests, |requests|);
    case End(id, generation, lease, to) =>
      if id in db.tasks {
        ReleaseWithin(SetTask(db, id, MoveOff(db.tasks[id], to)), lease);
      }
    case DispatchFailed(id, lease, to) =>
      ReleaseWithin(db, lease);
      if id in db.tasks {
        ReleaseWithin(SetTask(db, id, MoveOff(db.tasks[id], to)), lease);
      }
    case Reclaim(id, expected, lease, repair, guarded) =>
      if id in db.tasks && lease.Some? {
        var task := Fenced(db.tasks[id], expected);
        var target := TargetOf(task, repair);
        ReleaseWithin(SetTask(db, id, if target.Some? then MoveOff(task, target.value) else task), lease.value);
      }
    case ReleaseLease(lease) => ReleaseWithin(db, lease);
    case ReleaseOrphan(lease) => ReleaseWithin(db, lease);
    case CancelUnattended(id) =>
      if id in db.tasks && db.tasks[id].currentLease.Some? {
        var task := db.tasks[id];
        ReleaseWithin(SetTask(db, id, MoveOff(task, Cancelled).(cancelRequested := true, generation := task.generation + 1)),
                      task.currentLease.value);
      }
    case _ =>
  }

  // ----- whole runs -----------------------------------------------------------------------

  ghost predicate OrderlyAt(db: Db, steps: seq<Step>, k: nat) {
    k < |steps| ==> Orderly(Run(db, steps, k), steps[k])
  }

  ghost predicate OrderlyRun(db: Db, steps: seq<Step>) {
    forall k :: OrderlyAt(db, steps, k)
  }

  ghost predicate NotLoweredAt(db: Db, steps: seq<Step>, k: nat) {
    k < |steps| ==> NotLowered(Run(db, steps, k), steps[k])
  }

  /** No step of the run sets a limit below what the pool counts at that moment. */
  ghost predicate NeverLowered(db: Db, steps: seq<Step>) {
    forall k :: NotLoweredAt(db, steps, k)
  }

  /** A store without leases, its pools at zero, is where runs begin. */
  lemma {:induction false} FreshStore(db: Db)
    requires db.leases == [] && forall n :: n in db.pools ==> db.pools[n].active == 0
    ensures Inv(db)
    ensures AllWithin(db)
  {
  }

  lemma {:induction false} RunKeepsInv(db: Db, steps: seq<Step>, n: nat)
    requires Inv(db) && OrderlyRun(db, steps) && n <= |steps|
    ensures Inv(Run(db, steps, n))
  {
    if n > 0 {
      RunKeepsInv(db, steps, n - 1);
      assert OrderlyAt(db, steps, n - 1);
      StepKeepsInv(Run(db, steps, n - 1), steps[n - 1]);
    }
  }

  lemma {:induction false} RunKeepsWithin(db: Db, steps: seq<Step>, n: nat)
    requires AllWithin(db) && n <= |steps|
    requires NeverLowered(db, steps)
    ensures AllWithin(Run(db, steps, n))
  {
    if n > 0 {
      RunKeepsWithin(db, steps, n - 1);
      assert NotLoweredAt(db, steps, n - 1);
      StepWithin(Run(db, steps, n - 1), steps[n - 1]);
    }
  }

  /** In every run, at every moment: what unreleased leases hold in a pool is what the pool
      counts, and never more than its limit. */
  lemma {:induction false} HeldNeverExceedsLimit(db: Db, steps: seq<Step>, n: nat, name: string)
    requires Inv(db) && AllWithin(db) && OrderlyRun(db, steps) && n <= |steps|
    requires NeverLowered(db, steps)
    requires name in Run(db, steps, n).pools
    ensures var now := Run(db, steps, n);
            && HeldSum(now.leases, name) == now.pools[name].active
            && (now.pools[name].hardLimit.Some? && HeldSum(now.leases, name) > 0 ==>
                  now.pools[name].AllowsAll(HeldSum(now.leases, name)))
  {
    RunKeepsInv(db, steps, n);
    RunKeepsWithin(db, steps, n);
    assert Within(Run(db, steps, n).pools[name]);
  }

  /** The pool's limits are the same, and its count grew only if every limit allows that. */
  predicate Fits(before: Pool, after: Pool) {
    SameLimits(before, after)
    && (after.active <= before.active || after.active <= 0 || before.AllowsAll(after.active))
  }

  lemma {:induction false} AcquireInTurnFits(db: Db, rs: seq<Request>, n: nat, name: string)
    requires n <= |rs| && name in db.pools
    ensures name in AcquireInTurn(db, rs, n).0.pools && Fits(db.pools[name], AcquireInTurn(db, rs, n).0.pools[name])
  {
    if n > 0 {
      AcquireInTurnFits(db, rs, n - 1, name);
      AdmissionWithinLimit(AcquireInTurn(db, rs, n - 1).0, rs[n - 1], name);
    }
  }

  lemma {:induction false} ReleaseFits(db: Db, lease: nat, name: string)
    requires name in db.pools && db.pools[name].active >= 0
    ensures name in Release(db, lease).0.pools && Fits(db.pools[name], Release(db, lease).0.pools[name])
  {
  }

  predicate LeavesLimit(step: Step, name: string) {
    step.SetPool? ==> step.name != name
  }

  /** No step but a limit's own takes a pool's count above the larger of what it was and the
      limit; setting limits leaves the count alone. */
  lemma {:induction false} StepFits(db: Db, step: Step, name: string)
    requires Conserved(db) && name in db.pools
    ensures name in Apply(db, step).pools
    ensures LeavesLimit(step, name) ==> Fits(db.pools[name], Apply(db, step).pools[name])
    ensures step.SetPool? ==> Apply(db, step).pools[name].active == db.pools[name].active
  {
    match step
    case Admit(requests) => AcquireInTurnFits(db, requests, |requests|, name);
    case End(id, generation, lease, to) =>
      if id in db.tasks {
        ReleaseFits(SetTask(db, id, MoveOff(db.tasks[id], to)), lease, name);
      }
    case DispatchFailed(id, lease, to) =>
      ReleaseFits(db, lease, name);
      if id in db.tasks {
        ReleaseFits(SetTask(db, id, MoveOff(db.tasks[id], to)), lease, name);
      }
    case Reclaim(id, expected, lease, repair, guarded) =>
      if id in db.tasks && lease.Some? {
        var task := Fenced(db.tasks[id], expected);
        var target := TargetOf(task, repair);
        ReleaseFits(SetTask(db, id, if target.Some? then MoveOff(task, target.value) else task), lease.value, name);
      }
    case ReleaseLease(lease) => ReleaseFits(db, lease, name);
    case ReleaseOrphan(lease) => ReleaseFits(db, lease, name);
    case CancelUnattended(id) =>
      if id in db.tasks && db.tasks[id].currentLease.Some? {
        var task := db.tasks[id];
        ReleaseFits(SetTask(db, id, MoveOff(task, Cancelled).(cancelRequested := true, generation := task.generation + 1)),
                    task.currentLease.value, name);
      }
    case _ =>
  }

  lemma {:induction false} FitsTransitive(a: Pool, b: Pool, c: Pool)
    requires Fits(a, b) && Fits(b, c)
    ensures Fits(a, c)
  {
  }

  lemma {:induction false} CountsFit(db: Db, steps: seq<Step>, from: nat, n: nat, name: string)
    requires Inv(db) && OrderlyRun(db, steps) && from <= n <= |steps| && name in Run(db, steps, from).pools
    requires forall k :: from <= k < n ==> LeavesLimit(steps[k], name)
    ensures name in Run(db, steps, n).pools && Fits(Run(db, steps, from).pools[name], Run(db, steps, n).pools[name])
    decreases n
  {
    if n > from {
      CountsFit(db, steps, from, n - 1, name);
      RunKeepsInv(db, steps, n - 1);
      var before := Run(db, steps, n - 1);
      assert LeavesLimit(steps[n - 1], name);
      StepFits(before, steps[n - 1], name);
      FitsTransitive(Run(db, steps, from).pools[name], before.pools[name], Apply(before, steps[n - 1]).pools[name]);
    }
  }

  /** Limits may be lowered below what is held: from then on, until the pool's limits are set
      again, what is held is at most the larger of what it was and the limit. */
  lemma {:induction false} OverfullOnlyDrains(db: Db, steps: seq<Step>, from: nat, n: nat, name: string)
    requires Inv(db) && OrderlyRun(db, steps) && from <= n <= |steps| && name in Run(db, steps, from).pools
    requires forall k :: from <= k < n ==> LeavesLimit(steps[k], name)
    ensures var was, held := Run(db, steps, from), HeldSum(Run(db, steps, n).leases, name);
            held <= HeldSum(was.leases, name) || was.pools[name].AllowsAll(held)
  {
    RunKeepsInv(db, steps, from);
    RunKeepsInv(db, steps, n);
    CountsFit(db, steps, from, n, name);
  }

  /** In every run a task outside the capacity states holds no lease, and no task holds two. */
  lemma {:induction false} OnlyRunningTasksHold(db: Db, steps: seq<Step>, n: nat, k: nat, l: nat)
    requires Inv(db) && OrderlyRun(db, steps) && n <= |steps|
    requires k < |Run(db, steps, n).leases| && l < |Run(db, steps, n).leases|
    requires !Run(db, steps, n).leases[k].released && !Run(db, steps, n).leases[l].released
    ensures var now := Run(db, steps, n);
            && now.leases[k].task in now.tasks && HoldsCapacity(now.tasks[now.leases[k].task].state)
            && (now.leases[k].task == now.leases[l].task ==> k == l)
  {
    RunKeepsInv(db, steps, n);
    var now := Run(db, steps, n);
    assert HeldByItsTask(now, k);
    if now.leases[k].task == now.leases[l].task {
      OneLeasePerTask(now, k, l);
    }
  }

  // ----- fencing ----------------------------------------------------------------------------

  lemma {:induction false} GrowsTransitive(a: Db, b: Db, c: Db)
    requires Grows(a, b) && Grows(b, c)
    ensures Grows(a, c)
  {
  }

  lemma {:induction false} AcquireInTurnGrows(db: Db, rs: seq<Request>, n: nat)
    requires n <= |rs|
    ensures Grows(db, AcquireInTurn(db, rs, n).0)
  {
    if n > 0 {
      AcquireInTurnGrows(db, rs, n - 1);
      var before := AcquireInTurn(db, rs, n - 1).0;
      AllOrNothing(before, rs[n - 1]);
      GrowsTransitive(db, before, Acquire(before, rs[n - 1]).0);
    }
  }

  lemma {:induction false} ReclaimGrows(db: Db, id: string, expected: nat, lease: Option<nat>, repair: Option<Repair>, guarded: bool)
    ensures Grows(db, ApplyReclaim(db, id, expected, lease, repair, guarded))
  {
  }

  lemma {:induction false} DispatchFailedGrows(db: Db, id: string, lease: nat, to: TaskState)
    ensures Grows(db, ApplyDispatchFailed(db, id, lease, to))
  {
  }

  lemma {:induction false} StepGrows(db: Db, step: Step)
    ensures Grows(db, Apply(db, step))
  {
    match step
    case Admit(requests) => AcquireInTurnGrows(db, requests, |requests|);
    case Reclaim(id, expected, lease, repair, guarded) => ReclaimGrows(db, id, expected, lease, repair, guarded);
    case DispatchFailed(id, lease, to) => DispatchFailedGrows(db, id, lease, to);
    case _ =>
  }

  lemma {:induction false} RunGrows(db: Db, steps: seq<Step>, n: nat)
    requires n <= |steps|
    ensures Grows(db, Run(db, steps, n))
  {
    if n > 0 {
      RunGrows(db, steps, n - 1);
      StepGrows(Run(db, steps, n - 1), steps[n - 1]);
      GrowsTransitive(db, Run(db, steps, n - 1), Run(db, steps, n));
    }
  }

  /** Once a task has passed a generation -- fenced, or admitted again -- no attempt at that
      generation or below ever writes it, nor is its dispatch recorded, in any continuation of
      the run. */
  lemma {:induction false} FencedNeverWrites(db: Db, steps: seq<Step>, n: nat, id: string, generation: nat, lease: nat, to: TaskState)
    requires id in db.tasks && generation < db.tasks[id].generation && n <= |steps|
    ensures var now := Run(db, steps, n);
            && !Owns(now, id, generation, lease)
            && ApplyAdvance(now, id, generation, lease, to) == now
            && ApplyEnd(now, id, generation, lease, to) == now
            && (lease < |now.leases| && now.leases[lease].generation <= generation ==>
                  ApplyMarkDispatched(now, id, lease) == now)
  {
    RunGrows(db, steps, n);
  }

  /** A fence that finds the generation it expects passes it, whatever state short of
      terminal the task is in. */
  lemma {:induction false} FencePasses(db: Db, id: string, expected: nat)
    requires id in db.tasks && db.tasks[id].generation == expected && !IsTerminal(db.tasks[id].state)
    ensures ApplyFence(db, id, expected).tasks[id].generation > expected
    ensures forall lease :: !Owns(ApplyFence(db, id, expected), id, expected, lease)
  {
  }

  /** So after a fence that found the generation it expected, that attempt is over for good. */
  lemma {:induction false} FenceIsFinal(db: Db, id: string, expected: nat, steps: seq<Step>, n: nat, lease: nat, to: TaskState)
    requires id in db.tasks && db.tasks[id].generation == expected && !IsTerminal(db.tasks[id].state) && n <= |steps|
    ensures var now := Run(ApplyFence(db, id, expected), steps, n);
            && !Owns(now, id, expected, lease)
            && ApplyAdvance(now, id, expected, lease, to) == now
            && ApplyEnd(now, id, expected, lease, to) == now
  {
    FencePasses(db, id, expected);
    FencedNeverWrites(ApplyFence(db, id, expected), steps, n, id, expected, lease, to);
  }

  /** The guarded reclaim never frees a lease its task still holds at its generation: when
      it releases, no attempt owns the task any more. */
  lemma {:induction false} GuardedReclaimFreesNothingHeld(db: Db, id: string, expected: nat, lease: nat, repair: Option<Repair>)
    requires Inv(db) && lease < |db.leases| && !db.leases[lease].released
    requires ApplyReclaim(db, id, expected, Some(lease), repair, true).leases[lease].released
    ensures var after := ApplyReclaim(db, id, expected, Some(lease), repair, true);
            forall generation, l :: !Owns(after, id, generation, l)
  {
    assert HeldByItsTask(db, lease);
    var after := ApplyReclaim(db, id, expected, Some(lease), repair, true);
    forall generation: nat, l: nat
      ensures !Owns(after, id, generation, l)
    {
      if l < |db.leases| && db.leases[l].task == id && !db.leases[l].released {
        OneLeasePerTask(db, l, lease);
      }
    }
  }
}
