/** The admission transaction: every pool a task needs is reserved, or none is
    (apps/common/swarm_common/admission.py and models.py). */
module Admission {
  import opened Common

  datatype TaskState =
    | Submitted | Queued | Parked | Ready
    | Leased | Dispatched | Starting | Running
    | Succeeded | Failed | Cancelled | DeadLettered

  /** The states that hold capacity, counted from LEASED. */
  predicate HoldsCapacity(s: TaskState) {
    s.Leased? || s.Dispatched? || s.Starting? || s.Running?
  }

  predicate IsTerminal(s: TaskState) {
    s.Succeeded? || s.Failed? || s.Cancelled? || s.DeadLettered?
  }

  // ----- slot pools -----------------------------------------------------------------

  /** A named budget. `hardLimit` is None when nobody set the ceiling. */
  datatype Pool = Pool(hardLimit: Option<int>, adaptiveTarget: Option<int>, quotaLimit: Option<int>,
                       active: int, enabled: bool)
  {
    /** Every limit that is set, and the hard one must be, is at least k. */
    predicate AllowsAll(k: int) {
      hardLimit.Some? && k <= hardLimit.value
      && (adaptiveTarget.Some? ==> k <= adaptiveTarget.value)
      && (quotaLimit.Some? ==> k <= quotaLimit.value)
    }

    /** The greatest number every limit allows, or 0. */
    function EffectiveLimit(): (limit: Option<int>)
      ensures limit.None? <==> hardLimit.None?
      ensures limit.Some? ==> forall k: int :: k <= limit.value <==> k <= 0 || AllowsAll(k)
    {
      if hardLimit.None? then None
      else Some(Max(0, MinWith(MinWith(hardLimit.value, adaptiveTarget), quotaLimit)))
    }

    predicate HasCapacity(units: int)
      ensures HasCapacity(units) <==> enabled && hardLimit.Some? && (active + units <= 0 || AllowsAll(active + units))
    {
      enabled && EffectiveLimit().Some? && active + units <= EffectiveLimit().value
    }
  }

  function MinWith(a: int, b: Option<int>): int {
    match b
    case None => a
    case Some(v) => if v < a then v else a
  }

  /** What one admission asks for: the task's id, the fields its pools follow from, and
      its resource units. */
  datatype Request = Request(id: string, tenant: string, provider: Option<string>, resourceClass: string,
                             runnerProfile: string, backend: string, units: nat)

  /** Every pool a task must acquire at once (`pool_names_for`). */
  function PoolNames(r: Request): (names: seq<string>) {
    ["global", "tenant:" + r.tenant, "resource:" + r.resourceClass, "runner:" + r.runnerProfile, "backend:" + r.backend]
    + match r.provider
      case None => []
      case Some(p) => if p == "" then [] else ["provider:" + p, "provider:" + p + ":tenant:" + r.tenant]
  }

  predicate IsProviderPool(name: string) {
    "provider:" <= name
  }

  /** A provider pool counts sessions, every other pool resource units (`pool_units_for`). */
  function UnitsIn(name: string, units: nat): nat {
    if IsProviderPool(name) then 1 else units
  }

  ghost predicate Distinct(names: seq<string>) {
    forall i, j :: 0 <= i < j < |names| ==> names[i] != names[j]
  }

  /** No pool is asked for twice, so a batch that adds name by name adds once. */
  lemma {:induction false} PoolNamesDistinct(r: Request)
    ensures Distinct(PoolNames(r))
  {
    var names := PoolNames(r);
    assert names[0][0] == 'g' && names[1][0] == 't' && names[2][..2] == "re" && names[3][..2] == "ru" && names[4][0] == 'b';
    if |names| > 5 {
      assert names[5][0] == 'p' && names[6][0] == 'p' && |names[5]| < |names[6]|;
      assert forall j :: 0 <= j < 5 ==> names[j][0] != 'p';
    }
  }

  // ----- the documents ------------------------------------------------------------

  datatype Task = Task(state: TaskState, cancelRequested: bool, currentLease: Option<nat>, generation: nat, attempts: nat)

  /** `poolUnits` is what the lease took per pool; a lease from before it was recorded
      has None and took `units` in every pool. */
  datatype Lease = Lease(task: string, generation: nat, pools: seq<string>, units: nat,
                         poolUnits: Option<map<string, nat>>, released: bool)
  {
    /** What the stored lease holds in a pool: what release gives back (`held_pool_units`). */
    function HeldIn(name: string): nat {
      if name !in pools then 0
      else if poolUnits.None? || name !in poolUnits.value then units
      else poolUnits.value[name]
    }

    /** What it counts for in the pool now. */
    function Counts(name: string): nat {
      if released then 0 else HeldIn(name)
    }
  }

  /** The database. A lease's id is its place in the order leases were minted. */
  datatype Db = Db(pools: map<string, Pool>, tasks: map<string, Task>, leases: seq<Lease>)

  datatype BlockedReason = ManualPause | PoolLimitUnset | PoolFull
  datatype Blocker = Blocker(pool: string, reason: BlockedReason, limit: Option<int>, active: int)
  datatype Denial = TaskMissing | NotReady(state: TaskState) | CancelRequested | Blocked(blockers: seq<Blocker>)
  datatype Outcome = Admitted(lease: nat) | Denied(why: Denial)

  /** One pool's verdict on `tasks` tasks of `units` each. A pool with no document is
      unlimited. */
  function BlockerOf(pools: map<string, Pool>, name: string, units: nat, tasks: nat): Option<Blocker> {
    if name !in pools then None
    else
      var pool := pools[name];
      if !pool.enabled then Some(Blocker(name, ManualPause, pool.EffectiveLimit(), pool.active))
      else if pool.hardLimit.None? then Some(Blocker(name, PoolLimitUnset, None, pool.active))
      else if !pool.HasCapacity(tasks * UnitsIn(name, units)) then Some(Blocker(name, PoolFull, pool.EffectiveLimit(), pool.active))
      else None
  }

  function Evaluate(pools: map<string, Pool>, names: seq<string>, units: nat, tasks: nat): seq<Blocker> {
    if names == [] then []
    else
      Evaluate(pools, names[..|names| - 1], units, tasks)
      + match BlockerOf(pools, names[|names| - 1], units, tasks)
        case None => []
        case Some(b) => [b]
  }

  /** `evaluate_capacity` */
  method EvaluateCapacity(pools: map<string, Pool>, names: seq<string>, units: nat, tasks: nat)
    returns (blockers: seq<Blocker>)
    ensures blockers == Evaluate(pools, names, units, tasks)
  {
    blockers := [];
    for i := 0 to |names|
      invariant blockers == Evaluate(pools, names[..i], units, tasks)
    {
      assert names[..i + 1][..i] == names[..i];
      var name := names[i];
      if name !in pools {
        continue;
      }
      var pool := pools[name];
      if !pool.enabled {
        blockers := blockers + [Blocker(name, ManualPause, pool.EffectiveLimit(), pool.active)];
      } else if pool.hardLimit.None? {
        blockers := blockers + [Blocker(name, PoolLimitUnset, None, pool.active)];
      } else if !pool.HasCapacity(tasks * UnitsIn(name, units)) {
        blockers := blockers + [Blocker(name, PoolFull, pool.EffectiveLimit(), pool.active)];
      }
    }
    assert names[..|names|] == names;
  }

  lemma {:induction false} EvaluateEmpty(pools: map<string, Pool>, names: seq<string>, units: nat, tasks: nat)
    ensures Evaluate(pools, names, units, tasks) == [] <==> forall n :: n in names ==> BlockerOf(pools, n, units, tasks).None?
  {
    if names != [] {
      EvaluateEmpty(pools, names[..|names| - 1], units, tasks);
      assert names == names[..|names| - 1] + [names[|names| - 1]];
    }
  }

  // ----- admission, one task at a time ------------------------------------------------

  function ReadinessDenial(tasks: map<string, Task>, id: string): Option<Denial> {
    if id !in tasks then Some(TaskMissing)
    else if !tasks[id].state.Ready? then Some(NotReady(tasks[id].state))
    else if tasks[id].cancelRequested then Some(CancelRequested)
    else None
  }

  /** Each pool that exists raised by the share the request takes in it. */
  function Reserve(pools: map<string, Pool>, names: seq<string>, units: nat): (raised: map<string, Pool>)
    ensures raised.Keys == pools.Keys
    ensures forall n :: n in pools ==>
              raised[n] == if n in names then pools[n].(active := pools[n].active + UnitsIn(n, units)) else pools[n]
  {
    if names == [] then pools
    else
      var n, before := names[|names| - 1], Reserve(pools, names[..|names| - 1], units);
      assert names == names[..|names| - 1] + [n];
      if n in pools then before[n := pools[n].(active := pools[n].active + UnitsIn(n, units))] else before
  }

  /** The lease's record of what it takes (`reserved_pool_units`). */
  function Shares(names: seq<string>, units: nat): (shares: map<string, nat>)
    ensures forall n :: n in shares <==> n in names
    ensures forall n :: n in shares ==> shares[n] == UnitsIn(n, units)
  {
    if names == [] then map[]
    else
      assert names == names[..|names| - 1] + [names[|names| - 1]];
      Shares(names[..|names| - 1], units)[names[|names| - 1] := UnitsIn(names[|names| - 1], units)]
  }

  function MintLease(r: Request, task: Task): Lease {
    Lease(r.id, task.generation + 1, PoolNames(r), r.units, Some(Shares(PoolNames(r), r.units)), false)
  }

  function LeasedTask(task: Task, lease: nat): Task {
    Task(Leased, task.cancelRequested, Some(lease), task.generation + 1, task.attempts + 1)
  }

  /** `acquire_lease_in_transaction`: what the transaction leaves, and its outcome. */
  function Acquire(db: Db, r: Request): (Db, Outcome) {
    var denial := ReadinessDenial(db.tasks, r.id);
    if denial.Some? then (db, Denied(denial.value))
    else
      var names := PoolNames(r);
      var blockers := Evaluate(db.pools, names, r.units, 1);
      if blockers != [] then (db, Denied(Blocked(blockers)))
      else
        var task := db.tasks[r.id];
        var id := |db.leases|;
        (Db(Reserve(db.pools, names, r.units), db.tasks[r.id := LeasedTask(task, id)], db.leases + [MintLease(r, task)]),
         Admitted(id))
  }

  /** The same transaction run once for each of the first `n` requests, in order. */
  function AcquireInTurn(db: Db, rs: seq<Request>, n: nat): (Db, seq<Outcome>)
    requires n <= |rs|
  {
    if n == 0 then (db, [])
    else
      var before := AcquireInTurn(db, rs, n - 1);
      var last := Acquire(before.0, rs[n - 1]);
      (last.0, before.1 + [last.1])
  }

  function AcquireEach(db: Db, rs: seq<Request>): (Db, seq<Outcome>) {
    AcquireInTurn(db, rs, |rs|)
  }

  // ----- release ----------------------------------------------------------------------

  /** What the lease holds given back to the first `k` of its pools that exist. */
  function GiveBack(pools: map<string, Pool>, lease: Lease, k: nat): (lowered: map<string, Pool>)
    requires k <= |lease.pools|
    ensures lowered.Keys == pools.Keys
    ensures forall n :: n in pools ==>
              lowered[n] == if n in lease.pools[..k] then pools[n].(active := Max(0, pools[n].active - lease.HeldIn(n))) else pools[n]
  {
    if k == 0 then pools
    else
      var n, before := lease.pools[k - 1], GiveBack(pools, lease, k - 1);
      assert lease.pools[..k] == lease.pools[..k - 1] + [n];
      if n in pools then before[n := pools[n].(active := Max(0, pools[n].active - lease.HeldIn(n)))] else before
  }

  /** `release_lease_in_transaction`: what it leaves, and whether it released. */
  function Release(db: Db, id: nat): (Db, bool) {
    if id >= |db.leases| || db.leases[id].released then (db, false)
    else
      var lease := db.leases[id];
      (Db(GiveBack(db.pools, lease, |lease.pools|), db.tasks, db.leases[id := lease.(released := true)]), true)
  }

  // ----- a batch in one transaction --------------------------------------------------

  /** An admission decided but not yet written: the request's index and its lease. */
  datatype Decided = Decided(request: nat, lease: Lease)

  /** The task writes of the first `k` decided admissions, over the tasks as read. */
  function WriteTasks(stored: map<string, Task>, base: nat, rs: seq<Request>, admitted: seq<Decided>, k: nat): map<string, Task>
    requires k <= |admitted|
    requires forall d :: d in admitted ==> d.request < |rs| && rs[d.request].id in stored
  {
    if k == 0 then stored
    else
      var id := rs[admitted[k - 1].request].id;
      WriteTasks(stored, base, rs, admitted, k - 1)[id := LeasedTask(stored[id], base + k - 1)]
  }

  function WriteLeases(stored: seq<Lease>, admitted: seq<Decided>, k: nat): seq<Lease>
    requires k <= |admitted|
  {
    if k == 0 then stored else WriteLeases(stored, admitted, k - 1) + [admitted[k - 1].lease]
  }

  /** The working copy of the pools is the sequential run's, where the batch read any. */
  ghost predicate PoolsAgree(start: Db, pools: map<string, Pool>, needed: set<string>, work: map<string, Pool>) {
    && pools.Keys == start.pools.Keys
    && work.Keys == start.pools.Keys * needed
    && (forall n :: n in work ==> work[n] == pools[n])
    && (forall n :: n in start.pools && n !in work ==> pools[n] == start.pools[n])
  }

  /** The undecided tasks are as read, and the decided ones as the batch will write them. */
  ghost predicate TasksAgree(start: Db, tasks: map<string, Task>, leases: seq<Lease>, rs: seq<Request>,
                             admitted: seq<Decided>, seen: set<string>)
  {
    && (forall d :: d in admitted ==> d.request < |rs| && rs[d.request].id in start.tasks)
    && tasks == WriteTasks(start.tasks, |start.leases|, rs, admitted, |admitted|)
    && leases == WriteLeases(start.leases, admitted, |admitted|)
    && |leases| == |start.leases| + |admitted|
    && tasks.Keys == start.tasks.Keys
    && (forall id :: id in start.tasks ==> if id in seen then tasks[id].state.Leased? else tasks[id] == start.tasks[id])
    && seen <= start.tasks.Keys
  }

  /** What the batch has decided so far, against the pools as it has left them, is what
      running the single transaction for each request so far has written. */
  ghost predicate BatchAgrees(start: Db, db: Db, rs: seq<Request>, needed: set<string>, work: map<string, Pool>,
                              admitted: seq<Decided>, seen: set<string>)
  {
    PoolsAgree(start, db.pools, needed, work) && TasksAgree(start, db.tasks, db.leases, rs, admitted, seen)
  }

  /** Every pool a request of the batch needs is among those read. */
  ghost predicate Covers(rs: seq<Request>, needed: set<string>) {
    forall r, n {:trigger n in PoolNames(r)} :: r in rs && n in PoolNames(r) ==> n in needed
  }

  /** The pools a batch reads. */
  function Needed(rs: seq<Request>): set<string> {
    set r, n | r in rs && n in PoolNames(r) :: n
  }

  /** Adding name by name, in place, as the batch does. */
  function AddShares(pools: map<string, Pool>, names: seq<string>, units: nat): map<string, Pool> {
    if names == [] then pools
    else
      var n := names[|names| - 1];
      var before := AddShares(pools, names[..|names| - 1], units);
      if n in before then before[n := before[n].(active := before[n].active + UnitsIn(n, units))] else before
  }

  /** Adding name by name reserves each share once, because no name repeats. */
  lemma {:induction false} AddSharesReserves(pools: map<string, Pool>, names: seq<string>, units: nat)
    requires Distinct(names)
    ensures AddShares(pools, names, units) == Reserve(pools, names, units)
  {
    if names != [] {
      var rest, n := names[..|names| - 1], names[|names| - 1];
      assert names == rest + [n] && n !in rest;
      AddSharesReserves(pools, rest, units);
    }
  }

  ghost predicate OnlyActiveDiffers(read: map<string, Pool>, work: map<string, Pool>) {
    work.Keys == read.Keys && forall n :: n in work ==> work[n] == read[n].(active := work[n].active)
  }

  lemma {:induction false} AddSharesOnlyActive(read: map<string, Pool>, work: map<string, Pool>, names: seq<string>, units: nat)
    requires OnlyActiveDiffers(read, work)
    ensures OnlyActiveDiffers(read, AddShares(work, names, units))
  {
    if names != [] {
      AddSharesOnlyActive(read, work, names[..|names| - 1], units);
    }
  }

  lemma {:induction false} EvaluateSamePools(p: map<string, Pool>, q: map<string, Pool>, names: seq<string>, units: nat, tasks: nat)
    requires forall n :: n in names ==> (n in p <==> n in q) && (n in p ==> p[n] == q[n])
    ensures Evaluate(p, names, units, tasks) == Evaluate(q, names, units, tasks)
  {
    if names != [] {
      EvaluateSamePools(p, q, names[..|names| - 1], units, tasks);
    }
  }

  lemma {:induction false} WriteTasksAppend(start: Db, rs: seq<Request>, admitted: seq<Decided>, d: Decided, k: nat)
    requires k <= |admitted|
    requires forall e :: e in admitted + [d] ==> e.request < |rs| && rs[e.request].id in start.tasks
    ensures WriteTasks(start.tasks, |start.leases|, rs, admitted + [d], k)
         == WriteTasks(start.tasks, |start.leases|, rs, admitted, k)
    ensures WriteLeases(start.leases, admitted + [d], k) == WriteLeases(start.leases, admitted, k)
  {
    if k > 0 {
      WriteTasksAppend(start, rs, admitted, d, k - 1);
    }
  }

  /** What a request meets: its pools in the working copy are the sequential run's. */
  lemma {:induction false} BatchMeets(start: Db, pools: map<string, Pool>, rs: seq<Request>, i: nat, needed: set<string>, work: map<string, Pool>)
    requires i < |rs| && Covers(rs, needed) && PoolsAgree(start, pools, needed, work)
    ensures Evaluate(work, PoolNames(rs[i]), rs[i].units, 1) == Evaluate(pools, PoolNames(rs[i]), rs[i].units, 1)
  {
    assert rs[i] in rs;
    EvaluateSamePools(work, pools, PoolNames(rs[i]), rs[i].units, 1);
  }

  /** `dbs` are the databases the single transaction leaves, run request by request. */
  ghost predicate InTurn(start: Db, rs: seq<Request>, dbs: seq<Db>, outcomes: seq<Outcome>) {
    var n := |outcomes|;
    && |dbs| == n + 1 && n <= |rs|
    && if n == 0 then dbs[0] == start
       else InTurn(start, rs, dbs[..n], outcomes[..n - 1]) && Acquire(dbs[n - 1], rs[n - 1]) == (dbs[n], outcomes[n - 1])
  }

  lemma {:induction false} InTurnStep(start: Db, rs: seq<Request>, dbs: seq<Db>, outcomes: seq<Outcome>, next: Db, last: Outcome)
    requires InTurn(start, rs, dbs, outcomes) && |outcomes| < |rs|
    requires Acquire(dbs[|outcomes|], rs[|outcomes|]) == (next, last)
    ensures InTurn(start, rs, dbs + [next], outcomes + [last])
  {
    assert (dbs + [next])[..|dbs|] == dbs && (outcomes + [last])[..|outcomes|] == outcomes;
  }

  lemma {:induction false} InTurnIsEach(start: Db, rs: seq<Request>, dbs: seq<Db>, outcomes: seq<Outcome>)
    requires InTurn(start, rs, dbs, outcomes)
    ensures AcquireInTurn(start, rs, |outcomes|) == (dbs[|outcomes|], outcomes)
  {
    if outcomes != [] {
      var n := |outcomes| - 1;
      InTurnIsEach(start, rs, dbs[..n + 1], outcomes[..n]);
      assert outcomes == outcomes[..n] + [outcomes[n]];
    }
  }

  /** The batch's reason for denying request `i`. */
  ghost predicate BatchDenies(start: Db, rs: seq<Request>, i: nat, work: map<string, Pool>, seen: set<string>, why: Denial)
    requires i < |rs|
  {
    var r := rs[i];
    if r.id in start.tasks && r.id in seen then why == NotReady(Leased)
    else if ReadinessDenial(start.tasks, r.id).Some? then why == ReadinessDenial(start.tasks, r.id).value
    else
      var blockers := Evaluate(work, PoolNames(r), r.units, 1);
      blockers != [] && why == Blocked(blockers)
  }

  /** A request the batch denies is denied, for the same reason, by the transaction run
      on its own in its turn. */
  lemma {:induction false} BatchDenied(start: Db, db: Db, rs: seq<Request>, i: nat, needed: set<string>, work: map<string, Pool>,
                                       admitted: seq<Decided>, seen: set<string>, why: Denial)
    requires i < |rs| && Covers(rs, needed) && BatchAgrees(start, db, rs, needed, work, admitted, seen)
    requires BatchDenies(start, rs, i, work, seen, why)
    ensures Acquire(db, rs[i]) == (db, Denied(why))
  {
    BatchMeets(start, db.pools, rs, i, needed, work);
  }

  /** What admitting request `i` leaves. */
  function AfterAdmission(db: Db, r: Request): Db
    requires r.id in db.tasks
  {
    Db(Reserve(db.pools, PoolNames(r), r.units), db.tasks[r.id := LeasedTask(db.tasks[r.id], |db.leases|)],
       db.leases + [MintLease(r, db.tasks[r.id])])
  }

  lemma {:induction false} ReadyInTurn(start: Db, db: Db, rs: seq<Request>, i: nat, admitted: seq<Decided>, seen: set<string>)
    requires i < |rs| && TasksAgree(start, db.tasks, db.leases, rs, admitted, seen)
    requires rs[i].id !in seen && ReadinessDenial(start.tasks, rs[i].id).None?
    ensures ReadinessDenial(db.tasks, rs[i].id).None? && |db.leases| == |start.leases| + |admitted|
  {
  }

  /** A request the batch admits is admitted, with the same lease, by the transaction
      run on its own in its turn. */
  lemma {:induction false} BatchAdmitted(start: Db, db: Db, rs: seq<Request>, i: nat, needed: set<string>,
                                         work: map<string, Pool>, admitted: seq<Decided>, seen: set<string>,
                                         id: nat, lease: Lease)
    returns (next: Db)
    requires i < |rs| && Covers(rs, needed) && BatchAgrees(start, db, rs, needed, work, admitted, seen)
    requires rs[i].id !in seen && ReadinessDenial(start.tasks, rs[i].id).None?
    requires Evaluate(work, PoolNames(rs[i]), rs[i].units, 1) == []
    requires id == |start.leases| + |admitted| && lease == MintLease(rs[i], start.tasks[rs[i].id])
    ensures Acquire(db, rs[i]) == (next, Admitted(id))
    ensures BatchAgrees(start, next, rs, needed, AddShares(work, PoolNames(rs[i]), rs[i].units),
                        admitted + [Decided(i, lease)], seen + {rs[i].id})
  {
    BatchMeets(start, db.pools, rs, i, needed, work);
    ReadyInTurn(start, db, rs, i, admitted, seen);
    AcquireAdmits(db, rs[i]);
    next := AfterAdmission(db, rs[i]);
    PoolsAdmitted(start, db.pools, rs, i, needed, work);
    TasksAdmitted(start, db.tasks, db.leases, rs, i, admitted, seen);
  }

  /** The state of a batch between two requests. */
  ghost predicate Judged(start: Db, rs: seq<Request>, needed: set<string>, dbs: seq<Db>, read: map<string, Pool>, work: map<string, Pool>,
                         outcomes: seq<Outcome>, admitted: seq<Decided>, seen: set<string>)
  {
    && InTurn(start, rs, dbs, outcomes)
    && BatchAgrees(start, dbs[|outcomes|], rs, needed, work, admitted, seen)
    && OnlyActiveDiffers(read, work)
  }

  lemma {:induction false} JudgedStart(start: Db, rs: seq<Request>, needed: set<string>, read: map<string, Pool>)
    requires read == map n | n in start.pools && n in needed :: start.pools[n]
    ensures Judged(start, rs, needed, [start], read, read, [], [], {})
  {
  }

  lemma {:induction false} JudgedDenied(start: Db, rs: seq<Request>, needed: set<string>, dbs: seq<Db>, read: map<string, Pool>,
                                        work: map<string, Pool>, outcomes: seq<Outcome>, admitted: seq<Decided>,
                                        seen: set<string>, why: Denial)
    requires |outcomes| < |rs| && Covers(rs, needed) && Judged(start, rs, needed, dbs, read, work, outcomes, admitted, seen)
    requires BatchDenies(start, rs, |outcomes|, work, seen, why)
    ensures Judged(start, rs, needed, dbs + [dbs[|outcomes|]], read, work, outcomes + [Denied(why)], admitted, seen)
  {
    var i := |outcomes|;
    BatchDenied(start, dbs[i], rs, i, needed, work, admitted, seen, why);
    InTurnStep(start, rs, dbs, outcomes, dbs[i], Denied(why));
    JudgedOf(start, rs, needed, dbs + [dbs[i]], read, work, outcomes + [Denied(why)], admitted, seen, dbs[i]);
  }

  lemma {:induction false} JudgedAdmitted(start: Db, rs: seq<Request>, needed: set<string>, dbs: seq<Db>, read: map<string, Pool>,
                                          work: map<string, Pool>, outcomes: seq<Outcome>, admitted: seq<Decided>,
                                          seen: set<string>, id: nat, lease: Lease)
    returns (next: Db)
    requires |outcomes| < |rs| && Covers(rs, needed) && Judged(start, rs, needed, dbs, read, work, outcomes, admitted, seen)
    requires rs[|outcomes|].id !in seen && ReadinessDenial(start.tasks, rs[|outcomes|].id).None?
    requires Evaluate(work, PoolNames(rs[|outcomes|]), rs[|outcomes|].units, 1) == []
    requires id == |start.leases| + |admitted| && lease == MintLease(rs[|outcomes|], start.tasks[rs[|outcomes|].id])
    ensures var r := rs[|outcomes|];
            Judged(start, rs, needed, dbs + [next], read, AddShares(work, PoolNames(r), r.units),
                   outcomes + [Admitted(id)], admitted + [Decided(|outcomes|, lease)], seen + {r.id})
  {
    var i := |outcomes|;
    next := BatchAdmitted(start, dbs[i], rs, i, needed, work, admitted, seen, id, lease);
    InTurnStep(start, rs, dbs, outcomes, next, Admitted(id));
    AddSharesOnlyActive(read, work, PoolNames(rs[i]), rs[i].units);
    JudgedOf(start, rs, needed, dbs + [next], read, AddShares(work, PoolNames(rs[i]), rs[i].units),
             outcomes + [Admitted(id)], admitted + [Decided(i, lease)], seen + {rs[i].id}, next);
  }

  lemma {:induction false} JudgedOf(start: Db, rs: seq<Request>, needed: set<string>, dbs: seq<Db>, read: map<string, Pool>,
                                    work: map<string, Pool>, outcomes: seq<Outcome>, admitted: seq<Decided>,
                                    seen: set<string>, last: Db)
    requires InTurn(start, rs, dbs, outcomes) && last == dbs[|outcomes|]
    requires BatchAgrees(start, last, rs, needed, work, admitted, seen) && OnlyActiveDiffers(read, work)
    ensures Judged(start, rs, needed, dbs, read, work, outcomes, admitted, seen)
  {
  }

  lemma {:induction false} AcquireAdmits(db: Db, r: Request)
    requires ReadinessDenial(db.tasks, r.id).None? && Evaluate(db.pools, PoolNames(r), r.units, 1) == []
    ensures Acquire(db, r) == (AfterAdmission(db, r), Admitted(|db.leases|))
  {
  }

  lemma {:induction false} PoolsAdmitted(start: Db, pools: map<string, Pool>, rs: seq<Request>, i: nat, needed: set<string>, work: map<string, Pool>)
    requires i < |rs| && Covers(rs, needed) && PoolsAgree(start, pools, needed, work)
    ensures var names, units := PoolNames(rs[i]), rs[i].units;
            PoolsAgree(start, Reserve(pools, names, units), needed, AddShares(work, names, units))
  {
    var r := rs[i];
    PoolNamesDistinct(r);
    AddSharesReserves(work, PoolNames(r), r.units);
    assert rs[i] in rs;
  }

  lemma {:induction false} TasksAdmitted(start: Db, tasks: map<string, Task>, leases: seq<Lease>, rs: seq<Request>, i: nat,
                                         admitted: seq<Decided>, seen: set<string>)
    requires i < |rs| && TasksAgree(start, tasks, leases, rs, admitted, seen)
    requires rs[i].id in start.tasks && rs[i].id !in seen
    ensures var id, d := rs[i].id, Decided(i, MintLease(rs[i], start.tasks[rs[i].id]));
            && tasks[id] == start.tasks[id]
            && TasksAgree(start, tasks[id := LeasedTask(tasks[id], |leases|)], leases + [MintLease(rs[i], tasks[id])],
                          rs, admitted + [d], seen + {id})
  {
    var d := Decided(i, MintLease(rs[i], start.tasks[rs[i].id]));
    assert (admitted + [d])[|admitted|] == d;
    WriteTasksAppend(start, rs, admitted, d, |admitted|);
  }

  /** Writing each changed pool once leaves what writing them task by task leaves. */
  lemma {:induction false} PoolsWritten(start: Db, pools: map<string, Pool>, needed: set<string>, work: map<string, Pool>,
                                        changed: map<string, Pool>)
    requires PoolsAgree(start, pools, needed, work)
    requires forall n :: n in work ==> work[n] == start.pools[n].(active := work[n].active)
    requires changed == map n | n in work && work[n].active != start.pools[n].active :: work[n]
    ensures start.pools + changed == pools
  {
  }

  // ----- the transactions on the stored documents --------------------------------------

  class Store {
    var pools: map<string, Pool>
    var tasks: map<string, Task>
    var leases: seq<Lease>

    ghost function Contents(): Db
      reads this
    {
      Db(pools, tasks, leases)
    }

    method AcquireLease(r: Request) returns (outcome: Outcome)
      modifies this
      ensures (Contents(), outcome) == Acquire(old(Contents()), r)
    {
      var denial := ReadinessDenial(tasks, r.id);
      if denial.Some? {
        return Denied(denial.value);
      }
      var required := PoolNames(r);
      var read := pools;
      var blockers := EvaluateCapacity(read, required, r.units, 1);
      if blockers != [] {
        return Denied(Blocked(blockers));
      }
      for i := 0 to |required|
        modifies this`pools
        invariant pools == Reserve(read, required[..i], r.units)
      {
        var name := required[i];
        assert required[..i + 1][..i] == required[..i];
        if name in read {
          pools := pools[name := read[name].(active := read[name].active + UnitsIn(name, r.units))];
        }
      }
      assert required[..|required|] == required;
      var id, current := |leases|, tasks[r.id];
      leases := leases + [MintLease(r, current)];
      tasks := tasks[r.id := LeasedTask(current, id)];
      return Admitted(id);
    }

    /** `acquire_leases_in_transaction`: every read before any write, each request
        judged against the pools as the batch has left them, every pool written once. */
    method AcquireLeases(rs: seq<Request>) returns (outcomes: seq<Outcome>)
      modifies this
      ensures (Contents(), outcomes) == AcquireEach(old(Contents()), rs)
    {
      ghost var start := Contents();
      var needed := Needed(rs);
      var read := map n | n in pools && n in needed :: pools[n];
      var work, admitted := read, [];
      ghost var dbs, seen;
      work, outcomes, admitted, dbs, seen := JudgeAll(rs, needed, read, start);
      InTurnIsEach(start, rs, dbs, outcomes);
      var changed := map n | n in work && work[n].active != read[n].active :: work[n];
      PoolsWritten(start, dbs[|rs|].pools, needed, work, changed);
      pools := pools + changed;
      WriteAll(rs, admitted);
      assert Contents() == dbs[|rs|];
    }

    /** The reads and the decisions of a batch: nothing is written yet. */
    method JudgeAll(rs: seq<Request>, ghost needed: set<string>, read: map<string, Pool>, ghost start: Db)
      returns (work: map<string, Pool>, outcomes: seq<Outcome>, admitted: seq<Decided>, ghost dbs: seq<Db>,
               ghost considered: set<string>)
      requires Covers(rs, needed) && read == map n | n in pools && n in needed :: pools[n]
      requires start == Contents()
      ensures |outcomes| == |rs|
      ensures Judged(start, rs, needed, dbs, read, work, outcomes, admitted, considered)
    {
      dbs, work, outcomes, admitted := [start], read, [], [];
      var seen: set<string> := {};
      JudgedStart(start, rs, needed, read);
      for i := 0 to |rs|
        invariant |outcomes| == i && Judged(start, rs, needed, dbs, read, work, outcomes, admitted, seen)
      {
        var r := rs[i];
        var why := Judge(rs, i, work, seen);
        if why.Some? {
          JudgedDenied(start, rs, needed, dbs, read, work, outcomes, admitted, seen, why.value);
          dbs, outcomes := dbs + [dbs[i]], outcomes + [Denied(why.value)];
        } else {
          var id, lease := |leases| + |admitted|, MintLease(r, tasks[r.id]);
          assert id == |start.leases| + |admitted| && lease == MintLease(r, start.tasks[r.id]);
          ghost var next := JudgedAdmitted(start, rs, needed, dbs, read, work, outcomes, admitted, seen, id, lease);
          work := AddInPlace(work, PoolNames(r), r.units);
          dbs, seen := dbs + [next], seen + {r.id};
          outcomes, admitted := outcomes + [Admitted(id)], admitted + [Decided(i, lease)];
        }
      }
      considered := seen;
    }

    /** Why the batch denies request `i`, if it does. */
    method Judge(rs: seq<Request>, i: nat, work: map<string, Pool>, seen: set<string>) returns (why: Option<Denial>)
      requires i < |rs| && seen <= tasks.Keys
      ensures why.Some? ==> BatchDenies(Contents(), rs, i, work, seen, why.value)
      ensures why.None? ==> rs[i].id !in seen && ReadinessDenial(tasks, rs[i].id).None?
      ensures why.None? ==> Evaluate(work, PoolNames(rs[i]), rs[i].units, 1) == []
    {
      var r := rs[i];
      if r.id in tasks && r.id in seen {
        return Some(NotReady(Leased));
      }
      var denial := ReadinessDenial(tasks, r.id);
      if denial.Some? {
        return denial;
      }
      var blockers := EvaluateCapacity(work, PoolNames(r), r.units, 1);
      if blockers != [] {
        return Some(Blocked(blockers));
      }
      return None;
    }

    /** The lease and task writes of a batch. */
    method WriteAll(rs: seq<Request>, admitted: seq<Decided>)
      requires forall d :: d in admitted ==> d.request < |rs| && rs[d.request].id in tasks
      modifies this`tasks, this`leases
      ensures tasks == WriteTasks(old(tasks), |old(leases)|, rs, admitted, |admitted|)
      ensures leases == WriteLeases(old(leases), admitted, |admitted|)
    {
      var stored := tasks;
      for k := 0 to |admitted|
        modifies this`tasks, this`leases
        invariant |leases| == |old(leases)| + k
        invariant tasks == WriteTasks(stored, |old(leases)|, rs, admitted, k)
        invariant leases == WriteLeases(old(leases), admitted, k)
      {
        var id := rs[admitted[k].request].id;
        tasks := tasks[id := LeasedTask(stored[id], |leases|)];
        leases := leases + [admitted[k].lease];
      }
    }

    method ReleaseLease(id: nat) returns (released: bool)
      modifies this
      ensures (Contents(), released) == Release(old(Contents()), id)
    {
      if id >= |leases| || leases[id].released {
        return false;
      }
      var lease, read := leases[id], pools;
      for i := 0 to |lease.pools|
        modifies this`pools
        invariant pools == GiveBack(read, lease, i)
      {
        var name := lease.pools[i];
        if name in read {
          pools := pools[name := read[name].(active := Max(0, read[name].active - lease.HeldIn(name)))];
        }
      }
      leases := leases[id := lease.(released := true)];
      return true;
    }
  }

  /** `pool.active += taken[name]`, for each name. */
  method AddInPlace(pools: map<string, Pool>, names: seq<string>, units: nat) returns (work: map<string, Pool>)
    ensures work == AddShares(pools, names, units)
  {
    work := pools;
    for i := 0 to |names|
      invariant work == AddShares(pools, names[..i], units)
    {
      assert names[..i + 1][..i] == names[..i];
      var n := names[i];
      if n in work {
        work := work[n := work[n].(active := work[n].active + UnitsIn(n, units))];
      }
    }
    assert names[..|names|] == names;
  }
}
