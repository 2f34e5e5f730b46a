/** Reuse of a run's green test jobs for the same tree (scripts/lib/ci_reuse.py): the rules of
    main and of a pull request, the lookup and the gate. GitHub, git and the name pattern of a
    shard are parameters. */
module CiReuse {
  import opened Common
  import opened Ordering

  // ----- jobs ---------------------------------------------------------------------------

  const WORKFLOW := ".github/workflows/application.yml"
  const LANE_PREFIX := "swarm/"

  datatype Reusable = Reusable(key: string, name: string, matrix: bool, output: string, op: string, values: seq<string>)

  const REUSABLE: seq<Reusable> := [
    Reusable("shell", "shellcheck", false, "app", "==", ["true"]),
    Reusable("workflows", "release workflow wiring (actionlint)", false, "app", "==", ["true"]),
    Reusable("ruff", "ruff check", false, "app", "==", ["true"]),
    Reusable("python-checks", "lock / contract / format / bridge install", false, "python", "in", ["all", "selected"]),
    Reusable("python-unit", "unit tests (", true, "python", "!=", ["none"]),
    Reusable("ui-build", "swarm-ui typecheck / build", false, "ui", "==", ["true"]),
    Reusable("ui-tests", "swarm-ui component tests (", true, "ui", "==", ["true"]),
    Reusable("integration", "integration tests (emulator)", false, "app", "==", ["true"]),
    Reusable("manifests", "kubernetes manifests", false, "app", "==", ["true"])]

  /** A job of a run: its name and how it concluded, as the API lists them. */
  datatype Job = Job(name: string, conclusion: string)

  /** The shard (k, n) a job's name gives after the prefix; None when it is no shard's name. */
  type ShardOf = (string, string) -> Option<(nat, nat)>

  predicate IsShard(jobs: seq<Job>, prefix: string, i: nat) {
    i < |jobs| && prefix <= jobs[i].name
  }

  /** Job i is the last listed for shard k: the one whose conclusion counts. */
  predicate LastOfShard(shard: ShardOf, jobs: seq<Job>, prefix: string, n: nat, k: nat, i: nat) {
    i < n <= |jobs| && IsShard(jobs, prefix, i) && shard(prefix, jobs[i].name).Some? && shard(prefix, jobs[i].name).value.0 == k
    && forall j :: i < j < n && IsShard(jobs, prefix, j) && shard(prefix, jobs[j].name).Some?
         ==> shard(prefix, jobs[j].name).value.0 != k
  }

  predicate ShardSucceeded(shard: ShardOf, jobs: seq<Job>, prefix: string, n: nat, k: nat) {
    exists i: nat :: i < n && LastOfShard(shard, jobs, prefix, n, k, i) && jobs[i].conclusion == "success"
  }

  /** Every shard's name gives one and the same total. */
  predicate OneTotal(shard: ShardOf, jobs: seq<Job>, prefix: string, n: nat, total: nat)
    requires n <= |jobs|
  {
    forall i :: 0 <= i < n && IsShard(jobs, prefix, i) ==>
      shard(prefix, jobs[i].name).Some? && shard(prefix, jobs[i].name).value.1 == total
  }

  /** All the shards 1..total, no other, and each a success. */
  predicate Complete(shard: ShardOf, jobs: seq<Job>, prefix: string, total: nat) {
    total > 0 && OneTotal(shard, jobs, prefix, |jobs|, total)
    && (forall k: nat :: 1 <= k <= total ==> ShardSucceeded(shard, jobs, prefix, |jobs|, k))
    && forall i :: 0 <= i < |jobs| && IsShard(jobs, prefix, i) ==> 1 <= shard(prefix, jobs[i].name).value.0 <= total
  }

  ghost predicate MatrixProven(shard: ShardOf, jobs: seq<Job>, prefix: string) {
    exists total :: Complete(shard, jobs, prefix, total)
  }

  // ----- the matrix loop ----------------------------------------------------------------

  datatype Seen = Seen(total: Option<nat>, shards: map<nat, string>)

  /** One job of `_matrix_passed`'s loop; None is its `return False`. */
  function SeeJob(shard: ShardOf, prefix: string, seen: Seen, job: Job): Option<Seen> {
    if !(prefix <= job.name) then Some(seen)
    else
      match shard(prefix, job.name)
      case None => None
      case Some((k, n)) =>
        if seen.total.Some? && n != seen.total.value then None
        else Some(Seen(Some(n), seen.shards[k := job.conclusion]))
  }

  function SeeJobs(shard: ShardOf, jobs: seq<Job>, prefix: string, n: nat): Option<Seen>
    requires n <= |jobs|
  {
    if n == 0 then Some(Seen(None, map[]))
    else
      var before := SeeJobs(shard, jobs, prefix, n - 1);
      if before.None? then None else SeeJob(shard, prefix, before.value, jobs[n - 1])
  }

  /** `range(1, n + 1)`. */
  function UpTo(n: nat): (s: set<nat>)
    ensures forall k :: k in s <==> 1 <= k <= n
  {
    if n == 0 then {} else UpTo(n - 1) + {n}
  }

  predicate AllGreen(seen: Seen) {
    seen.total.Some? && seen.total.value > 0 && seen.shards.Keys == UpTo(seen.total.value)
    && forall k :: k in seen.shards ==> seen.shards[k] == "success"
  }

  /** `_matrix_passed`. */
  predicate MatrixOk(shard: ShardOf, jobs: seq<Job>, prefix: string) {
    SeeJobs(shard, jobs, prefix, |jobs|).Some? && AllGreen(SeeJobs(shard, jobs, prefix, |jobs|).value)
  }

  lemma {:induction false} NoneStays(shard: ShardOf, jobs: seq<Job>, prefix: string, n: nat, m: nat)
    requires n <= m <= |jobs| && SeeJobs(shard, jobs, prefix, n).None?
    ensures SeeJobs(shard, jobs, prefix, m).None?
  {
    if n < m {
      NoneStays(shard, jobs, prefix, n, m - 1);
    }
  }

  method MatrixPassed(shard: ShardOf, jobs: seq<Job>, prefix: string) returns (ok: bool)
    ensures ok == MatrixOk(shard, jobs, prefix)
  {
    var shards: map<nat, string>, total: Option<nat> := map[], None;
    var i := 0;
    while i < |jobs|
      invariant 0 <= i <= |jobs| && SeeJobs(shard, jobs, prefix, i) == Some(Seen(total, shards))
    {
      if prefix <= jobs[i].name {
        var m := shard(prefix, jobs[i].name);
        if m.None? || (total.Some? && m.value.1 != total.value) {
          NoneStays(shard, jobs, prefix, i + 1, |jobs|);
          return false;
        }
        total, shards := Some(m.value.1), shards[m.value.0 := jobs[i].conclusion];
      }
      i := i + 1;
    }
    return AllGreen(Seen(total, shards));
  }

  /** What the loop has recorded of shard k: the conclusion of the last job listed for it. */
  ghost predicate Recorded(shard: ShardOf, jobs: seq<Job>, prefix: string, n: nat, shards: map<nat, string>, k: nat) {
    n <= |jobs|
    && if k in shards then exists i: nat :: LastOfShard(shard, jobs, prefix, n, k, i) && jobs[i].conclusion == shards[k]
       else forall i: nat :: i < n && IsShard(jobs, prefix, i) && shard(prefix, jobs[i].name).Some?
              ==> shard(prefix, jobs[i].name).value.0 != k
  }

  ghost predicate Total(shard: ShardOf, jobs: seq<Job>, prefix: string, n: nat, total: Option<nat>) {
    n <= |jobs|
    && if total.Some? then OneTotal(shard, jobs, prefix, n, total.value) && exists i: nat :: i < n && IsShard(jobs, prefix, i)
       else forall i :: 0 <= i < n ==> !IsShard(jobs, prefix, i)
  }

  lemma {:induction false} SeenMeans(shard: ShardOf, jobs: seq<Job>, prefix: string, n: nat)
    requires n <= |jobs|
    ensures var r := SeeJobs(shard, jobs, prefix, n);
            r.Some? ==> Total(shard, jobs, prefix, n, r.value.total)
                        && forall k :: Recorded(shard, jobs, prefix, n, r.value.shards, k)
  {
    var r := SeeJobs(shard, jobs, prefix, n);
    if n > 0 && r.Some? {
      SeenMeans(shard, jobs, prefix, n - 1);
      var before := SeeJobs(shard, jobs, prefix, n - 1).value;
      forall k
        ensures Recorded(shard, jobs, prefix, n, r.value.shards, k)
      {
        assert Recorded(shard, jobs, prefix, n - 1, before.shards, k);
        RecordOne(shard, jobs, prefix, n - 1, before, k);
      }
      if IsShard(jobs, prefix, n - 1) {
        assert n - 1 < n && IsShard(jobs, prefix, n - 1);
      }
    }
  }

  lemma {:induction false} RecordOne(shard: ShardOf, jobs: seq<Job>, prefix: string, n: nat, seen: Seen, k: nat)
    requires n < |jobs| && Recorded(shard, jobs, prefix, n, seen.shards, k)
    ensures var r := SeeJob(shard, prefix, seen, jobs[n]);
            r.Some? ==> Recorded(shard, jobs, prefix, n + 1, r.value.shards, k)
  {
    var r := SeeJob(shard, prefix, seen, jobs[n]);
    if r.Some? {
      if IsShard(jobs, prefix, n) && shard(prefix, jobs[n].name).value.0 == k {
        assert LastOfShard(shard, jobs, prefix, n + 1, k, n);
      } else if k in seen.shards {
        var i: nat :| LastOfShard(shard, jobs, prefix, n, k, i) && jobs[i].conclusion == seen.shards[k];
        assert LastOfShard(shard, jobs, prefix, n + 1, k, i);
      }
    }
  }

  /** A job that stops the loop is no shard of a complete set. */
  lemma {:induction false} CompleteIsSeen(shard: ShardOf, jobs: seq<Job>, prefix: string, total: nat, n: nat)
    requires Complete(shard, jobs, prefix, total) && n <= |jobs|
    ensures SeeJobs(shard, jobs, prefix, n).Some?
    ensures var t := SeeJobs(shard, jobs, prefix, n).value.total;
            t.Some? ==> t.value == total
  {
    if n > 0 {
      CompleteIsSeen(shard, jobs, prefix, total, n - 1);
      assert IsShard(jobs, prefix, n - 1) ==> shard(prefix, jobs[n - 1].name).Some?;
    }
  }

  /** A matrix job passed exactly when, under a single N, every shard 1..N is there and the job
      that counts for it succeeded, and there is no other shard. */
  lemma {:induction false} MatrixExactly(shard: ShardOf, jobs: seq<Job>, prefix: string)
    ensures MatrixOk(shard, jobs, prefix) <==> MatrixProven(shard, jobs, prefix)
  {
    SeenMeans(shard, jobs, prefix, |jobs|);
    var r := SeeJobs(shard, jobs, prefix, |jobs|);
    if MatrixOk(shard, jobs, prefix) {
      GreenIsComplete(shard, jobs, prefix, r.value);
    }
    if total :| Complete(shard, jobs, prefix, total) {
      CompleteIsSeen(shard, jobs, prefix, total, |jobs|);
      CompleteIsGreen(shard, jobs, prefix, total, r.value);
    }
  }

  lemma {:induction false} GreenIsComplete(shard: ShardOf, jobs: seq<Job>, prefix: string, seen: Seen)
    requires AllGreen(seen) && Total(shard, jobs, prefix, |jobs|, seen.total)
    requires forall k :: Recorded(shard, jobs, prefix, |jobs|, seen.shards, k)
    ensures Complete(shard, jobs, prefix, seen.total.value)
  {
    var total := seen.total.value;
    forall k: nat | 1 <= k <= total
      ensures ShardSucceeded(shard, jobs, prefix, |jobs|, k)
    {
      assert k in seen.shards.Keys && Recorded(shard, jobs, prefix, |jobs|, seen.shards, k);
      var i: nat :| LastOfShard(shard, jobs, prefix, |jobs|, k, i) && jobs[i].conclusion == seen.shards[k];
    }
    forall i | 0 <= i < |jobs| && IsShard(jobs, prefix, i)
      ensures 1 <= shard(prefix, jobs[i].name).value.0 <= total
    {
      var k := shard(prefix, jobs[i].name).value.0;
      assert Recorded(shard, jobs, prefix, |jobs|, seen.shards, k);
      assert k in seen.shards.Keys;
    }
  }

  lemma {:induction false} CompleteIsGreen(shard: ShardOf, jobs: seq<Job>, prefix: string, total: nat, seen: Seen)
    requires Complete(shard, jobs, prefix, total) && Total(shard, jobs, prefix, |jobs|, seen.total)
    requires seen.total.Some? ==> seen.total.value == total
    requires forall k :: Recorded(shard, jobs, prefix, |jobs|, seen.shards, k)
    ensures AllGreen(seen)
  {
    assert ShardSucceeded(shard, jobs, prefix, |jobs|, 1);
    var first: nat :| first < |jobs| && LastOfShard(shard, jobs, prefix, |jobs|, 1, first);
    assert IsShard(jobs, prefix, first);
    forall k: nat
      ensures k in seen.shards <==> 1 <= k <= total
      ensures k in seen.shards ==> seen.shards[k] == "success"
    {
      assert Recorded(shard, jobs, prefix, |jobs|, seen.shards, k);
      if 1 <= k <= total {
        assert ShardSucceeded(shard, jobs, prefix, |jobs|, k);
        var i: nat :| i < |jobs| && LastOfShard(shard, jobs, prefix, |jobs|, k, i) && jobs[i].conclusion == "success";
        assert IsShard(jobs, prefix, i);
        if k in seen.shards {
          var j: nat :| LastOfShard(shard, jobs, prefix, |jobs|, k, j) && jobs[j].conclusion == seen.shards[k];
          assert i == j;
        }
      }
    }
    assert seen.shards.Keys == UpTo(total);
  }

  /** When no shard is listed twice, that means every job of the matrix succeeded. */
  lemma {:induction false} GreenShardsAreAllGreen(shard: ShardOf, jobs: seq<Job>, prefix: string, i: nat)
    requires MatrixOk(shard, jobs, prefix) && IsShard(jobs, prefix, i)
    requires forall j :: 0 <= j < |jobs| && j != i && IsShard(jobs, prefix, j) ==> shard(prefix, jobs[j].name) != shard(prefix, jobs[i].name)
    ensures jobs[i].conclusion == "success"
  {
    MatrixExactly(shard, jobs, prefix);
    var total :| Complete(shard, jobs, prefix, total);
    var (k, n) := shard(prefix, jobs[i].name).value;
    assert ShardSucceeded(shard, jobs, prefix, |jobs|, k);
    var j: nat :| j < |jobs| && LastOfShard(shard, jobs, prefix, |jobs|, k, j) && jobs[j].conclusion == "success";
    assert shard(prefix, jobs[j].name).value.1 == total == n;
  }

  // ----- the two rules ------------------------------------------------------------------

  predicate IsOnlyJob(jobs: seq<Job>, name: string, i: nat) {
    i < |jobs| && jobs[i].name == name && forall j :: 0 <= j < |jobs| && j != i ==> jobs[j].name != name
  }

  /** `job_passed`. */
  predicate JobPassed(shard: ShardOf, jobs: seq<Job>, r: Reusable) {
    if r.matrix then MatrixOk(shard, jobs, r.name)
    else exists i: nat :: i < |jobs| && IsOnlyJob(jobs, r.name, i) && jobs[i].conclusion == "success"
  }

  /** What a run recorded of itself, and what the API says of it. */
  datatype Record = Record(tree: string, event: string, python: string, passed: seq<string>)

  datatype GhRun = GhRun(id: string, path: string, repository: Option<string>, status: string, conclusion: string,
                         event: string, branch: string, headSha: string, url: string)

  predicate Proven(shard: ShardOf, rec: Record, jobs: seq<Job>, r: Reusable) {
    r.key in rec.passed && (r.key == "python-unit" ==> rec.python == "all") && JobPassed(shard, jobs, r)
  }

  /** `_proven`, over the first n reusable jobs. */
  function ProvenKeys(shard: ShardOf, rec: Record, jobs: seq<Job>, n: nat): seq<string>
    requires n <= |REUSABLE|
  {
    if n == 0 then []
    else ProvenKeys(shard, rec, jobs, n - 1) + if Proven(shard, rec, jobs, REUSABLE[n - 1]) then [REUSABLE[n - 1].key] else []
  }

  datatype Why = OtherTree | OtherWorkflow | OtherRepository | NotSuccess | OtherEvent | NothingMerged | OtherHead
               | OtherCommitTree | NeverReused | NotALanePush | NotALane | NotCompleted | NothingPassed | Reused

  /** `decide`: main's rule. */
  function Decide(shard: ShardOf, tree: string, repo: string, rec: Record, run: GhRun, jobs: seq<Job>,
                  mergedHead: Option<string>, headTree: Option<string>): (seq<string>, Why)
  {
    if rec.tree != tree then ([], OtherTree)
    else if run.path != WORKFLOW then ([], OtherWorkflow)
    else if run.repository != Some(repo) then ([], OtherRepository)
    else if run.conclusion != "success" then ([], NotSuccess)
    else if run.event != rec.event then ([], OtherEvent)
    else if run.event == "pull_request" && (mergedHead.None? || mergedHead.value == "") then ([], NothingMerged)
    else if run.event == "pull_request" && run.headSha != mergedHead.value then ([], OtherHead)
    else if run.event in {"push", "merge_group"} && headTree != Some(tree) then ([], OtherCommitTree)
    else if run.event !in {"pull_request", "push", "merge_group"} then ([], NeverReused)
    else
      var reused := ProvenKeys(shard, rec, jobs, |REUSABLE|);
      if reused == [] then ([], NothingPassed) else (reused, Reused)
  }

  /** `decide_pull_request`: a pull request's rule. */
  function DecidePullRequest(shard: ShardOf, tree: string, repo: string, rec: Record, run: GhRun, jobs: seq<Job>,
                             headTree: Option<string>): (seq<string>, Why)
  {
    if rec.tree != tree then ([], OtherTree)
    else if run.path != WORKFLOW then ([], OtherWorkflow)
    else if run.repository != Some(repo) then ([], OtherRepository)
    else if run.event != "push" then ([], NotALanePush)
    else if rec.event != run.event then ([], OtherEvent)
    else if !(LANE_PREFIX <= run.branch) then ([], NotALane)
    else if run.status != "completed" then ([], NotCompleted)
    else if run.conclusion != "success" then ([], NotSuccess)
    else if headTree != Some(tree) then ([], OtherCommitTree)
    else
      var reused := ProvenKeys(shard, rec, jobs, |REUSABLE|);
      if reused == [] then ([], NothingPassed) else (reused, Reused)
  }

  /** A pull request's rule refines main's: whatever it lets a run skip, main's rule would for
      the same record, run and tree, whatever was merged. */
  lemma {:induction false} PullRequestRefinesMain(shard: ShardOf, tree: string, repo: string, rec: Record, run: GhRun, jobs: seq<Job>,
                                                  mergedHead: Option<string>, headTree: Option<string>)
    requires DecidePullRequest(shard, tree, repo, rec, run, jobs, headTree).0 != []
    ensures Decide(shard, tree, repo, rec, run, jobs, mergedHead, headTree)
         == DecidePullRequest(shard, tree, repo, rec, run, jobs, headTree)
  {
  }

  /** The two rules differ only in which runs they look at: on a completed lane push they agree. */
  lemma {:induction false} RulesAgreeOnLanes(shard: ShardOf, tree: string, repo: string, rec: Record, run: GhRun, jobs: seq<Job>,
                                             mergedHead: Option<string>, headTree: Option<string>)
    ensures DecidePullRequest(shard, tree, repo, rec, run, jobs, headTree).0
         == if run.event == "push" && LANE_PREFIX <= run.branch && run.status == "completed"
            then Decide(shard, tree, repo, rec, run, jobs, mergedHead, headTree).0 else []
  {
  }

  lemma {:induction false} ProvenKeysAre(shard: ShardOf, rec: Record, jobs: seq<Job>, n: nat, key: string)
    requires n <= |REUSABLE|
    ensures key in ProvenKeys(shard, rec, jobs, n)
       <==> exists i :: 0 <= i < n && REUSABLE[i].key == key && Proven(shard, rec, jobs, REUSABLE[i])
  {
    if n > 0 {
      ProvenKeysAre(shard, rec, jobs, n - 1, key);
    }
  }

  /** The evidence a run must give before any of its jobs is skipped on main. */
  predicate Tied(tree: string, repo: string, rec: Record, run: GhRun, mergedHead: Option<string>, headTree: Option<string>) {
    rec.tree == tree && run.path == ".github/workflows/application.yml" && run.repository == Some(repo)
    && run.conclusion == "success" && run.event == rec.event
    && ((run.event == "pull_request" && mergedHead.Some? && mergedHead.value != "" && run.headSha == mergedHead.value)
        || (run.event in {"push", "merge_group"} && headTree == Some(tree)))
  }

  /** Exactly one job of that name ran, and it succeeded. */
  predicate RanOnceGreen(jobs: seq<Job>, name: string) {
    exists i: nat :: i < |jobs| && jobs[i] == Job(name, "success")
      && forall j :: 0 <= j < |jobs| && jobs[j].name == name ==> j == i
  }

  /** The job is reusable, recorded as passed and green in the job list -- a matrix with every one
      of its shards -- and the unit shards are of the whole suite. */
  ghost predicate Skippable(shard: ShardOf, rec: Record, jobs: seq<Job>, key: string) {
    key in rec.passed && (key == "python-unit" ==> rec.python == "all")
    && exists i :: 0 <= i < |REUSABLE| && REUSABLE[i].key == key
         && if REUSABLE[i].matrix then MatrixProven(shard, jobs, REUSABLE[i].name) else RanOnceGreen(jobs, REUSABLE[i].name)
  }

  lemma {:induction false} ProvenExactly(shard: ShardOf, rec: Record, jobs: seq<Job>, r: Reusable)
    ensures Proven(shard, rec, jobs, r)
       <==> r.key in rec.passed && (r.key == "python-unit" ==> rec.python == "all")
            && if r.matrix then MatrixProven(shard, jobs, r.name) else RanOnceGreen(jobs, r.name)
  {
    MatrixExactly(shard, jobs, r.name);
    if i: nat :| i < |jobs| && IsOnlyJob(jobs, r.name, i) && jobs[i].conclusion == "success" {
      assert jobs[i] == Job(r.name, "success");
    }
    if i: nat :| i < |jobs| && jobs[i] == Job(r.name, "success")
                 && forall j :: 0 <= j < |jobs| && jobs[j].name == r.name ==> j == i {
      assert IsOnlyJob(jobs, r.name, i);
    }
  }

  lemma {:induction false} SkippableExactly(shard: ShardOf, rec: Record, jobs: seq<Job>, key: string)
    ensures key in ProvenKeys(shard, rec, jobs, |REUSABLE|) <==> Skippable(shard, rec, jobs, key)
  {
    ProvenKeysAre(shard, rec, jobs, |REUSABLE|, key);
    forall i | 0 <= i < |REUSABLE|
      ensures Proven(shard, rec, jobs, REUSABLE[i])
         <==> REUSABLE[i].key in rec.passed && (REUSABLE[i].key == "python-unit" ==> rec.python == "all")
              && if REUSABLE[i].matrix then MatrixProven(shard, jobs, REUSABLE[i].name) else RanOnceGreen(jobs, REUSABLE[i].name)
    {
      ProvenExactly(shard, rec, jobs, REUSABLE[i]);
    }
  }

  /** A job is skipped exactly when the run is tied to this tree and the job may be skipped. */
  lemma {:induction false} SkippedExactly(shard: ShardOf, tree: string, repo: string, rec: Record, run: GhRun, jobs: seq<Job>,
                                          mergedHead: Option<string>, headTree: Option<string>, key: string)
    ensures key in Decide(shard, tree, repo, rec, run, jobs, mergedHead, headTree).0
       <==> Tied(tree, repo, rec, run, mergedHead, headTree) && Skippable(shard, rec, jobs, key)
  {
    SkippableExactly(shard, rec, jobs, key);
  }

  /** The evidence a pull request asks for: a completed, green push of a lane with this tree. */
  predicate TiedToLane(tree: string, repo: string, rec: Record, run: GhRun, headTree: Option<string>) {
    rec.tree == tree && run.path == ".github/workflows/application.yml" && run.repository == Some(repo)
    && run.event == "push" && rec.event == "push" && "swarm/" <= run.branch
    && run.status == "completed" && run.conclusion == "success" && headTree == Some(tree)
  }

  lemma {:induction false} PullRequestSkipsExactly(shard: ShardOf, tree: string, repo: string, rec: Record, run: GhRun,
                                                   jobs: seq<Job>, headTree: Option<string>, key: string)
    ensures key in DecidePullRequest(shard, tree, repo, rec, run, jobs, headTree).0
       <==> TiedToLane(tree, repo, rec, run, headTree) && Skippable(shard, rec, jobs, key)
  {
    SkippableExactly(shard, rec, jobs, key);
  }

  // ----- the table ----------------------------------------------------------------------

  /** The reusable jobs, which of them are matrices, and when a change reaches each. */
  lemma {:induction false} ReusableJobs(r: Reusable, o: Outputs)
    requires r in REUSABLE
    ensures r.key in {"shell", "workflows", "ruff", "python-checks", "python-unit", "ui-build", "ui-tests", "integration", "manifests"}
    ensures r.matrix <==> r.key in {"python-unit", "ui-tests"}
    ensures Reached(r, o)
       <==> if r.key in {"ui-build", "ui-tests"} then Output(o, "ui") == "true"
            else if r.key == "python-checks" then Output(o, "python") in {"all", "selected"}
            else if r.key == "python-unit" then Output(o, "python") != "none"
            else Output(o, "app") == "true"
  {
    var i :| 0 <= i < |REUSABLE| && REUSABLE[i] == r;
    assert i < 9;
  }

  lemma {:induction false} ReusableKeys(key: string)
    ensures IsReusableKey(key)
       <==> key in {"shell", "workflows", "ruff", "python-checks", "python-unit", "ui-build", "ui-tests", "integration", "manifests"}
  {
    assert REUSABLE[0].key == "shell" && REUSABLE[1].key == "workflows" && REUSABLE[2].key == "ruff"
        && REUSABLE[3].key == "python-checks" && REUSABLE[4].key == "python-unit" && REUSABLE[5].key == "ui-build"
        && REUSABLE[6].key == "ui-tests" && REUSABLE[7].key == "integration" && REUSABLE[8].key == "manifests";
  }

  // ----- the lookup ---------------------------------------------------------------------

  datatype Artifact = Artifact(id: string, runId: Option<string>, created: string, branch: string, expired: bool)

  /** An artifact's record, its run, the run's jobs and the tree git computes for the run's commit. */
  datatype Found = Found(rec: Record, run: GhRun, jobs: seq<Job>, tree: Option<string>)

  function Judged(shard: ShardOf, tree: string, repo: string, event: string, mergedHead: Option<string>, f: Found): seq<string> {
    if event == "pull_request" then
      DecidePullRequest(shard, tree, repo, f.rec, f.run, f.jobs, if f.run.event == "push" then f.tree else None).0
    else
      Decide(shard, tree, repo, f.rec, f.run, f.jobs, mergedHead,
             if f.run.event in {"push", "merge_group"} then f.tree else None).0
  }

  predicate Newer(a: Artifact, b: Artifact) {
    StrLe(b.created, a.created)
  }

  function Usable(artifacts: seq<Artifact>, event: string): seq<Artifact> {
    if artifacts == [] then []
    else
      var a := artifacts[0];
      (if !a.expired && (event == "pull_request" ==> LANE_PREFIX <= a.branch) then [a] else []) + Usable(artifacts[1..], event)
  }

  /** Looked at are the artifacts that have not expired, for a pull request only a lane's. */
  lemma {:induction false} UsableExactly(artifacts: seq<Artifact>, event: string, a: Artifact)
    ensures a in Usable(artifacts, event)
       <==> a in artifacts && !a.expired && (event == "pull_request" ==> "swarm/" <= a.branch)
  {
    if artifacts != [] {
      UsableExactly(artifacts[1..], event, a);
      assert artifacts == [artifacts[0]] + artifacts[1..];
    }
  }

  /** What each kind of run may skip on an artifact's evidence: a pull request by a lane's push, any
      other by a run tied to the commit; the tree of the run's commit is asked only of pushes. */
  lemma {:induction false} JudgedExactly(shard: ShardOf, tree: string, repo: string, event: string, mergedHead: Option<string>,
                                         f: Found, key: string)
    ensures key in Judged(shard, tree, repo, event, mergedHead, f)
       <==> Skippable(shard, f.rec, f.jobs, key)
            && if event == "pull_request" then TiedToLane(tree, repo, f.rec, f.run, f.tree)
               else Tied(tree, repo, f.rec, f.run, mergedHead, f.tree)
  {
    SkippableExactly(shard, f.rec, f.jobs, key);
  }

  /** The rule `find` applies to each record. */
  type Judge = Found -> seq<string>

  function RuleFor(shard: ShardOf, tree: string, repo: string, event: string, mergedHead: Option<string>): Judge {
    f => Judged(shard, tree, repo, event, mergedHead, f)
  }

  /** All the jobs of an answer come from the one run it cites. */
  predicate FromRun(judge: Judge, fetch: Artifact -> Option<Found>, a: Artifact, answer: (seq<string>, string)) {
    a.runId.Some? && fetch(a).Some?
    && answer == (judge(fetch(a).value), fetch(a).value.run.url)
  }

  predicate Useless(judge: Judge, fetch: Artifact -> Option<Found>, a: Artifact) {
    a.runId.Some? && a.runId.value != "" ==>
      fetch(a).Some? && judge(fetch(a).value) == []
  }

  /** It is the newest of any use: whatever was created later was of none. */
  ghost predicate NewestUseful(judge: Judge, fetch: Artifact -> Option<Found>, artifacts: seq<Artifact>, a: Artifact) {
    a in artifacts
    && forall b :: b in artifacts && a.created != b.created && StrLe(a.created, b.created) ==> Useless(judge, fetch, b)
  }

  lemma {:induction false} NewerIsTotal()
    ensures Ordering.Total(Newer)
  {
    StrOrder();
    assert Ordering.Total(StrLe);
  }

  /** The loop over the artifacts, newest first. */
  method FirstUseful(judge: Judge, artifacts: seq<Artifact>, fetch: Artifact -> Option<Found>) returns (r: Option<(seq<string>, string)>)
    ensures r.Some? && r.value.0 != [] ==>
              exists a :: NewestUseful(judge, fetch, artifacts, a) && FromRun(judge, fetch, a, r.value)
    ensures r.Some? && r.value.0 == [] ==> forall a :: a in artifacts ==> Useless(judge, fetch, a)
    ensures r.None? ==> exists a :: a in artifacts && fetch(a).None?
  {
    var sorted := SortBy(Newer, artifacts);
    var i := 0;
    while i < |sorted|
      invariant 0 <= i <= |sorted|
      invariant forall k :: 0 <= k < i ==> Useless(judge, fetch, sorted[k])
    {
      var a := sorted[i];
      SameMembers(sorted, artifacts, a);
      if a.runId.Some? && a.runId.value != "" {
        var found := fetch(a);
        if found.None? {
          return None;
        }
        var reused := judge(found.value);
        if reused != [] {
          forall b | b in artifacts && a.created != b.created && StrLe(a.created, b.created)
            ensures Useless(judge, fetch, b)
          {
            NewerIsTotal();
            StrOrder();
            ComesBefore(Newer, artifacts, i, b);
          }
          assert NewestUseful(judge, fetch, artifacts, a);
          assert FromRun(judge, fetch, a, (reused, found.value.run.url));
          return Some((reused, found.value.run.url));
        }
      }
      i := i + 1;
    }
    forall a | a in artifacts
      ensures Useless(judge, fetch, a)
    {
      SameMembers(sorted, artifacts, a);
    }
    return Some(([], ""));
  }

  /** `find`, once the tree is known: the jobs to skip and the run they passed in. `fetch` reads
      one artifact's run; None is an API that failed, which ends the lookup with an exception. */
  method Find(shard: ShardOf, tree: string, repo: string, event: string, mergedHead: Option<string>, artifacts: seq<Artifact>,
              fetch: Artifact -> Option<Found>) returns (r: Option<(seq<string>, string)>)
    ensures var judge := RuleFor(shard, tree, repo, event, mergedHead);
            (r.Some? && r.value.0 != [] ==>
               exists a :: NewestUseful(judge, fetch, Usable(artifacts, event), a) && FromRun(judge, fetch, a, r.value))
            && (r.Some? && r.value.0 == [] ==> forall a :: a in Usable(artifacts, event) ==> Useless(judge, fetch, a))
            && (r.None? ==> exists a :: a in Usable(artifacts, event) && fetch(a).None?)
  {
    r := FirstUseful(RuleFor(shard, tree, repo, event, mergedHead), Usable(artifacts, event), fetch);
  }

  // ----- the gate -----------------------------------------------------------------------

  datatype Outputs = Outputs(values: map<string, string>, reused: Option<seq<string>>, reusedFrom: string)

  function Output(o: Outputs, name: string): string {
    if name in o.values then o.values[name] else ""
  }

  /** `reached`: a job's own `if:` before its reuse clause. */
  predicate Reached(r: Reusable, o: Outputs) {
    if r.op == "!=" then Output(o, r.output) !in r.values else Output(o, r.output) in r.values
  }

  datatype GateProblem = NotAList | NotReusable(key: string) | NeverLooksUp | NoSource | NotListed(key: string)

  predicate IsReusableKey(key: string) {
    exists i :: 0 <= i < |REUSABLE| && REUSABLE[i].key == key
  }

  /** A reusable job was skipped although this change reaches it and nobody listed it. */
  predicate LostGreen(result: string -> string, o: Outputs, reused: seq<string>, r: Reusable) {
    result(r.key) == "skipped" && r.key !in reused && Reached(r, o)
  }

  /** `gate`. */
  method Gate(result: string -> string, o: Outputs, event: string) returns (problems: seq<GateProblem>)
    ensures problems == [] <==>
              o.reused.Some? && (forall key :: key in o.reused.value ==> IsReusableKey(key))
              && (o.reused.value != [] ==> event in {"push", "pull_request"} && o.reusedFrom != "")
              && forall i :: 0 <= i < |REUSABLE| ==>
                   !(result(REUSABLE[i].key) == "skipped" && Reached(REUSABLE[i], o) && REUSABLE[i].key !in o.reused.value)
  {
    if o.reused.None? {
      return [NotAList];
    }
    var reused := o.reused.value;
    problems := [];
    var i := 0;
    while i < |reused|
      invariant 0 <= i <= |reused| && (problems == [] <==> forall k :: 0 <= k < i ==> IsReusableKey(reused[k]))
    {
      if !IsReusableKey(reused[i]) {
        problems := problems + [NotReusable(reused[i])];
      }
      i := i + 1;
    }
    assert problems == [] <==> forall key :: key in reused ==> IsReusableKey(key);
    problems := problems
      + (if reused != [] && event !in {"push", "pull_request"} then [NeverLooksUp] else [])
      + (if reused != [] && o.reusedFrom == "" then [NoSource] else []);
    ghost var before := problems == [];
    i := 0;
    while i < |REUSABLE|
      invariant 0 <= i <= |REUSABLE|
      invariant problems == [] <==> before && forall k :: 0 <= k < i ==> !LostGreen(result, o, reused, REUSABLE[k])
    {
      if LostGreen(result, o, reused, REUSABLE[i]) {
        problems := problems + [NotListed(REUSABLE[i].key)];
      }
      i := i + 1;
    }
  }
}
