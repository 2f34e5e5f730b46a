/** The bench run lock of scripts/bench_contention.py: taking and releasing as atomic steps
    of interleaved runs, and the clean-up in between. */
module RunLock {
  import opened Common

  const STALE := 3600

  /** The lock document; `since` is None when it is not a time. */
  datatype Lock = Lock(run: string, since: Option<int>)

  /** Where a run is: it has read its clock, holds what it wrote, was refused, or has released. */
  datatype Phase =
    | Ready(now: int, breaks: bool)
    | Holding(since: int)
    | Refused
    | Released

  datatype State = State(clock: int, lock: Option<Lock>, runs: map<string, Phase>)

  datatype Step =
    | Tick(seconds: nat)
    | Start(run: string, breaks: bool)
    | Take(run: string)
    | Release(run: string)

  /** `_take`'s test: the lock is free, may be broken, or is stale. */
  predicate MayTake(lock: Option<Lock>, now: int, breaks: bool) {
    lock.None? || breaks || (lock.value.since.Some? && now - lock.value.since.value >= STALE)
  }

  /** One atomic step. A run id starts once; steps out of turn do nothing. */
  function Apply(s: State, step: Step): State {
    match step
    case Tick(seconds) => s.(clock := s.clock + seconds)
    case Start(run, breaks) =>
      if run in s.runs then s else s.(runs := s.runs[run := Ready(s.clock, breaks)])
    case Take(run) =>
      if run !in s.runs || !s.runs[run].Ready? then s
      else
        var me := s.runs[run];
        if MayTake(s.lock, me.now, me.breaks)
        then s.(lock := Some(Lock(run, Some(me.now))), runs := s.runs[run := Holding(me.now)])
        else s.(runs := s.runs[run := Refused])
    case Release(run) =>
      if run !in s.runs || !s.runs[run].Holding? then s
      else s.(lock := if s.lock.Some? && s.lock.value.run == run then None else s.lock,
              runs := s.runs[run := Released])
  }

  function Run(s: State, steps: seq<Step>, n: nat): State
    requires n <= |steps|
  {
    if n == 0 then s else Apply(Run(s, steps, n - 1), steps[n - 1])
  }

  // ----- what every step keeps ----------------------------------------------------------

  /** A run is between taking and releasing. */
  predicate Holds(s: State, run: string) {
    run in s.runs && s.runs[run].Holding?
  }

  /** What a holder wrote is still the lock. */
  ghost predicate OwnsLock(s: State, run: string) {
    Holds(s, run) ==> s.lock == Some(Lock(run, Some(s.runs[run].since)))
  }

  ghost predicate ReadBefore(s: State, run: string) {
    run in s.runs && s.runs[run].Ready? ==> s.runs[run].now <= s.clock
  }

  ghost predicate Inv(s: State) {
    (forall run :: OwnsLock(s, run)) && (forall run :: ReadBefore(s, run))
  }

  /** No holder is past the stale limit of the time it wrote, and nobody breaks locks. */
  ghost predicate Prompt(s: State) {
    forall run :: run in s.runs ==>
      (s.runs[run].Holding? ==> s.clock < s.runs[run].since + STALE)
      && (s.runs[run].Ready? ==> !s.runs[run].breaks)
  }

  ghost predicate Exclusive(s: State) {
    forall a, b :: Holds(s, a) && Holds(s, b) ==> a == b
  }

  lemma {:induction false} InvIsExclusive(s: State)
    requires Inv(s)
    ensures Exclusive(s)
  {
    forall a, b | Holds(s, a) && Holds(s, b)
      ensures a == b
    {
      assert OwnsLock(s, a) && OwnsLock(s, b);
    }
  }

  /** While someone holds the lock, another run takes it exactly when it breaks locks or read
      its clock at least the stale limit after the holder's. */
  lemma {:induction false} OvertakesExactly(s: State, holder: string, run: string)
    requires Inv(s) && Holds(s, holder) && run in s.runs && s.runs[run].Ready?
    ensures Holds(Apply(s, Take(run)), run)
       <==> s.runs[run].breaks || s.runs[run].now - s.runs[holder].since >= 3600
  {
    assert OwnsLock(s, holder);
  }

  lemma {:induction false} StepKeepsInv(s: State, step: Step)
    requires Inv(s) && Prompt(s)
    ensures Inv(Apply(s, step))
  {
    var t := Apply(s, step);
    forall run
      ensures OwnsLock(t, run) && ReadBefore(t, run)
    {
      assert OwnsLock(s, run) && ReadBefore(s, run);
      match step
      case Take(taker) =>
        assert ReadBefore(s, taker);
        if Holds(s, run) && taker in s.runs && s.runs[taker].Ready? {
          OvertakesExactly(s, run, taker);
        }
      case Release(releaser) =>
        assert OwnsLock(s, releaser);
      case _ =>
    }
  }

  /** In every interleaving of runs with distinct ids and a clock that never goes back, if no
      one breaks locks and every holder releases before the stale limit of the time it wrote,
      at most one run is between taking and releasing. */
  lemma {:induction false} AtMostOneHolds(s: State, steps: seq<Step>, n: nat)
    requires s.runs == map[] && n <= |steps|
    requires forall i :: 0 <= i < n ==> Prompt(Run(s, steps, i))
    ensures Inv(Run(s, steps, n)) && Exclusive(Run(s, steps, n))
  {
    if n > 0 {
      AtMostOneHolds(s, steps, n - 1);
      StepKeepsInv(Run(s, steps, n - 1), steps[n - 1]);
    }
    InvIsExclusive(Run(s, steps, n));
  }

  /** The promptness is needed: a run that outlives the limit by nothing at all overlaps the next. */
  lemma {:induction false} LateHolderOverlaps()
    ensures var steps := [Start("a", false), Take("a"), Tick(3600), Start("b", false), Take("b")];
            var s := Run(State(0, None, map[]), steps, 5);
            Holds(s, "a") && Holds(s, "b") && !Exclusive(s)
  {
    var steps := [Start("a", false), Take("a"), Tick(3600), Start("b", false), Take("b")];
    var s0 := State(0, None, map[]);
    assert Run(s0, steps, 1) == State(0, None, map["a" := Ready(0, false)]);
    var held := Some(Lock("a", Some(0)));
    assert Run(s0, steps, 2) == State(0, held, map["a" := Holding(0)]);
    assert Run(s0, steps, 3) == State(3600, held, map["a" := Holding(0)]);
    assert Run(s0, steps, 4) == State(3600, held, map["a" := Holding(0), "b" := Ready(3600, false)]);
    var s := Run(s0, steps, 5);
    assert Holds(s, "a") && Holds(s, "b") && "a"[0] != "b"[0];
  }

  // ----- takeover and lock-breaking -----------------------------------------------------

  /** A step that may change the lock `held`: its owner's release, or a take that wins. */
  predicate Disturbs(s: State, step: Step, held: Lock) {
    (step.Release? && step.run == held.run)
    || (step.Take? && step.run in s.runs && s.runs[step.run].Ready?
        && MayTake(s.lock, s.runs[step.run].now, s.runs[step.run].breaks))
  }

  predicate Undisturbed(s: State, steps: seq<Step>, held: Lock, i: nat) {
    i < |steps| && !Disturbs(Run(s, steps, i), steps[i], held)
  }

  /** Whatever is broken or taken over, a lock stands until its own run releases or another
      take wins: no release ever deletes another run's lock. */
  lemma {:induction false} ReleaseSparesOthers(s: State, steps: seq<Step>, from: nat, until: nat, held: Lock)
    requires from <= until <= |steps| && Run(s, steps, from).lock == Some(held)
    requires forall i :: from <= i < until ==> Undisturbed(s, steps, held, i)
    ensures Run(s, steps, until).lock == Some(held)
    decreases until
  {
    if from < until {
      ReleaseSparesOthers(s, steps, from, until - 1, held);
      assert Undisturbed(s, steps, held, until - 1);
    }
  }

  /** A release by the run the lock names leaves it free, and whoever is ready takes it next. */
  lemma {:induction false} ReleaseFrees(s: State, run: string, next: string)
    requires Inv(s) && Holds(s, run) && next in s.runs && s.runs[next].Ready?
    ensures Apply(s, Release(run)).lock.None? && !Holds(Apply(s, Release(run)), run)
    ensures Holds(Apply(Apply(s, Release(run)), Take(next)), next)
  {
    assert OwnsLock(s, run);
  }

  /** A refused run never holds. */
  lemma {:induction false} RefusedExactly(s: State, run: string)
    requires run in s.runs && s.runs[run].Ready?
    ensures var t := Apply(s, Take(run));
            if s.lock.None? || s.runs[run].breaks
               || (s.lock.value.since.Some? && s.runs[run].now - s.lock.value.since.value >= 3600)
            then Holds(t, run) && t.lock == Some(Lock(run, Some(s.runs[run].now)))
            else t.runs[run] == Refused && t.lock == s.lock
  {
  }

  /** A run that read its clock when the lock was stale stays ready to take it. */
  lemma {:induction false} StaysReady(s: State, steps: seq<Step>, from: nat, i: nat, n: nat, held: Lock, since: int, run: string)
    requires from <= i < n <= |steps| && Run(s, steps, from).lock == Some(held) && held.since == Some(since)
    requires forall k :: from <= k < n ==> Undisturbed(s, steps, held, k)
    requires steps[i].Start? && steps[i].run == run && run !in Run(s, steps, i).runs && Run(s, steps, i).clock >= since + STALE
    ensures run in Run(s, steps, n).runs && Run(s, steps, n).runs[run] == Ready(Run(s, steps, i).clock, steps[i].breaks)
    ensures Run(s, steps, n).lock == Some(held)
    decreases n
  {
    ReleaseSparesOthers(s, steps, from, n, held);
    if n > i + 1 {
      StaysReady(s, steps, from, i, n - 1, held, since, run);
      assert Undisturbed(s, steps, held, n - 1);
    }
  }

  /** Whatever other runs do in between, the lock of a holder that never releases falls to any
      run that starts once it is stale and takes it before another does. */
  lemma {:induction false} DeadHolderIsReplaced(s: State, steps: seq<Step>, from: nat, i: nat, j: nat, held: Lock, since: int, run: string)
    requires from <= i < j < |steps| && Run(s, steps, from).lock == Some(held) && held.since == Some(since)
    requires forall k :: from <= k < j ==> Undisturbed(s, steps, held, k)
    requires steps[i].Start? && steps[i].run == run && run !in Run(s, steps, i).runs && Run(s, steps, i).clock >= since + STALE
    requires steps[j] == Take(run)
    ensures Holds(Run(s, steps, j + 1), run) && Run(s, steps, j + 1).lock == Some(Lock(run, Some(Run(s, steps, i).clock)))
  {
    StaysReady(s, steps, from, i, j, held, since, run);
  }

  // ----- the clean-up -------------------------------------------------------------------

  datatype Ref = Ref(collection: string, id: string)

  datatype Document = Document(benchRunId: Option<string>, taskId: string)

  predicate StartsWith(s: string, prefix: string) {
    |prefix| <= |s| && s[..|prefix|] == prefix
  }

  function TaskPrefix(run: string): string {
    "bench-" + run + "-"
  }

  /** A document the run wrote; a lease is known by its task's id. */
  predicate Mine(run: string, r: Ref, d: Document) {
    d.benchRunId == Some(run) || (r.collection == "leases" && StartsWith(d.taskId, TaskPrefix(run)))
  }

  /** The run's are the documents that carry its id and the leases of its tasks. */
  lemma {:induction false} MineExactly(run: string, r: Ref, d: Document)
    ensures Mine(run, r, d)
       <==> d.benchRunId == Some(run) || (r.collection == "leases" && exists rest :: d.taskId == "bench-" + run + "-" + rest)
  {
    var p := TaskPrefix(run);
    if StartsWith(d.taskId, p) {
      assert d.taskId == p + d.taskId[|p|..];
    }
    if rest :| d.taskId == "bench-" + run + "-" + rest {
      assert d.taskId[..|p|] == p;
    }
  }

  /** Some task of the other run is taken for this run's exactly when one run's prefix begins
      the other's. */
  lemma {:induction false} PrefixesCollideExactly(run: string, other: string)
    ensures (exists rest :: StartsWith(TaskPrefix(other) + rest, TaskPrefix(run)))
       <==> TaskPrefix(run) <= TaskPrefix(other) || TaskPrefix(other) <= TaskPrefix(run)
  {
    var p, q := TaskPrefix(run), TaskPrefix(other);
    if rest :| StartsWith(q + rest, p) {
      assert |p| <= |q| ==> (q + rest)[..|p|] == q[..|p|];
      assert |q| <= |p| ==> p[..|q|] == (q + rest)[..|p|][..|q|] == q;
    }
    if p <= q {
      assert q + [] == q;
      assert StartsWith(q + [], p);
    } else if q <= p {
      assert q + p[|q|..] == p;
      assert StartsWith(q + p[|q|..], p);
    }
  }

  /** Task ids tell runs apart as long as run ids hold no dash, as generated ids do not. */
  lemma {:induction false} PrefixTellsRunsApart(run: string, other: string, rest: string)
    requires '-' !in run && '-' !in other
    ensures StartsWith(TaskPrefix(other) + rest, TaskPrefix(run)) <==> run == other
  {
    var s := TaskPrefix(other) + rest;
    var t := other + ("-" + rest);
    assert s[6..] == t && TaskPrefix(run)[6..] == run + "-";
    if run == other {
      assert s[..|TaskPrefix(run)|] == TaskPrefix(run);
    }
    if StartsWith(s, TaskPrefix(run)) {
      assert t[..|run| + 1] == s[..7 + |run|][6..] == run + "-";
      assert t[|run|] == t[..|run| + 1][|run|] == '-' && t[|other|] == '-';
      assert run == t[..|run| + 1][..|run|] == t[..|run|] && other == t[..|other|];
      DashWithin(run, t, |other|);
      DashWithin(other, t, |run|);
    }
  }

  lemma {:induction false} DashWithin(id: string, t: string, k: nat)
    requires |id| <= |t| && id == t[..|id|] && k < |t| && t[k] == '-'
    ensures k < |id| ==> '-' in id
  {
    assert k < |id| ==> id[k] == t[..|id|][k] == t[k];
  }

  /** The listed documents that are the run's. */
  function Own(docs: map<Ref, Document>, run: string, refs: seq<Ref>): set<Ref> {
    set r | r in refs && r in docs && Mine(run, r, docs[r])
  }

  /** With a dash in an id one run's prefix can begin another's: a clean-up of "a" that is handed
      a lease of "a-b" deletes it. */
  lemma {:induction false} DashConfusesRuns()
    ensures var r, d := Ref("leases", "l"), Document(None, TaskPrefix("a-b") + "r100-00001");
            Own(map[r := d], "a", [r]) == {r} && Own(map[r := d], "a-b", [r]) == {r}
  {
    var r, d := Ref("leases", "l"), Document(None, TaskPrefix("a-b") + "r100-00001");
    assert d.taskId[..8] == "bench-a-" && TaskPrefix("a") == "bench-a-";
    assert d.taskId[..|TaskPrefix("a-b")|] == TaskPrefix("a-b");
    assert Mine("a", r, d) && Mine("a-b", r, d);
  }

  predicate NoRepeats(refs: seq<Ref>) {
    forall i, j :: 0 <= i < j < |refs| ==> refs[i] != refs[j]
  }

  class Database {
    var docs: map<Ref, Document>

    constructor (docs: map<Ref, Document>)
      ensures this.docs == docs
    {
      this.docs := docs;
    }

    /** `cleanup`: exactly the listed documents this run wrote are deleted, in batches of 400;
        every other document is as it was. */
    method Cleanup(run: string, refs: seq<Ref>) returns (deleted: nat)
      modifies this`docs
      ensures docs == old(docs) - Own(old(docs), run, refs)
      ensures NoRepeats(refs) ==> deleted == |Own(old(docs), run, refs)|
    {
      deleted := 0;
      ghost var was, own: set<Ref>, distinct := docs, {}, NoRepeats(refs);
      var batch: set<Ref>, pending: nat := {}, 0;
      var i := 0;
      while i < |refs|
        invariant 0 <= i <= |refs|
        invariant own == Own(was, run, refs[..i]) && batch <= own
        invariant docs == was - (own - batch) && (pending == 0 ==> batch == {})
        invariant distinct ==> deleted == |own|
      {
        var r := refs[i];
        OwnGrows(was, docs, own - batch, run, refs, i, distinct);
        if r in docs && Mine(run, r, docs[r]) {
          assert (own + {r}) - (batch + {r}) == own - batch;
          own, batch, pending, deleted := own + {r}, batch + {r}, pending + 1, deleted + 1;
        }
        if pending == 400 {
          FlushLeaves(was, own, batch);
          docs, batch, pending := docs - batch, {}, 0;
        }
        i := i + 1;
      }
      FlushLeaves(was, own, batch);
      if pending > 0 {
        docs := docs - batch;
      }
      assert refs[..i] == refs;
    }
  }

  lemma {:induction false} FlushLeaves(was: map<Ref, Document>, own: set<Ref>, batch: set<Ref>)
    requires batch <= own
    ensures was - (own - batch) - batch == was - own
    ensures own - {} == own
  {
  }

  /** One more reference: the document is looked up in what earlier batches left. */
  lemma {:induction false} OwnGrows(was: map<Ref, Document>, docs: map<Ref, Document>, gone: set<Ref>, run: string,
                                    refs: seq<Ref>, i: nat, distinct: bool)
    requires i < |refs| && docs == was - gone && gone <= Own(was, run, refs[..i]) && distinct == NoRepeats(refs)
    ensures var own := Own(was, run, refs[..i]);
            Own(was, run, refs[..i + 1])
              == own + (if refs[i] in docs && Mine(run, refs[i], docs[refs[i]]) then {refs[i]} else {})
            && (distinct ==> refs[i] !in own)
  {
    assert refs[..i + 1] == refs[..i] + [refs[i]];
  }
}
