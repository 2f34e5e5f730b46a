/** The prompt-cache price table of scripts/benchstat.py: what the attempts add up to, and when
    the 1-hour cache can pay. */
module CacheTtl {
  import opened Common
  import opened Ordering

  const WRITE_5M: real := 1.25
  const WRITE_1H: real := 2.0

  /** `cache_ttl_break_even`; None is ValueError. */
  function BreakEven(read: real): Option<real> {
    if !(0.0 <= read < WRITE_1H) then None else Some((WRITE_1H - WRITE_5M) / (WRITE_1H - read))
  }

  /** A profile's totals: cache writes, reads, and the writes a longer cache could have saved. */
  datatype Totals = Totals(writes: int, readTokens: int, crossAttempt: int)

  function Cost5m(t: Totals, read: real): real {
    WRITE_5M * t.writes as real + read * t.readTokens as real
  }

  function Cost1hBest(t: Totals, read: real): real {
    WRITE_1H * (t.writes - t.crossAttempt) as real + read * (t.crossAttempt + t.readTokens) as real
  }

  function Share(t: Totals): Option<real> {
    if t.writes == 0 then None else Some(t.crossAttempt as real / t.writes as real)
  }

  /** a / b against c / d, cross-multiplied. */
  lemma {:induction false} CrossMultiply(a: real, b: real, c: real, d: real)
    requires b > 0.0 && d > 0.0
    ensures a / b >= c / d <==> a * d >= c * b
  {
    var x, y := a / b, c / d;
    assert x * b == a && y * d == c;
    assert a * d - c * b == (x - y) * (b * d);
    assert b * d > 0.0;
    if x >= y {
      assert (x - y) * (b * d) >= 0.0;
    } else {
      assert (y - x) * (b * d) > 0.0;
    }
  }

  /** With writes to price, the best 1-hour cost is no more than the 5-minute cost exactly when
      the cross-attempt share reaches the break-even share. */
  lemma {:induction false} PaysExactly(t: Totals, read: real)
    requires t.writes > 0 && 0.0 <= read < 2.0
    ensures BreakEven(read) == Some(0.75 / (2.0 - read)) && Share(t) == Some(t.crossAttempt as real / t.writes as real)
    ensures Cost5m(t, read) == 1.25 * t.writes as real + read * t.readTokens as real
    ensures Cost1hBest(t, read)
         == 2.0 * (t.writes as real - t.crossAttempt as real) + read * (t.crossAttempt as real + t.readTokens as real)
    ensures Cost1hBest(t, read) <= Cost5m(t, read) <==> Share(t).value >= BreakEven(read).value
  {
    var w, e, r := t.writes as real, t.crossAttempt as real, t.readTokens as real;
    CrossMultiply(e, w, WRITE_1H - WRITE_5M, WRITE_1H - read);
    assert Cost5m(t, read) - Cost1hBest(t, read) == e * (WRITE_1H - read) - (WRITE_1H - WRITE_5M) * w by {
      assert read * (t.crossAttempt + t.readTokens) as real == read * e + read * r;
    }
  }

  /** A total below zero, which no counted writes add up to, would turn the comparison round. */
  lemma {:induction false} NegativeTotalTurnsRound(t: Totals, read: real)
    requires t.writes < 0 && 0.0 <= read < WRITE_1H
    ensures BreakEven(read).Some? && Share(t).Some?
    ensures Cost1hBest(t, read) <= Cost5m(t, read) <==> Share(t).value <= BreakEven(read).value
  {
    var w, e := t.writes as real, t.crossAttempt as real;
    var less := WRITE_1H - WRITE_5M;
    CrossMultiply(less, WRITE_1H - read, -e, -w);
    assert e / w == (-e) / (-w) by {
      assert e / w * w == e;
      assert (-e) / (-w) * (-w) == -e;
      assert (e / w - (-e) / (-w)) * w == 0.0;
    }
    assert Cost5m(t, read) - Cost1hBest(t, read) == e * (WRITE_1H - read) - less * w by {
      assert read * (t.crossAttempt + t.readTokens) as real == read * e + read * t.readTokens as real;
    }
  }

  // ----- what the totals add up ---------------------------------------------------------

  const FIVE_MINUTES: real := 300.0
  const ONE_HOUR: real := 3600.0

  /** An attempt's times in seconds and its token counts; None where none is given. */
  datatype Attempt = Attempt(started: Option<real>, created: Option<real>, completed: Option<real>,
                             writes: Option<int>, readTokens: Option<int>)

  datatype Work = Work(profile: string, attempts: seq<Attempt>)

  datatype Group = Group(tasks: nat, attempts: nat, reported: nat, unreported: nat, gapUnknown: nat, totals: Totals)

  const EMPTY := Group(0, 0, 0, 0, 0, Totals(0, 0, 0))

  /** `_attempt_start`. */
  function StartOf(a: Attempt): Option<real> {
    if a.started.Some? then a.started else a.created
  }

  /** The sort key: by start, those without one last. */
  predicate NotAfter(a: Attempt, b: Attempt) {
    StartOf(b).None? || (StartOf(a).Some? && StartOf(a).value <= StartOf(b).value)
  }

  function Written(a: Attempt): int {
    if a.writes.Some? then a.writes.value else 0
  }

  function Read(a: Attempt): int {
    if a.readTokens.Some? then a.readTokens.value else 0
  }

  /** It started 5 to 60 minutes after the attempt before it ended. */
  predicate InGap(a: Attempt, previousEnd: Option<real>) {
    StartOf(a).Some? && previousEnd.Some? && FIVE_MINUTES < StartOf(a).value - previousEnd.value <= ONE_HOUR
  }

  /** One attempt of the loop; only one after the first can have re-used a prefix. */
  function CountOne(g: Group, first: bool, previousEnd: Option<real>, a: Attempt): Group {
    var n, w := g.attempts + 1, Written(a);
    if a.writes.None? && a.readTokens.None? then g.(attempts := n, unreported := g.unreported + 1)
    else
      var wrote := !first && w != 0;
      var cross := if wrote && InGap(a, previousEnd) then w else 0;
      g.(attempts := n, reported := g.reported + 1,
         gapUnknown := g.gapUnknown + if wrote && (StartOf(a).None? || previousEnd.None?) then 1 else 0,
         totals := Totals(g.totals.writes + w, g.totals.readTokens + Read(a), g.totals.crossAttempt + cross))
  }

  function CountFirst(g: Group, attempts: seq<Attempt>, n: nat): Group
    requires n <= |attempts|
  {
    if n == 0 then g
    else CountOne(CountFirst(g, attempts, n - 1), n == 1, if n == 1 then None else attempts[n - 2].completed, attempts[n - 1])
  }

  function InOrder(attempts: seq<Attempt>): (r: seq<Attempt>)
    ensures |r| == |attempts|
  {
    SortBy(NotAfter, attempts)
  }

  function CountWork(g: Group, w: Work): Group {
    CountFirst(g.(tasks := g.tasks + 1), InOrder(w.attempts), |w.attempts|)
  }

  /** What a task does to its profile's group. */
  type Counter = (Group, Work) -> Group

  function GroupOf(groups: map<string, Group>, profile: string): Group {
    if profile in groups then groups[profile] else EMPTY
  }

  /** The groups after the first n tasks. */
  function Grouped(count: Counter, work: seq<Work>, n: nat): map<string, Group>
    requires n <= |work|
  {
    if n == 0 then map[]
    else
      var before, w := Grouped(count, work, n - 1), work[n - 1];
      before[w.profile := count(GroupOf(before, w.profile), w)]
  }

  function Tally(work: seq<Work>, n: nat): map<string, Group>
    requires n <= |work|
  {
    Grouped(CountWork, work, n)
  }

  /** The inner loop of `cache_ttl_table`, over a task's attempts in order. */
  method CountAttempts(start: Group, attempts: seq<Attempt>) returns (g: Group)
    ensures g == CountFirst(start, attempts, |attempts|)
  {
    g := start;
    var previousEnd, i := None, 0;
    while i < |attempts|
      invariant 0 <= i <= |attempts| && g == CountFirst(start, attempts, i)
      invariant previousEnd == if i == 0 then None else attempts[i - 1].completed
    {
      g := CountOne(g, i == 0, previousEnd, attempts[i]);
      previousEnd := attempts[i].completed;
      i := i + 1;
    }
  }

  method CountTask(g: Group, w: Work) returns (h: Group)
    ensures h == CountWork(g, w)
  {
    h := CountAttempts(g.(tasks := g.tasks + 1), InOrder(w.attempts));
  }

  ghost predicate CountsAt(count: Counter, g: Group, w: Work) {
    count(g, w) == CountWork(g, w)
  }

  ghost predicate Counts(count: Counter) {
    forall g, w {:trigger CountsAt(count, g, w)} :: CountsAt(count, g, w)
  }

  method CountOneTask(ghost count: Counter, g: Group, w: Work) returns (h: Group)
    requires Counts(count)
    ensures h == count(g, w)
  {
    h := CountTask(g, w);
    assert CountsAt(count, g, w);
  }

  /** The loop over the tasks. */
  method GroupWork(ghost count: Counter, work: seq<Work>) returns (groups: map<string, Group>)
    requires Counts(count)
    ensures groups == Grouped(count, work, |work|)
  {
    groups := map[];
    var n := 0;
    while n < |work|
      invariant 0 <= n <= |work| && groups == Grouped(count, work, n)
    {
      var w := work[n];
      var g := CountOneTask(count, GroupOf(groups, w.profile), w);
      groups := groups[w.profile := g];
      n := n + 1;
    }
  }

  lemma {:induction false} WorkIsCounted()
    ensures Counts(CountWork)
  {
    forall g, w
      ensures CountsAt(CountWork, g, w)
    {
    }
  }

  /** The loops of `cache_ttl_table`. */
  method TallyWork(work: seq<Work>) returns (groups: map<string, Group>)
    ensures groups == Tally(work, |work|)
  {
    WorkIsCounted();
    groups := GroupWork(CountWork, work);
  }

  // ----- what they mean -----------------------------------------------------------------

  /** The attempt at i of a task's, in order, wrote and started 5 to 60 minutes after the one
      before it ended. */
  predicate Resumed(attempts: seq<Attempt>, i: nat)
    requires i < |attempts|
  {
    i > 0 && StartOf(attempts[i]).Some? && attempts[i - 1].completed.Some?
    && 300.0 < StartOf(attempts[i]).value - attempts[i - 1].completed.value <= 3600.0
  }

  function ResumedWrites(attempts: seq<Attempt>, n: nat): int
    requires n <= |attempts|
  {
    if n == 0 then 0 else ResumedWrites(attempts, n - 1) + if Resumed(attempts, n - 1) then Written(attempts[n - 1]) else 0
  }

  /** It wrote, and nobody knows how long after the one before it ended. */
  predicate GapUnknown(attempts: seq<Attempt>, i: nat)
    requires i < |attempts|
  {
    i > 0 && Written(attempts[i]) != 0 && (StartOf(attempts[i]).None? || attempts[i - 1].completed.None?)
  }

  function UnknownGaps(attempts: seq<Attempt>, n: nat): nat
    requires n <= |attempts|
  {
    if n == 0 then 0 else UnknownGaps(attempts, n - 1) + if GapUnknown(attempts, n - 1) then 1 else 0
  }

  /** The cross-attempt writes are the writes of the attempts that resumed. */
  lemma {:induction false} CrossAddsUp(g: Group, attempts: seq<Attempt>, n: nat)
    requires n <= |attempts|
    ensures CountFirst(g, attempts, n).totals.crossAttempt == g.totals.crossAttempt + ResumedWrites(attempts, n)
    ensures CountFirst(g, attempts, n).gapUnknown == g.gapUnknown + UnknownGaps(attempts, n)
    ensures CountFirst(g, attempts, n).tasks == g.tasks
  {
    if n > 0 {
      CrossAddsUp(g, attempts, n - 1);
    }
  }

  /** Over all the profile's tasks, each task's attempts in order of their starts. */
  function ProfileResumed(work: seq<Work>, n: nat, profile: string): int
    requires n <= |work|
  {
    if n == 0 then 0
    else
      ProfileResumed(work, n - 1, profile)
      + if work[n - 1].profile == profile then ResumedWrites(InOrder(work[n - 1].attempts), |work[n - 1].attempts|) else 0
  }

  function ProfileGaps(work: seq<Work>, n: nat, profile: string): nat
    requires n <= |work|
  {
    if n == 0 then 0
    else
      ProfileGaps(work, n - 1, profile)
      + if work[n - 1].profile == profile then UnknownGaps(InOrder(work[n - 1].attempts), |work[n - 1].attempts|) else 0
  }

  function ProfileTasks(work: seq<Work>, n: nat, profile: string): nat
    requires n <= |work|
  {
    if n == 0 then 0 else ProfileTasks(work, n - 1, profile) + if work[n - 1].profile == profile then 1 else 0
  }

  ghost predicate ResumesAt(count: Counter, g: Group, w: Work) {
    count(g, w).totals.crossAttempt == g.totals.crossAttempt + ResumedWrites(InOrder(w.attempts), |w.attempts|)
    && count(g, w).gapUnknown == g.gapUnknown + UnknownGaps(InOrder(w.attempts), |w.attempts|)
    && count(g, w).tasks == g.tasks + 1
  }

  lemma {:induction false} GroupsResume(count: Counter, work: seq<Work>, n: nat, profile: string)
    requires n <= |work| && forall g, w {:trigger ResumesAt(count, g, w)} :: ResumesAt(count, g, w)
    ensures var g := GroupOf(Grouped(count, work, n), profile);
            g.totals.crossAttempt == ProfileResumed(work, n, profile) && g.gapUnknown == ProfileGaps(work, n, profile)
            && g.tasks == ProfileTasks(work, n, profile)
  {
    if n > 0 {
      GroupsResume(count, work, n - 1, profile);
      assert ResumesAt(count, GroupOf(Grouped(count, work, n - 1), profile), work[n - 1]);
    }
  }

  lemma {:induction false} CrossAttemptExactly(work: seq<Work>, profile: string)
    ensures var g := GroupOf(Tally(work, |work|), profile);
            g.totals.crossAttempt == ProfileResumed(work, |work|, profile) && g.gapUnknown == ProfileGaps(work, |work|, profile)
            && g.tasks == ProfileTasks(work, |work|, profile)
  {
    forall g, w
      ensures ResumesAt(CountWork, g, w)
    {
      CrossAddsUp(g.(tasks := g.tasks + 1), InOrder(w.attempts), |w.attempts|);
    }
    GroupsResume(CountWork, work, |work|, profile);
  }

  /** In order: by start, those without one last. */
  lemma {:induction false} OrderOfStarts(attempts: seq<Attempt>, i: nat, j: nat)
    requires i < j < |attempts|
    ensures var a, b := StartOf(InOrder(attempts)[i]), StartOf(InOrder(attempts)[j]);
            b.Some? ==> a.Some? && a.value <= b.value
    ensures multiset(InOrder(attempts)) == multiset(attempts)
  {
    assert Ordering.Total(NotAfter);
    SortBySorted(NotAfter, attempts);
    assert NotAfter(InOrder(attempts)[i], InOrder(attempts)[j]);
  }

  /** An attempt starts when it says it did, or else when it was made. */
  lemma {:induction false} StartExactly(a: Attempt, t: real)
    ensures StartOf(a) == Some(t) <==> a.started == Some(t) || (a.started.None? && a.created == Some(t))
  {
  }

  function SumOf(f: Attempt -> int, attempts: seq<Attempt>): int {
    if attempts == [] then 0 else f(attempts[0]) + SumOf(f, attempts[1..])
  }

  /** The sum over every attempt of the profile's tasks, in whatever order. */
  function ProfileSum(f: Attempt -> int, work: seq<Work>, n: nat, profile: string): int
    requires n <= |work|
  {
    if n == 0 then 0
    else ProfileSum(f, work, n - 1, profile) + if work[n - 1].profile == profile then SumOf(f, work[n - 1].attempts) else 0
  }

  lemma {:induction false} SumOfInserted(f: Attempt -> int, a: Attempt, attempts: seq<Attempt>)
    ensures SumOf(f, Insert(NotAfter, a, attempts)) == f(a) + SumOf(f, attempts)
  {
    if attempts != [] && !NotAfter(a, attempts[0]) {
      SumOfInserted(f, a, attempts[1..]);
      assert Insert(NotAfter, a, attempts)[1..] == Insert(NotAfter, a, attempts[1..]);
    } else {
      assert Insert(NotAfter, a, attempts)[1..] == attempts;
    }
  }

  lemma {:induction false} SumOfSorted(f: Attempt -> int, attempts: seq<Attempt>)
    ensures SumOf(f, SortBy(NotAfter, attempts)) == SumOf(f, attempts)
  {
    if attempts != [] {
      SumOfSorted(f, attempts[1..]);
      SumOfInserted(f, attempts[0], SortBy(NotAfter, attempts[1..]));
    }
  }

  lemma {:induction false} SumOfPrefix(f: Attempt -> int, attempts: seq<Attempt>, n: nat)
    requires n < |attempts|
    ensures SumOf(f, attempts[..n + 1]) == SumOf(f, attempts[..n]) + f(attempts[n])
  {
    if n > 0 {
      SumOfPrefix(f, attempts[1..], n - 1);
      assert attempts[..n + 1][1..] == attempts[1..][..n] && attempts[..n][1..] == attempts[1..][..n - 1];
    }
  }

  function One(a: Attempt): int {
    1
  }

  /** An attempt that gives either count is reported. */
  function Reports(a: Attempt): int {
    if a.writes.Some? || a.readTokens.Some? then 1 else 0
  }

  /** What one task adds to its group. */
  predicate Adds(g: Group, h: Group, writes: int, readTokens: int, reported: int, attempts: int) {
    h.totals.writes == g.totals.writes + writes && h.totals.readTokens == g.totals.readTokens + readTokens
    && h.attempts == g.attempts + attempts && h.reported == g.reported + reported
    && h.unreported == g.unreported + attempts - reported
  }

  lemma {:induction false} CountFirstAdds(g: Group, attempts: seq<Attempt>, n: nat)
    requires n <= |attempts|
    ensures Adds(g, CountFirst(g, attempts, n), SumOf(Written, attempts[..n]), SumOf(Read, attempts[..n]), SumOf(Reports, attempts[..n]), n)
  {
    if n > 0 {
      CountFirstAdds(g, attempts, n - 1);
      SumOfPrefix(Written, attempts, n - 1);
      SumOfPrefix(Read, attempts, n - 1);
      SumOfPrefix(Reports, attempts, n - 1);
    }
  }

  lemma {:induction false} SumOfOnes(attempts: seq<Attempt>)
    ensures SumOf(One, attempts) == |attempts|
  {
    if attempts != [] {
      SumOfOnes(attempts[1..]);
    }
  }

  lemma {:induction false} SumsInOrder(attempts: seq<Attempt>)
    ensures SumOf(Written, InOrder(attempts)) == SumOf(Written, attempts)
    ensures SumOf(Read, InOrder(attempts)) == SumOf(Read, attempts)
    ensures SumOf(Reports, InOrder(attempts)) == SumOf(Reports, attempts)
  {
    SumOfSorted(Written, attempts);
    SumOfSorted(Read, attempts);
    SumOfSorted(Reports, attempts);
  }

  lemma {:induction false} CountAllAdds(g: Group, attempts: seq<Attempt>)
    ensures Adds(g, CountFirst(g, attempts, |attempts|), SumOf(Written, attempts), SumOf(Read, attempts), SumOf(Reports, attempts), |attempts|)
  {
    CountFirstAdds(g, attempts, |attempts|);
    assert attempts[..|attempts|] == attempts;
  }

  ghost predicate AddsAt(count: Counter, g: Group, w: Work) {
    Adds(g, count(g, w), SumOf(Written, w.attempts), SumOf(Read, w.attempts), SumOf(Reports, w.attempts), SumOf(One, w.attempts))
  }

  ghost predicate AddsSums(count: Counter) {
    forall g, w {:trigger AddsAt(count, g, w)} :: AddsAt(count, g, w)
  }

  lemma {:induction false} WorkAdds()
    ensures AddsSums(CountWork)
  {
    forall g, w
      ensures AddsAt(CountWork, g, w)
    {
      CountAllAdds(g.(tasks := g.tasks + 1), InOrder(w.attempts));
      SumsInOrder(w.attempts);
      SumOfOnes(w.attempts);
    }
  }

  lemma {:induction false} AddsAgain(g: Group, h: Group, k: Group, w1: int, r1: int, p1: int, n1: int, w2: int, r2: int, p2: int, n2: int)
    requires Adds(g, h, w1, r1, p1, n1) && Adds(h, k, w2, r2, p2, n2)
    ensures Adds(g, k, w1 + w2, r1 + r2, p1 + p2, n1 + n2)
  {
  }

  lemma {:induction false} GroupsAddUp(count: Counter, work: seq<Work>, n: nat, profile: string)
    requires n <= |work| && AddsSums(count)
    ensures Adds(EMPTY, GroupOf(Grouped(count, work, n), profile), ProfileSum(Written, work, n, profile),
                 ProfileSum(Read, work, n, profile), ProfileSum(Reports, work, n, profile), ProfileSum(One, work, n, profile))
  {
    if n > 0 {
      GroupsAddUp(count, work, n - 1, profile);
      var w, g := work[n - 1], GroupOf(Grouped(count, work, n - 1), profile);
      if w.profile == profile {
        assert AddsAt(count, g, w);
        AddsAgain(EMPTY, g, count(g, w), ProfileSum(Written, work, n - 1, profile), ProfileSum(Read, work, n - 1, profile),
                  ProfileSum(Reports, work, n - 1, profile), ProfileSum(One, work, n - 1, profile),
                  SumOf(Written, w.attempts), SumOf(Read, w.attempts), SumOf(Reports, w.attempts), SumOf(One, w.attempts));
      }
    }
  }

  /** A group's writes and reads are the sums over all attempts of its profile's tasks, whatever
      order the attempts come in, and every attempt is counted once, as reported or not. */
  lemma {:induction false} TotalsAddUp(work: seq<Work>, profile: string)
    ensures var g := GroupOf(Tally(work, |work|), profile);
            g.totals.writes == ProfileSum(Written, work, |work|, profile)
            && g.totals.readTokens == ProfileSum(Read, work, |work|, profile)
            && g.reported == ProfileSum(Reports, work, |work|, profile)
            && g.attempts == ProfileSum(One, work, |work|, profile) && g.unreported == g.attempts - g.reported
  {
    WorkAdds();
    GroupsAddUp(CountWork, work, |work|, profile);
  }

  /** No attempt counts fewer than no tokens. */
  predicate CountsTokens(attempts: seq<Attempt>) {
    forall i :: 0 <= i < |attempts| ==> Written(attempts[i]) >= 0 && Read(attempts[i]) >= 0
  }

  ghost predicate AllCountTokens(work: seq<Work>) {
    forall i :: 0 <= i < |work| ==> CountsTokens(work[i].attempts)
  }

  /** The writes that could have been saved are some of the writes, and all were reported. */
  predicate IsPart(g: Group) {
    0 <= g.totals.crossAttempt <= g.totals.writes && (g.reported == 0 ==> g.totals.writes == 0)
  }

  lemma {:induction false} CountFirstKeepsPart(g: Group, attempts: seq<Attempt>, n: nat)
    requires n <= |attempts| && CountsTokens(attempts) && IsPart(g)
    ensures IsPart(CountFirst(g, attempts, n))
  {
    if n > 0 {
      CountFirstKeepsPart(g, attempts, n - 1);
    }
  }

  ghost predicate PartAt(count: Counter, g: Group, w: Work) {
    IsPart(g) && CountsTokens(w.attempts) ==> IsPart(count(g, w))
  }

  ghost predicate KeepsPart(count: Counter) {
    forall g, w {:trigger PartAt(count, g, w)} :: PartAt(count, g, w)
  }

  lemma {:induction false} TokensInOrder(attempts: seq<Attempt>)
    requires CountsTokens(attempts)
    ensures CountsTokens(InOrder(attempts))
  {
    forall i | 0 <= i < |InOrder(attempts)|
      ensures Written(InOrder(attempts)[i]) >= 0 && Read(InOrder(attempts)[i]) >= 0
    {
      SameMembers(InOrder(attempts), attempts, InOrder(attempts)[i]);
    }
  }

  lemma {:induction false} WorkKeepsPart()
    ensures KeepsPart(CountWork)
  {
    forall g, w
      ensures PartAt(CountWork, g, w)
    {
      if IsPart(g) && CountsTokens(w.attempts) {
        TokensInOrder(w.attempts);
        CountFirstKeepsPart(g.(tasks := g.tasks + 1), InOrder(w.attempts), |w.attempts|);
      }
    }
  }

  lemma {:induction false} GroupsKeepPart(count: Counter, work: seq<Work>, n: nat, profile: string)
    requires n <= |work| && AllCountTokens(work) && KeepsPart(count)
    ensures IsPart(GroupOf(Grouped(count, work, n), profile))
  {
    if n > 0 {
      GroupsKeepPart(count, work, n - 1, profile);
      assert CountsTokens(work[n - 1].attempts);
      assert PartAt(count, GroupOf(Grouped(count, work, n - 1), profile), work[n - 1]);
    }
  }

  /** For counted tokens: 0 <= cross-attempt writes <= writes, and unreported means none. */
  lemma {:induction false} SavableIsPart(work: seq<Work>, profile: string)
    requires AllCountTokens(work)
    ensures IsPart(GroupOf(Tally(work, |work|), profile))
  {
    WorkKeepsPart();
    GroupsKeepPart(CountWork, work, |work|, profile);
  }

  /** What a row says of its profile. */
  datatype Note = NotMeasured | NoWrites | CouldPay | CannotPay

  function NoteOf(g: Group, read: real): Note
    requires 0.0 <= read < WRITE_1H
  {
    if g.reported == 0 then NotMeasured
    else if g.totals.writes == 0 then NoWrites
    else if Share(g.totals).value >= BreakEven(read).value then CouldPay
    else CannotPay
  }

  /** For counted tokens the share of every row is a proportion, and the row says that 1 hour
      could pay exactly when there are writes and its best cost is no more. */
  lemma {:induction false} NoteIsRight(work: seq<Work>, profile: string, read: real)
    requires AllCountTokens(work) && 0.0 <= read < 2.0
    ensures var g := GroupOf(Tally(work, |work|), profile);
            && (Share(g.totals).Some? ==> 0.0 <= Share(g.totals).value <= 1.0)
            && (NoteOf(g, read).CouldPay? <==> g.totals.writes > 0 && Cost1hBest(g.totals, read) <= Cost5m(g.totals, read))
            && (NoteOf(g, read).CannotPay? <==> g.totals.writes > 0 && Cost1hBest(g.totals, read) > Cost5m(g.totals, read))
  {
    var g := GroupOf(Tally(work, |work|), profile);
    SavableIsPart(work, profile);
    if g.totals.writes > 0 {
      PaysExactly(g.totals, read);
      ShareIsProportion(g.totals);
    }
  }

  lemma {:induction false} ShareIsProportion(t: Totals)
    requires 0 <= t.crossAttempt <= t.writes && t.writes > 0
    ensures 0.0 <= Share(t).value <= 1.0
  {
    var e, w := t.crossAttempt as real, t.writes as real;
    CrossMultiply(e, w, 0.0, 1.0);
    CrossMultiply(1.0, 1.0, e, w);
  }
}
