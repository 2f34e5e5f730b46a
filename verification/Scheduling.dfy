/** Longest-first placement onto the lightest shard, as a list scheduler over
    weights alone, and Graham's two bounds on its heaviest shard. */
module Scheduling {

  /** What shard `j` carries once the first `n` jobs are placed by `a`. */
  function Load(w: seq<real>, a: seq<nat>, j: nat, n: nat): real
    requires n <= |w| && n <= |a|
  {
    if n == 0 then 0.0
    else Load(w, a, j, n - 1) + if a[n - 1] == j then w[n - 1] else 0.0
  }

  function Loads(w: seq<real>, a: seq<nat>, m: nat, n: nat): seq<real>
    requires n <= |w| && n <= |a|
  {
    seq(m, j requires 0 <= j => Load(w, a, j, n))
  }

  /** The sum of the first `n` weights. */
  function Total(w: seq<real>, n: nat): real
    requires n <= |w|
  {
    if n == 0 then 0.0 else Total(w, n - 1) + w[n - 1]
  }

  /** The index of the lightest load, the lowest one on a tie. */
  function Lightest(loads: seq<real>): (k: nat)
    requires |loads| > 0
    ensures k < |loads|
    ensures forall j :: 0 <= j < |loads| ==> loads[k] <= loads[j]
    ensures forall j :: 0 <= j < k ==> loads[k] < loads[j]
  {
    if |loads| == 1 then 0
    else
      var k := Lightest(loads[..|loads| - 1]);
      if loads[|loads| - 1] < loads[k] then |loads| - 1 else k
  }

  ghost predicate IsAssignment(a: seq<nat>, n: nat, m: nat) {
    |a| == n && forall i :: 0 <= i < n ==> a[i] < m
  }

  ghost predicate Descending(w: seq<real>) {
    forall i, j :: 0 <= i <= j < |w| ==> w[j] <= w[i]
  }

  ghost predicate NonNegative(w: seq<real>) {
    forall i :: 0 <= i < |w| ==> 0.0 <= w[i]
  }

  /** Jobs taken in the order given, each onto the lightest of `m` shards. */
  function Greedy(w: seq<real>, m: nat, n: nat): (a: seq<nat>)
    requires m >= 1 && n <= |w|
    ensures |a| == n && forall i :: 0 <= i < n ==> a[i] < m
  {
    if n == 0 then []
    else
      var a := Greedy(w, m, n - 1);
      a + [Lightest(Loads(w, a, m, n - 1))]
  }

  lemma {:induction false} LoadPrefix(w: seq<real>, a: seq<nat>, b: seq<nat>, j: nat, n: nat)
    requires n <= |w| && n <= |a| && a <= b
    ensures Load(w, a, j, n) == Load(w, b, j, n)
  {
    if n > 0 {
      LoadPrefix(w, a, b, j, n - 1);
    }
  }

  lemma {:induction false} GreedyPrefix(w: seq<real>, m: nat, i: nat, n: nat)
    requires m >= 1 && i <= n <= |w|
    ensures Greedy(w, m, i) <= Greedy(w, m, n)
  {
    if i < n {
      GreedyPrefix(w, m, i, n - 1);
    }
  }

  /** Each job went to a shard no heavier than any other at that moment, and to
      the lowest-numbered such shard. */
  lemma {:induction false} GreedyChoosesLightest(w: seq<real>, m: nat, i: nat, j: nat)
    requires m >= 1 && i < |w| && j < m
    ensures var a := Greedy(w, m, |w|);
            && Load(w, a, a[i], i) <= Load(w, a, j, i)
            && (j < a[i] ==> Load(w, a, a[i], i) < Load(w, a, j, i))
  {
    var a, b := Greedy(w, m, |w|), Greedy(w, m, i);
    GreedyPrefix(w, m, i, |w|);
    GreedyPrefix(w, m, i + 1, |w|);
    var loads := Loads(w, b, m, i);
    var k := Lightest(loads);
    assert Greedy(w, m, i + 1) == b + [k];
    assert a[i] == k;
    LoadPrefix(w, b, a, k, i);
    LoadPrefix(w, b, a, j, i);
    assert loads[k] == Load(w, b, k, i) && loads[j] == Load(w, b, j, i);
  }

  // ----- sums over shards ----------------------------------------------------

  /** The loads of shards `0 .. m`, added up. */
  function SumLoads(w: seq<real>, a: seq<nat>, m: nat, n: nat): real
    requires n <= |w| && n <= |a|
  {
    if m == 0 then 0.0 else SumLoads(w, a, m - 1, n) + Load(w, a, m - 1, n)
  }

  lemma {:induction false} SumLoadsStep(w: seq<real>, a: seq<nat>, m: nat, n: nat)
    requires 0 < n <= |w| && n <= |a|
    ensures SumLoads(w, a, m, n) == SumLoads(w, a, m, n - 1) + if a[n - 1] < m then w[n - 1] else 0.0
  {
    if m > 0 {
      SumLoadsStep(w, a, m - 1, n);
    }
  }

  lemma {:induction false} SumLoadsZero(w: seq<real>, a: seq<nat>, m: nat)
    ensures SumLoads(w, a, m, 0) == 0.0
  {
    if m > 0 {
      SumLoadsZero(w, a, m - 1);
    }
  }

  /** Nothing is lost and nothing counted twice: the loads add up to the weights. */
  lemma {:induction false} LoadsAddUp(w: seq<real>, a: seq<nat>, m: nat, n: nat)
    requires n <= |w| && n <= |a|
    requires forall i :: 0 <= i < n ==> a[i] < m
    ensures SumLoads(w, a, m, n) == Total(w, n)
  {
    if n == 0 {
      SumLoadsZero(w, a, m);
    } else {
      LoadsAddUp(w, a, m, n - 1);
      SumLoadsStep(w, a, m, n);
    }
  }

  lemma {:induction false} SumAtLeast(w: seq<real>, a: seq<nat>, m: nat, n: nat, low: real)
    requires n <= |w| && n <= |a|
    requires forall j: nat :: j < m ==> low <= Load(w, a, j, n)
    ensures m as real * low <= SumLoads(w, a, m, n)
  {
    if m > 0 {
      SumAtLeast(w, a, m - 1, n, low);
      assert m as real * low == (m - 1) as real * low + low;
    }
  }

  lemma {:induction false} SumAtMost(w: seq<real>, a: seq<nat>, m: nat, n: nat, high: real)
    requires n <= |w| && n <= |a|
    requires forall j: nat :: j < m ==> Load(w, a, j, n) <= high
    ensures SumLoads(w, a, m, n) <= m as real * high
  {
    if m > 0 {
      SumAtMost(w, a, m - 1, n, high);
      assert m as real * high == (m - 1) as real * high + high;
    }
  }

  lemma {:induction false} TotalMonotone(w: seq<real>, i: nat, n: nat)
    requires i <= n <= |w| && NonNegative(w)
    ensures Total(w, i) <= Total(w, n)
  {
    if i < n {
      TotalMonotone(w, i, n - 1);
    }
  }

  lemma {:induction false} LoadMonotone(w: seq<real>, a: seq<nat>, j: nat, i: nat, n: nat)
    requires i <= n <= |w| && n <= |a| && NonNegative(w)
    ensures 0.0 <= Load(w, a, j, i) <= Load(w, a, j, n)
  {
    if i < n {
      LoadMonotone(w, a, j, i, n - 1);
    } else if n > 0 {
      LoadMonotone(w, a, j, n - 1, n - 1);
    }
  }

  // ----- the job that finishes last --------------------------------------------

  /** The last job on a loaded shard: it brought the shard to its final load. */
  lemma {:induction false} LastJob(w: seq<real>, a: seq<nat>, j: nat, n: nat) returns (k: nat)
    requires n <= |w| && n <= |a|
    requires Load(w, a, j, n) != 0.0
    ensures k < n && a[k] == j
    ensures Load(w, a, j, n) == Load(w, a, j, k) + w[k]
  {
    if a[n - 1] == j {
      k := n - 1;
    } else {
      k := LastJob(w, a, j, n - 1);
    }
  }

  /** Every job went onto a shard no heavier than any other at that moment, the
      lowest-numbered one on a tie. */
  ghost predicate OnLightest(w: seq<real>, a: seq<nat>, m: nat) {
    IsAssignment(a, |w|, m) && forall i: nat :: i < |w| ==> JoinsLightest(w, a, m, i)
  }

  ghost predicate JoinsLightest(w: seq<real>, a: seq<nat>, m: nat, i: nat)
    requires i < |w| && i < |a|
  {
    forall j: nat :: j < m ==>
      Load(w, a, a[i], i) <= Load(w, a, j, i) && (j < a[i] ==> Load(w, a, a[i], i) < Load(w, a, j, i))
  }

  lemma {:induction false} GreedyIsOnLightest(w: seq<real>, m: nat)
    requires m >= 1
    ensures OnLightest(w, Greedy(w, m, |w|), m)
  {
    var a := Greedy(w, m, |w|);
    forall i: nat | i < |w|
      ensures JoinsLightest(w, a, m, i)
    {
      forall j: nat | j < m
        ensures Load(w, a, a[i], i) <= Load(w, a, j, i) && (j < a[i] ==> Load(w, a, a[i], i) < Load(w, a, j, i))
      {
        GreedyChoosesLightest(w, m, i, j);
      }
    }
  }

  /** When job `k` is placed, the shard it joins carries at most an even share of
      the jobs before it. */
  lemma {:induction false} StartIsBelowAverage(w: seq<real>, a: seq<nat>, m: nat, k: nat)
    requires OnLightest(w, a, m) && k < |w|
    ensures m as real * Load(w, a, a[k], k) <= Total(w, k)
  {
    assert JoinsLightest(w, a, m, k);
    SumAtLeast(w, a, m, k, Load(w, a, a[k], k));
    LoadsAddUp(w, a, m, k);
  }

  lemma {:induction false} StartWithinTotal(w: seq<real>, a: seq<nat>, m: nat, k: nat)
    requires OnLightest(w, a, m) && NonNegative(w) && k < |w|
    ensures m as real * Load(w, a, a[k], k) + w[k] <= Total(w, |w|)
  {
    StartIsBelowAverage(w, a, m, k);
    TotalMonotone(w, k + 1, |w|);
  }

  /** `load` is at most total/m + (1 - 1/m) times the largest weight, cleared of fractions. */
  ghost predicate WithinEvenShare(m: real, load: real, total: real, largest: real) {
    m * load <= total + (m - 1.0) * largest
  }

  /** Graham's list-scheduling bound: no shard is heavier than the average plus
      (1 - 1/m) of the largest weight, in whatever order the jobs come. */
  lemma {:induction false} GreedyWithinLargest(w: seq<real>, a: seq<nat>, m: nat, j: nat, largest: real)
    requires m >= 1 && OnLightest(w, a, m) && NonNegative(w)
    requires 0.0 <= largest && forall i :: 0 <= i < |w| ==> w[i] <= largest
    ensures WithinEvenShare(m as real, Load(w, a, j, |w|), Total(w, |w|), largest)
  {
    var n := |w|;
    TotalMonotone(w, 0, n);
    if Load(w, a, j, n) == 0.0 {
      Spread(m as real, 0.0, 0.0, largest, Total(w, n));
    } else {
      var k := LastJob(w, a, j, n);
      StartWithinTotal(w, a, m, k);
      Spread(m as real, Load(w, a, j, k), w[k], largest, Total(w, n));
    }
  }

  lemma {:induction false} Spread(m: real, start: real, last: real, largest: real, total: real)
    requires m >= 1.0 && m * start + last <= total && last <= largest
    ensures WithinEvenShare(m, start + last, total, largest)
  {
    assert m * (start + last) == m * start + last + (m - 1.0) * last;
    assert (m - 1.0) * last <= (m - 1.0) * largest;
  }

  // ----- the 4/3 bound -------------------------------------------------------

  /** Two points for a job too big to share a shard of capacity `opt` with any
      job as large as `small`, one point for any other. */
  function Points(w: seq<real>, opt: real, small: real): (p: seq<real>)
    ensures |p| == |w|
  {
    seq(|w|, i requires 0 <= i < |w| => if w[i] > opt - small then 2.0 else 1.0)
  }

  /** Where job `k` overflows every shard, each shard already holds two points. */
  lemma {:induction false} CrowdedHasTwoPoints(w: seq<real>, a: seq<nat>, j: nat, n: nat, opt: real, small: real)
    requires n <= |w| && n <= |a|
    requires small <= opt
    requires Load(w, a, j, n) > opt - small
    ensures Load(Points(w, opt, small), a, j, n) >= 2.0
  {
    var i := OnShard(w, a, j, n, opt, small);
    var p := Points(w, opt, small);
    if w[i] > opt - small {
      PointsAtLeast(w, a, j, i + 1, n, opt, small);
      NonNegativePoints(w, opt, small);
      LoadMonotone(p, a, j, i, i);
    } else {
      // i is the last job on the shard and does not fill it alone, so another precedes it
      assert Load(w, a, j, i) != 0.0;
      var h := LastJob(w, a, j, i);
      NonNegativePoints(w, opt, small);
      LoadMonotone(p, a, j, h, h);
      PointsAtLeast(w, a, j, h + 1, i, opt, small);
      PointsAtLeast(w, a, j, i + 1, n, opt, small);
    }
  }

  /** The last job on shard `j`. */
  lemma {:induction false} OnShard(w: seq<real>, a: seq<nat>, j: nat, n: nat, opt: real, small: real) returns (i: nat)
    requires n <= |w| && n <= |a| && small <= opt
    requires Load(w, a, j, n) > opt - small
    ensures i < n && a[i] == j && Load(w, a, j, n) == Load(w, a, j, i) + w[i]
  {
    i := LastJob(w, a, j, n);
  }

  lemma {:induction false} NonNegativePoints(w: seq<real>, opt: real, small: real)
    ensures NonNegative(Points(w, opt, small))
  {
  }

  lemma {:induction false} PointsAtLeast(w: seq<real>, a: seq<nat>, j: nat, i: nat, n: nat, opt: real, small: real)
    requires i <= n <= |w| && n <= |a|
    ensures Load(Points(w, opt, small), a, j, i) <= Load(Points(w, opt, small), a, j, n)
  {
    LoadMonotone(Points(w, opt, small), a, j, i, n);
  }

  /** What the points on a shard within `opt` can be, and what they weigh. */
  ghost predicate Fits(points: real, load: real, opt: real, small: real) {
    || (points == 0.0 && load == 0.0)
    || (points == 1.0 && small <= load <= opt - small)
    || (points == 2.0 && (2.0 * small <= load || opt - small < load))
  }

  /** In an assignment that keeps every shard within `opt`, jobs all larger than
      opt/3 give no shard more than two points. */
  lemma {:induction false} FeasibleHasTwoPoints(w: seq<real>, b: seq<nat>, j: nat, n: nat, opt: real, small: real)
    requires n <= |w| && n <= |b|
    requires 3.0 * small > opt >= 0.0
    requires forall i :: 0 <= i < n ==> w[i] >= small
    requires Load(w, b, j, n) <= opt
    ensures Fits(Load(Points(w, opt, small), b, j, n), Load(w, b, j, n), opt, small)
  {
    if n > 0 {
      FeasibleHasTwoPoints(w, b, j, n - 1, opt, small);
    }
  }

  lemma {:induction false} PointsBefore(w: seq<real>, a: seq<nat>, m: nat, opt: real, k: nat)
    requires OnLightest(w, a, m) && k < |w| && w[k] <= opt
    requires Load(w, a, a[k], k) + w[k] > opt
    ensures 2.0 * m as real <= Total(Points(w, opt, w[k]), k)
  {
    var p := Points(w, opt, w[k]);
    assert JoinsLightest(w, a, m, k);
    forall j: nat {:trigger Load(p, a, j, k)} | j < m
      ensures 2.0 <= Load(p, a, j, k)
    {
      CrowdedHasTwoPoints(w, a, j, k, opt, w[k]);
    }
    SumAtLeast(p, a, m, k, 2.0);
    LoadsAddUp(p, a, m, k);
  }

  lemma {:induction false} PointsFitted(w: seq<real>, b: seq<nat>, m: nat, opt: real, k: nat)
    requires Descending(w) && NonNegative(w) && k < |w| && IsAssignment(b, |w|, m)
    requires forall j: nat :: j < m ==> Load(w, b, j, |w|) <= opt
    requires 3.0 * w[k] > opt >= 0.0
    ensures Total(Points(w, opt, w[k]), k + 1) <= 2.0 * m as real
  {
    var p := Points(w, opt, w[k]);
    forall j: nat {:trigger Load(p, b, j, k + 1)} | j < m
      ensures Load(p, b, j, k + 1) <= 2.0
    {
      LoadMonotone(w, b, j, k + 1, |w|);
      FeasibleHasTwoPoints(w, b, j, k + 1, opt, w[k]);
    }
    SumAtMost(p, b, m, k + 1, 2.0);
    LoadsAddUp(p, b, m, k + 1);
  }

  /** A job larger than opt/3 never takes longest-first past `opt`: the points of
      the jobs up to it would not fit the other assignment's shards. */
  lemma {:induction false} BigLastJobIsOptimal(w: seq<real>, a: seq<nat>, m: nat, b: seq<nat>, opt: real, k: nat)
    requires OnLightest(w, a, m) && Descending(w) && NonNegative(w) && k < |w|
    requires IsAssignment(b, |w|, m)
    requires forall j: nat :: j < m ==> Load(w, b, j, |w|) <= opt
    requires 3.0 * w[k] > opt >= 0.0
    ensures Load(w, a, a[k], k) + w[k] <= opt
  {
    if Load(w, a, a[k], k) + w[k] > opt {
      JobFits(w, b, m, k, opt);
      PointsBefore(w, a, m, opt, k);
      PointsFitted(w, b, m, opt, k);
      assert false;
    }
  }

  /** Any assignment within `opt` bounds each single job by `opt`. */
  lemma {:induction false} JobFits(w: seq<real>, b: seq<nat>, m: nat, k: nat, opt: real)
    requires NonNegative(w) && k < |w| && IsAssignment(b, |w|, m)
    requires forall j: nat :: j < m ==> Load(w, b, j, |w|) <= opt
    ensures w[k] <= opt
  {
    LoadMonotone(w, b, b[k], k, k);
    LoadMonotone(w, b, b[k], k + 1, |w|);
  }

  /** `load` is at most (4/3 - 1/(3m)) times `opt`, cleared of fractions. */
  ghost predicate WithinFourThirds(m: real, load: real, opt: real) {
    3.0 * m * load <= (4.0 * m - 1.0) * opt
  }

  lemma {:induction false} SmallLastJob(w: seq<real>, a: seq<nat>, m: nat, b: seq<nat>, opt: real, k: nat)
    requires m >= 1 && OnLightest(w, a, m) && NonNegative(w) && k < |w|
    requires IsAssignment(b, |w|, m)
    requires forall i: nat :: i < m ==> Load(w, b, i, |w|) <= opt
    requires 3.0 * w[k] <= opt
    ensures WithinFourThirds(m as real, Load(w, a, a[k], k) + w[k], opt)
  {
    StartWithinTotal(w, a, m, k);
    SumAtMost(w, b, m, |w|, opt);
    LoadsAddUp(w, b, m, |w|);
    FourThirdsWhenSmall(m as real, Load(w, a, a[k], k), w[k], opt);
  }

  lemma {:induction false} OptIsNonNegative(w: seq<real>, b: seq<nat>, m: nat, opt: real)
    requires m >= 1 && NonNegative(w) && |b| == |w|
    requires forall i: nat :: i < m ==> Load(w, b, i, |w|) <= opt
    ensures 0.0 <= opt
  {
    LoadMonotone(w, b, 0, 0, |w|);
    assert Load(w, b, 0, |w|) <= opt;
  }

  /** Graham's bound on longest-first placement: the heaviest shard is at most
      (4/3 - 1/(3m)) times the heaviest shard of every assignment `b`. */
  lemma {:induction false} LongestFirstWithinFourThirds(w: seq<real>, a: seq<nat>, m: nat, b: seq<nat>, opt: real, j: nat)
    requires m >= 1 && OnLightest(w, a, m) && Descending(w) && NonNegative(w)
    requires IsAssignment(b, |w|, m)
    requires forall i: nat :: i < m ==> Load(w, b, i, |w|) <= opt
    ensures WithinFourThirds(m as real, Load(w, a, j, |w|), opt)
  {
    OptIsNonNegative(w, b, m, opt);
    if Load(w, a, j, |w|) <= opt {
      FourThirdsWhenOptimal(m as real, Load(w, a, j, |w|), opt);
    } else {
      var k := LastJob(w, a, j, |w|);
      if 3.0 * w[k] > opt {
        BigLastJobIsOptimal(w, a, m, b, opt, k);
      } else {
        SmallLastJob(w, a, m, b, opt, k);
      }
    }
  }

  lemma {:induction false} FourThirdsWhenOptimal(m: real, load: real, opt: real)
    requires m >= 1.0 && opt >= 0.0 && load <= opt
    ensures WithinFourThirds(m, load, opt)
  {
    assert 3.0 * m * load <= 3.0 * m * opt;
    assert (4.0 * m - 1.0) * opt - 3.0 * m * opt == (m - 1.0) * opt;
    assert (m - 1.0) * opt >= 0.0;
  }

  lemma {:induction false} FourThirdsWhenSmall(m: real, start: real, last: real, opt: real)
    requires m >= 1.0 && 3.0 * last <= opt
    requires m * start + last <= m * opt
    ensures WithinFourThirds(m, start + last, opt)
  {
    assert 3.0 * m * (start + last) == 3.0 * (m * start + last) + (m - 1.0) * (3.0 * last);
    assert (m - 1.0) * (3.0 * last) <= (m - 1.0) * opt;
    assert 3.0 * (m * opt) + (m - 1.0) * opt == (4.0 * m - 1.0) * opt;
  }

  // ----- which shards get nothing ------------------------------------------------

  /** The first `p` weights are positive, the rest zero. */
  ghost predicate PositiveCount(w: seq<real>, p: nat) {
    && p <= |w|
    && (forall i :: 0 <= i < p ==> w[i] > 0.0)
    && (forall i :: p <= i < |w| ==> w[i] == 0.0)
  }

  ghost predicate Used(a: seq<nat>, j: nat) {
    exists i :: 0 <= i < |a| && a[i] == j
  }

  lemma {:induction false} PositiveJobsSpread(w: seq<real>, a: seq<nat>, m: nat, p: nat, i: nat)
    requires OnLightest(w, a, m) && PositiveCount(w, p) && i <= p && i <= m
    ensures forall h :: 0 <= h < i ==> a[h] == h
    ensures forall j: nat :: Load(w, a, j, i) == if j < i then w[j] else 0.0
  {
    if i > 0 {
      PositiveJobsSpread(w, a, m, p, i - 1);
      assert JoinsLightest(w, a, m, i - 1);
      assert Load(w, a, i - 1, i - 1) == 0.0;
    }
  }

  lemma {:induction false} ZeroJobsStay(w: seq<real>, a: seq<nat>, m: nat, p: nat, i: nat)
    requires OnLightest(w, a, m) && PositiveCount(w, p) && p < m && p <= i <= |w|
    ensures forall h :: 0 <= h < i ==> a[h] == if h < p then h else p
    ensures forall j: nat :: Load(w, a, j, i) == if j < p then w[j] else 0.0
  {
    if i == p {
      PositiveJobsSpread(w, a, m, p, p);
    } else {
      ZeroJobsStay(w, a, m, p, i - 1);
      assert JoinsLightest(w, a, m, i - 1);
      assert Load(w, a, p, i - 1) == 0.0;
    }
  }

  /** Longest-first leaves no shard empty exactly when there is a positive unit for
      each shard, or for each but one and a zero unit for that one. */
  lemma {:induction false} NoShardEmptyExactly(w: seq<real>, a: seq<nat>, m: nat, p: nat)
    requires OnLightest(w, a, m) && PositiveCount(w, p)
    ensures (forall j: nat :: j < m ==> Used(a, j)) <==> m <= p || (m == p + 1 && p < |w|)
  {
    if m <= p {
      PositiveJobsSpread(w, a, m, p, m);
      forall j: nat | j < m
        ensures Used(a, j)
      {
        assert a[j] == j;
      }
    } else {
      ZeroJobsStay(w, a, m, p, |w|);
      if m == p + 1 && p < |w| {
        forall j: nat | j < m
          ensures Used(a, j)
        {
          assert a[j] == j;
        }
      } else {
        assert !Used(a, m - 1);
      }
    }
  }
}
