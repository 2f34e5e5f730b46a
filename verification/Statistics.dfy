/** Nearest-rank percentiles (scripts/benchstat.py) and the histograms that stand in for
    samples (scripts/live_report.py). Samples are reals: rounding is not modelled. */
module Statistics {
  import opened Common
  import opened Ordering

  predicate Le(a: real, b: real) {
    a <= b
  }

  function Sort(values: seq<real>): (r: seq<real>)
    ensures |r| == |values|
  {
    SortBy(Le, values)
  }

  // ----- counting -----------------------------------------------------------------------

  /** How many samples are at most b, and how many are below it. */
  function AtMost(s: seq<real>, b: real): (n: nat)
    ensures n <= |s|
  {
    if s == [] then 0 else (if s[0] <= b then 1 else 0) + AtMost(s[1..], b)
  }

  function Below(s: seq<real>, b: real): (n: nat)
    ensures n <= |s|
  {
    if s == [] then 0 else (if s[0] < b then 1 else 0) + Below(s[1..], b)
  }

  lemma {:induction false} InsertCounts(x: real, s: seq<real>, b: real)
    ensures AtMost(Insert(Le, x, s), b) == AtMost(s, b) + (if x <= b then 1 else 0)
    ensures Below(Insert(Le, x, s), b) == Below(s, b) + (if x < b then 1 else 0)
  {
    if s == [] || Le(x, s[0]) {
      assert ([x] + s)[1..] == s;
      assert s == [] ==> [x] + s == [x];
    } else {
      InsertCounts(x, s[1..], b);
      assert ([s[0]] + Insert(Le, x, s[1..]))[1..] == Insert(Le, x, s[1..]);
    }
  }

  lemma {:induction false} SortCounts(s: seq<real>, b: real)
    ensures AtMost(Sort(s), b) == AtMost(s, b) && Below(Sort(s), b) == Below(s, b)
  {
    if s != [] {
      SortCounts(s[1..], b);
      InsertCounts(s[0], Sort(s[1..]), b);
    }
  }

  /** In sorted samples the ones at most b, or below b, come first. */
  lemma {:induction false} SortedCounts(t: seq<real>, b: real, k: nat)
    requires Sorted(Le, t) && k < |t|
    ensures t[k] <= b <==> k < AtMost(t, b)
    ensures t[k] < b <==> k < Below(t, b)
    decreases |t|
  {
    var rest := t[1..];
    assert forall j :: 0 <= j < |rest| ==> rest[j] == t[j + 1];
    assert forall j :: 0 < j < |t| ==> Le(t[0], t[j]);
    if rest != [] {
      assert Sorted(Le, rest);
      SortedCounts(rest, b, 0);
      SortedCounts(rest, b, if k > 0 then k - 1 else 0);
    }
  }

  lemma {:induction false} SortIsSorted(s: seq<real>)
    ensures Sorted(Le, Sort(s))
  {
    SortBySorted(Le, s);
  }

  // ----- percentiles --------------------------------------------------------------------

  /** ceil(q/100 * n), clamped to [1, n]. */
  function Rank(q: int, n: nat): int {
    var rank := -((-q * n) / 100);
    if rank < 1 then 1 else if rank > n then n else rank
  }

  /** `percentile` of an already sorted sequence; None is ValueError. */
  function Percentile(values: seq<real>, q: int): (r: Option<real>)
    ensures r.Some? <==> values != [] && 0 < q <= 100
    ensures r.Some? ==> r.value in values
  {
    if values == [] || !(0 < q <= 100) then None
    else Some(values[Rank(q, |values|) - 1])
  }

  lemma {:induction false} RankBounds(q: int, n: nat)
    requires n > 0 && 0 < q <= 100
    ensures 1 <= Rank(q, n) <= n
    ensures 100 * (Rank(q, n) - 1) < q * n <= 100 * Rank(q, n)
  {
    assert 0 < q * n <= 100 * n;
    assert -q * n == -(q * n);
  }

  /** The percentile is at most b exactly when q % of the samples are. */
  lemma {:induction false} PercentileWithin(samples: seq<real>, q: int, b: real)
    requires samples != [] && 0 < q <= 100
    ensures Percentile(Sort(samples), q).value <= b <==> 100 * AtMost(samples, b) >= q * |samples|
    ensures Percentile(Sort(samples), q).value < b <==> 100 * Below(samples, b) >= q * |samples|
  {
    var t, n := Sort(samples), |samples|;
    RankBounds(q, n);
    SortIsSorted(samples);
    SortCounts(samples, b);
    SortedCounts(t, b, Rank(q, n) - 1);
  }

  /** Nearest rank: v is the percentile exactly when it is a sample, at least q % of the
      samples are at most v, and fewer than q % are below it. */
  lemma {:induction false} NearestRank(samples: seq<real>, q: int, v: real)
    requires samples != [] && 0 < q <= 100
    ensures Percentile(Sort(samples), q) == Some(v)
       <==> v in samples && 100 * AtMost(samples, v) >= q * |samples| && 100 * Below(samples, v) < q * |samples|
  {
    PercentileWithin(samples, q, v);
    SameMembers(Sort(samples), samples, Percentile(Sort(samples), q).value);
  }

  // ----- slower samples -----------------------------------------------------------------

  ghost predicate Slower(fast: seq<real>, slow: seq<real>) {
    |fast| == |slow| && forall i :: 0 <= i < |fast| ==> fast[i] <= slow[i]
  }

  lemma {:induction false} SlowerCounts(fast: seq<real>, slow: seq<real>, b: real)
    requires Slower(fast, slow)
    ensures AtMost(slow, b) <= AtMost(fast, b)
  {
    if fast != [] {
      assert Slower(fast[1..], slow[1..]);
      SlowerCounts(fast[1..], slow[1..], b);
    }
  }

  /** Making samples slower, one by one, lowers no percentile. */
  lemma {:induction false} PercentileMonotone(fast: seq<real>, slow: seq<real>, q: int)
    requires Slower(fast, slow) && fast != [] && 0 < q <= 100
    ensures Percentile(Sort(fast), q).value <= Percentile(Sort(slow), q).value
  {
    var p := Percentile(Sort(slow), q).value;
    PercentileWithin(slow, q, p);
    SlowerCounts(fast, slow, p);
    PercentileWithin(fast, q, p);
  }

  /** Nor the smallest and the largest sample. */
  lemma {:induction false} EndsMonotone(fast: seq<real>, slow: seq<real>)
    requires Slower(fast, slow) && fast != []
    ensures Sort(fast)[0] <= Sort(slow)[0] && Sort(fast)[|fast| - 1] <= Sort(slow)[|slow| - 1]
  {
    NthMonotone(fast, slow, 0);
    NthMonotone(fast, slow, |fast| - 1);
  }

  lemma {:induction false} NthMonotone(fast: seq<real>, slow: seq<real>, k: nat)
    requires Slower(fast, slow) && k < |fast|
    ensures Sort(fast)[k] <= Sort(slow)[k]
  {
    var v := Sort(slow)[k];
    SortIsSorted(fast);
    SortIsSorted(slow);
    SortCounts(fast, v);
    SortCounts(slow, v);
    SortedCounts(Sort(slow), v, k);
    SortedCounts(Sort(fast), v, k);
    SlowerCounts(fast, slow, v);
  }

  // ----- histograms ---------------------------------------------------------------------

  predicate Increasing(bounds: seq<real>) {
    forall i, j :: 0 <= i < j < |bounds| ==> bounds[i] < bounds[j]
  }

  /** The bucket of a sample: the first bound it is at most, the last bucket past them all. */
  function BucketOf(bounds: seq<real>, x: real): (i: nat)
    ensures i <= |bounds|
    ensures i < |bounds| ==> x <= bounds[i]
    ensures forall j :: 0 <= j < i ==> bounds[j] < x
  {
    if bounds == [] then 0
    else if x <= bounds[0] then 0
    else
      assert forall j :: 0 <= j < |bounds[1..]| ==> bounds[1..][j] == bounds[j + 1];
      1 + BucketOf(bounds[1..], x)
  }

  /** The bucket counts of a list of samples. */
  function HistOf(bounds: seq<real>, samples: seq<real>): (h: seq<nat>)
    ensures |h| == |bounds| + 1
  {
    if samples == [] then Zeros(|bounds| + 1)
    else
      var h, i := HistOf(bounds, samples[1..]), BucketOf(bounds, samples[0]);
      h[i := h[i] + 1]
  }

  function SumTo(h: seq<nat>, n: nat): nat
    requires n <= |h|
  {
    if n == 0 then 0 else SumTo(h, n - 1) + h[n - 1]
  }

  lemma {:induction false} SumAfterBump(h: seq<nat>, i: nat, n: nat)
    requires i < |h| && n <= |h|
    ensures SumTo(h[i := h[i] + 1], n) == SumTo(h, n) + (if i < n then 1 else 0)
  {
    if n > 0 {
      SumAfterBump(h, i, n - 1);
    }
  }

  lemma {:induction false} SumOfZeros(n: nat, m: nat)
    requires n <= m
    ensures SumTo(Zeros(m), n) == 0
  {
    if n > 0 {
      SumOfZeros(n - 1, m);
    }
  }

  /** The counts up to bound i are the samples at most that bound; all of them, the samples. */
  lemma {:induction false} CountsAgree(bounds: seq<real>, samples: seq<real>, n: nat)
    requires Increasing(bounds) && n <= |bounds| + 1
    ensures SumTo(HistOf(bounds, samples), n)
         == if n == 0 then 0 else if n <= |bounds| then AtMost(samples, bounds[n - 1]) else |samples|
  {
    if samples == [] {
      SumOfZeros(n, |bounds| + 1);
    } else {
      CountsAgree(bounds, samples[1..], n);
      var i := BucketOf(bounds, samples[0]);
      SumAfterBump(HistOf(bounds, samples[1..]), i, n);
      if 0 < n <= |bounds| {
        assert i < n <==> samples[0] <= bounds[n - 1];
      }
    }
  }

  /** Bucket i is the first with which 95 % of the counts are reached. */
  predicate ReachesRank(h: seq<nat>, i: nat)
    requires i < |h|
  {
    100 * SumTo(h, i) < 95 * SumTo(h, |h|) <= 100 * SumTo(h, i + 1)
  }

  /** `<=bound` or `>bound`; the last is the exception of `bounds[-1]` on no bounds. */
  datatype Report = NoSample | UpTo(bound: real) | Past(bound: real) | IndexError

  function Named(bounds: seq<real>, i: nat): Report
    requires bounds != []
  {
    if i < |bounds| then UpTo(bounds[i]) else Past(bounds[|bounds| - 1])
  }

  /** `hist_p95_bound`: it names the first bucket that reaches the rank, and raises exactly when
      there are samples and no bounds, as there are after a viewer's line of one bucket. */
  method P95Bucket(bounds: seq<real>, hist: seq<nat>) returns (r: Report)
    ensures r.NoSample? <==> SumTo(hist, |hist|) == 0
    ensures r.IndexError? <==> SumTo(hist, |hist|) > 0 && bounds == []
    ensures SumTo(hist, |hist|) > 0 && bounds != [] ==>
              exists i :: 0 <= i < |hist| && ReachesRank(hist, i) && r == Named(bounds, i)
  {
    var n := SumTo(hist, |hist|);
    if n == 0 {
      return NoSample;
    }
    var total: int := n;
    var rank, seen, i := -((-95 * total) / 100), 0, 0;
    while i < |hist|
      invariant 0 <= i <= |hist| && seen == SumTo(hist, i) && seen < rank
    {
      seen := seen + hist[i];
      if seen >= rank {
        assert ReachesRank(hist, i);
        return if bounds == [] then IndexError else Named(bounds, i);
      }
      i := i + 1;
    }
    assert false;
  }

  lemma {:induction false} RankIsPast(bounds: seq<real>, samples: seq<real>, i: nat)
    requires Increasing(bounds) && samples != [] && i <= |bounds|
    ensures 100 * SumTo(HistOf(bounds, samples), i) < 95 * |samples|
       <==> (i > 0 ==> bounds[i - 1] < Percentile(Sort(samples), 95).value)
  {
    CountsAgree(bounds, samples, i);
    if i > 0 {
      PercentileWithin(samples, 95, bounds[i - 1]);
    }
  }

  lemma {:induction false} RankIsReached(bounds: seq<real>, samples: seq<real>, i: nat)
    requires Increasing(bounds) && samples != [] && i <= |bounds|
    ensures 95 * |samples| <= 100 * SumTo(HistOf(bounds, samples), i + 1)
       <==> (i < |bounds| ==> Percentile(Sort(samples), 95).value <= bounds[i])
  {
    CountsAgree(bounds, samples, i + 1);
    if i < |bounds| {
      PercentileWithin(samples, 95, bounds[i]);
    }
  }

  /** For every list of samples with these counts, the exact nearest-rank p95 lies in the
      bucket the report names. */
  lemma {:induction false} P95InBucket(bounds: seq<real>, samples: seq<real>, i: nat)
    requires Increasing(bounds) && bounds != [] && samples != [] && i <= |bounds|
    ensures ReachesRank(HistOf(bounds, samples), i) <==> BucketOf(bounds, Percentile(Sort(samples), 95).value) == i
  {
    CountsAgree(bounds, samples, |bounds| + 1);
    RankIsPast(bounds, samples, i);
    RankIsReached(bounds, samples, i);
    BucketIs(bounds, Percentile(Sort(samples), 95).value, i);
  }

  lemma {:induction false} BucketIs(bounds: seq<real>, x: real, i: nat)
    requires Increasing(bounds) && i <= |bounds|
    ensures BucketOf(bounds, x) == i <==> (i > 0 ==> bounds[i - 1] < x) && (i < |bounds| ==> x <= bounds[i])
  {
    var b := BucketOf(bounds, x);
    if b < i {
      assert b < i - 1 ==> bounds[b] < bounds[i - 1];
    }
  }

  // ----- the input-latency target -------------------------------------------------------

  const TARGET: real := 200.0

  function IndexOf(bounds: seq<real>, x: real): (i: nat)
    requires x in bounds
    ensures i < |bounds| && bounds[i] == x
  {
    if bounds[0] == x then 0 else 1 + IndexOf(bounds[1..], x)
  }

  /** The target's verdict in `build`; None is NO DATA. */
  function TargetMet(bounds: seq<real>, hist: seq<nat>): Option<bool>
    requires |hist| == |bounds| + 1 || (bounds == [] && hist == [])
  {
    var samples := SumTo(hist, |hist|);
    if samples == 0 then None
    else
      var within := if TARGET in bounds then SumTo(hist, IndexOf(bounds, TARGET) + 1) else 0;
      Some(within * 100 >= 95 * samples)
  }

  /** When 200 is a bound, the target passes exactly when the exact p95 is at most 200. */
  lemma {:induction false} TargetIsExact(bounds: seq<real>, samples: seq<real>)
    requires Increasing(bounds) && 200.0 in bounds && samples != []
    ensures TargetMet(bounds, HistOf(bounds, samples)) == Some(Percentile(Sort(samples), 95).value <= 200.0)
  {
    CountsAgree(bounds, samples, IndexOf(bounds, TARGET) + 1);
    CountsAgree(bounds, samples, |bounds| + 1);
    PercentileWithin(samples, 95, TARGET);
  }

  /** When it is not, the target fails whatever the samples. */
  lemma {:induction false} TargetNeedsItsBound(bounds: seq<real>, samples: seq<real>)
    requires Increasing(bounds) && 200.0 !in bounds && samples != []
    ensures TargetMet(bounds, HistOf(bounds, samples)) == Some(false)
  {
    CountsAgree(bounds, samples, |bounds| + 1);
  }

  /** There is no verdict exactly when there is no sample. */
  lemma {:induction false} TargetWithoutSamples(bounds: seq<real>, samples: seq<real>)
    requires Increasing(bounds)
    ensures TargetMet(bounds, HistOf(bounds, samples)).None? <==> samples == []
  {
    CountsAgree(bounds, samples, |bounds| + 1);
  }

  // ----- pooling ------------------------------------------------------------------------

  /** A viewer's line, with the samples its counts came from. */
  datatype Line = Line(bounds: seq<real>, hist: seq<nat>)

  predicate Usable(l: Line) {
    |l.hist| == |l.bounds| + 1
  }

  function Add(a: seq<nat>, b: seq<nat>): (r: seq<nat>)
    requires |a| == |b|
    ensures |r| == |a|
  {
    seq(|a|, i requires 0 <= i < |a| => a[i] + b[i])
  }

  /** One line of `pooled_hist`'s loop; while no bounds are known the totals start over. */
  function PoolOne(bounds: seq<real>, total: seq<nat>, l: Line): (r: (seq<real>, seq<nat>))
    requires |total| == |bounds| + 1 || (bounds == [] && total == [])
    ensures |r.1| == |r.0| + 1 || (r.0 == [] && r.1 == [])
  {
    if !Usable(l) then (bounds, total)
    else
      var (b, t) := if bounds == [] then (l.bounds, Zeros(|l.hist|)) else (bounds, total);
      if l.bounds != b then (b, t) else (b, Add(t, l.hist))
  }

  function Pooled(lines: seq<Line>, n: nat): (r: (seq<real>, seq<nat>))
    requires n <= |lines|
    ensures |r.1| == |r.0| + 1 || (r.0 == [] && r.1 == [])
  {
    if n == 0 then ([], []) else PoolOne(Pooled(lines, n - 1).0, Pooled(lines, n - 1).1, lines[n - 1])
  }

  /** `pooled_hist`. */
  method PooledHist(lines: seq<Line>) returns (bounds: seq<real>, total: seq<nat>)
    ensures (bounds, total) == Pooled(lines, |lines|)
  {
    bounds, total := [], [];
    var i := 0;
    while i < |lines|
      invariant 0 <= i <= |lines| && (bounds, total) == Pooled(lines, i)
    {
      var l := lines[i];
      if Usable(l) {
        if bounds == [] {
          bounds, total := l.bounds, Zeros(|l.hist|);
        }
        if l.bounds == bounds {
          total := Add(total, l.hist);
        }
      }
      i := i + 1;
    }
  }

  lemma {:induction false} AddBump(h: seq<nat>, i: nat, g: seq<nat>)
    requires i < |h| == |g|
    ensures Add(h[i := h[i] + 1], g) == Add(h, g)[i := Add(h, g)[i] + 1]
  {
  }

  lemma {:induction false} AddHists(bounds: seq<real>, a: seq<real>, b: seq<real>)
    ensures Add(HistOf(bounds, a), HistOf(bounds, b)) == HistOf(bounds, a + b)
  {
    if a == [] {
      assert a + b == b;
      assert Add(Zeros(|bounds| + 1), HistOf(bounds, b)) == HistOf(bounds, b);
    } else {
      AddHists(bounds, a[1..], b);
      assert (a + b)[1..] == a[1..] + b;
      AddBump(HistOf(bounds, a[1..]), BucketOf(bounds, a[0]), HistOf(bounds, b));
    }
  }

  /** Each line counts the samples given for it. */
  ghost predicate CountSamples(lines: seq<Line>, samples: seq<seq<real>>, n: nat) {
    n <= |lines| && n <= |samples|
    && forall i :: 0 <= i < n ==> Usable(lines[i]) ==> lines[i].hist == HistOf(lines[i].bounds, samples[i])
  }

  /** The samples of the lines with the given bounds, in order. */
  function PoolOf(lines: seq<Line>, samples: seq<seq<real>>, bounds: seq<real>, n: nat): seq<real>
    requires n <= |lines| && n <= |samples|
  {
    if n == 0 then []
    else PoolOf(lines, samples, bounds, n - 1)
         + if Usable(lines[n - 1]) && lines[n - 1].bounds == bounds then samples[n - 1] else []
  }

  lemma {:induction false} NothingBefore(lines: seq<Line>, samples: seq<seq<real>>, bounds: seq<real>, n: nat)
    requires n <= |lines| && n <= |samples| && bounds != [] && Pooled(lines, n).0 == []
    ensures PoolOf(lines, samples, bounds, n) == []
  {
    if n > 0 {
      NothingBefore(lines, samples, bounds, n - 1);
    }
  }

  /** Adding histograms with equal bounds gives the histogram of the pooled samples. */
  lemma {:induction false} PooledIsHistOfPool(lines: seq<Line>, samples: seq<seq<real>>, n: nat)
    requires CountSamples(lines, samples, n)
    ensures var (bounds, total) := Pooled(lines, n);
            bounds != [] ==> total == HistOf(bounds, PoolOf(lines, samples, bounds, n))
  {
    if n > 0 {
      PooledIsHistOfPool(lines, samples, n - 1);
      var (before, counts) := Pooled(lines, n - 1);
      var l, b := lines[n - 1], Pooled(lines, n).0;
      if before == [] && b != [] {
        NothingBefore(lines, samples, b, n - 1);
        assert Add(Zeros(|l.hist|), l.hist) == l.hist;
        assert [] + samples[n - 1] == samples[n - 1];
      } else if b != [] && Usable(l) && l.bounds == b {
        AddHists(b, PoolOf(lines, samples, b, n - 1), samples[n - 1]);
      } else {
        var pool := PoolOf(lines, samples, b, n - 1);
        assert pool + [] == pool;
      }
    }
  }

  /** A line with no bounds at all is one bucket; two such lines are not added, the totals
      start over at each. */
  lemma {:induction false} NoBoundsStartOver(lines: seq<Line>, n: nat)
    requires 0 < n <= |lines| && Usable(lines[n - 1]) && lines[n - 1].bounds == [] && Pooled(lines, n - 1).0 == []
    ensures Pooled(lines, n) == ([], lines[n - 1].hist)
  {
    var h := lines[n - 1].hist;
    assert Add(Zeros(|h|), h) == h;
  }

  lemma {:induction false} OneBucket(samples: seq<real>)
    ensures HistOf([], samples) == [|samples|]
  {
    CountsAgree([], samples, 1);
    assert HistOf([], samples)[0] == SumTo(HistOf([], samples), 1);
  }

  /** A line counts no sample. */
  predicate CountsNone(l: Line) {
    SumTo(l.hist, |l.hist|) == 0
  }

  /** Every usable line with a usable one after it counts no sample. */
  predicate OnlyLastCounts(lines: seq<Line>, n: nat)
    requires n <= |lines|
  {
    forall i, j :: 0 <= i < j < n && Usable(lines[i]) && Usable(lines[j]) ==> CountsNone(lines[i])
  }

  lemma {:induction false} EmptyPool(lines: seq<Line>, samples: seq<seq<real>>, n: nat)
    requires CountSamples(lines, samples, n) && Pooled(lines, n).0 == []
    ensures forall i :: 0 <= i < n && Usable(lines[i]) ==> lines[i].bounds == []
    ensures PoolOf(lines, samples, [], n) == [] <==> forall i :: 0 <= i < n && Usable(lines[i]) ==> CountsNone(lines[i])
  {
    if n > 0 {
      EmptyPool(lines, samples, n - 1);
      if Usable(lines[n - 1]) {
        OneBucket(samples[n - 1]);
        assert SumTo(lines[n - 1].hist, 1) == |samples[n - 1]|;
      }
    }
  }

  lemma {:induction false} LastLineAddsUpExactly(lines: seq<Line>, samples: seq<seq<real>>, n: nat)
    requires CountSamples(lines, samples, n) && Pooled(lines, n).0 == [] && n > 0 && Usable(lines[n - 1])
    ensures Pooled(lines, n).1 == HistOf([], PoolOf(lines, samples, [], n)) <==> OnlyLastCounts(lines, n)
  {
    var before, last := PoolOf(lines, samples, [], n - 1), samples[n - 1];
    EmptyPool(lines, samples, n);
    EmptyPool(lines, samples, n - 1);
    NoBoundsStartOver(lines, n);
    OneBucket(last);
    OneBucket(before + last);
    assert PoolOf(lines, samples, [], n) == before + last;
    assert Pooled(lines, n).1 == [|last|];
    LastCounts(lines, n);
  }

  predicate AnyUsable(lines: seq<Line>, n: nat)
    requires n <= |lines|
  {
    exists i :: 0 <= i < n && Usable(lines[i])
  }

  /** When no line names a bound the total is still the count of the pooled samples exactly when
      no usable line before the last counted any. */
  lemma {:induction false} NoBoundsAddUpExactly(lines: seq<Line>, samples: seq<seq<real>>, n: nat)
    requires CountSamples(lines, samples, n) && Pooled(lines, n).0 == []
    ensures AnyUsable(lines, n) ==>
              (Pooled(lines, n).1 == HistOf([], PoolOf(lines, samples, [], n)) <==> OnlyLastCounts(lines, n))
    ensures !AnyUsable(lines, n) ==> Pooled(lines, n).1 == [] && PoolOf(lines, samples, [], n) == []
  {
    if n == 0 {
      assert Pooled(lines, n).1 == [];
    } else if Usable(lines[n - 1]) {
      LastLineAddsUpExactly(lines, samples, n);
    } else {
      NoBoundsAddUpExactly(lines, samples, n - 1);
      SkipUnusable(lines, n);
      var before := PoolOf(lines, samples, [], n - 1);
      assert PoolOf(lines, samples, [], n) == before + [] == before;
      assert Pooled(lines, n) == Pooled(lines, n - 1);
    }
  }

  lemma {:induction false} SkipUnusable(lines: seq<Line>, n: nat)
    requires 0 < n <= |lines| && !Usable(lines[n - 1])
    ensures OnlyLastCounts(lines, n) <==> OnlyLastCounts(lines, n - 1)
    ensures AnyUsable(lines, n) <==> AnyUsable(lines, n - 1)
  {
  }

  lemma {:induction false} LastCounts(lines: seq<Line>, n: nat)
    requires 0 < n <= |lines| && Usable(lines[n - 1])
    ensures OnlyLastCounts(lines, n) <==> forall i :: 0 <= i < n - 1 && Usable(lines[i]) ==> CountsNone(lines[i])
  {
  }
}
