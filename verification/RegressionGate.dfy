/** The regression gate of scripts/benchstat.py: samples grouped and summarised, and each
    metric judged against a baseline. */
module RegressionGate {
  import opened Common
  import Ordering
  import opened Statistics

  // ----- samples to summaries -----------------------------------------------------------

  datatype Status = Ok | NotMeasured | NoSamples

  /** A metric's summary, from this run or read back as a baseline. */
  datatype Metric = Metric(status: Status, n: nat, missing: nat, anomalies: nat,
                           min: Option<real>, p50: Option<real>, p95: Option<real>, p99: Option<real>, max: Option<real>)

  /** `summarize_values`. */
  function SummarizeValues(values: seq<real>, missing: nat): Metric {
    var kept := Sort(values);
    if kept == [] then
      Metric(if missing > 0 then NotMeasured else NoSamples, 0, missing, 0, None, None, None, None, None)
    else
      Metric(Ok, |kept|, missing, Below(kept, 0.0), Some(kept[0]), Percentile(kept, 50), Percentile(kept, 95),
             Percentile(kept, 99), Some(kept[|kept| - 1]))
  }

  /** A sample: its metric's key, and its value unless it could not be taken. */
  datatype Sample = Sample(key: string, value: Option<real>)

  function ValuesOf(samples: seq<Sample>, key: string, n: nat): seq<real>
    requires n <= |samples|
  {
    if n == 0 then []
    else
      var s := samples[n - 1];
      ValuesOf(samples, key, n - 1) + if s.key == key && s.value.Some? then [s.value.value] else []
  }

  function MissingOf(samples: seq<Sample>, key: string, n: nat): nat
    requires n <= |samples|
  {
    if n == 0 then 0
    else MissingOf(samples, key, n - 1) + if samples[n - 1].key == key && samples[n - 1].value.None? then 1 else 0
  }

  predicate Appears(samples: seq<Sample>, key: string, n: nat)
    requires n <= |samples|
  {
    exists i :: 0 <= i < n && samples[i].key == key
  }

  datatype Bucket = Bucket(values: seq<real>, missing: nat)

  /** The group of a key so far: empty when the key has not appeared. */
  ghost predicate Grouped(samples: seq<Sample>, n: nat, grouped: map<string, Bucket>, key: string)
    requires n <= |samples|
  {
    (if key in grouped then grouped[key] else Bucket([], 0)) == Bucket(ValuesOf(samples, key, n), MissingOf(samples, key, n))
    && (key in grouped <==> Appears(samples, key, n))
  }

  ghost predicate AllGrouped(samples: seq<Sample>, n: nat, grouped: map<string, Bucket>)
    requires n <= |samples|
  {
    forall key :: Grouped(samples, n, grouped, key)
  }

  /** One sample added to its group. */
  function Put(grouped: map<string, Bucket>, s: Sample): map<string, Bucket> {
    var bucket := if s.key in grouped then grouped[s.key] else Bucket([], 0);
    grouped[s.key := if s.value.None? then bucket.(missing := bucket.missing + 1)
                     else bucket.(values := bucket.values + [s.value.value])]
  }

  lemma {:induction false} PutKeepsGroups(samples: seq<Sample>, i: nat, grouped: map<string, Bucket>)
    requires i < |samples| && AllGrouped(samples, i, grouped)
    ensures AllGrouped(samples, i + 1, Put(grouped, samples[i]))
  {
    var n, after := i + 1, Put(grouped, samples[i]);
    forall key
      ensures Grouped(samples, n, after, key)
    {
      assert Grouped(samples, i, grouped, key);
      var values := ValuesOf(samples, key, i);
      assert values + [] == values;
      assert Appears(samples, key, i + 1) <==> key == samples[i].key || Appears(samples, key, i);
    }
  }

  /** `summarize`: its grouping loop, and what it makes of each group. */
  method Summarize(samples: seq<Sample>) returns (metrics: map<string, Metric>)
    ensures forall key :: key in metrics <==> Appears(samples, key, |samples|)
    ensures forall key :: key in metrics ==>
              metrics[key] == SummarizeValues(ValuesOf(samples, key, |samples|), MissingOf(samples, key, |samples|))
  {
    var grouped: map<string, Bucket> := map[];
    var i := 0;
    while i < |samples|
      invariant 0 <= i <= |samples| && AllGrouped(samples, i, grouped)
    {
      PutKeepsGroups(samples, i, grouped);
      grouped := Put(grouped, samples[i]);
      i := i + 1;
    }
    metrics := SummarizeGroups(grouped);
    assert forall key :: key in metrics ==> Grouped(samples, |samples|, grouped, key);
    assert forall key :: Appears(samples, key, |samples|) ==> Grouped(samples, |samples|, grouped, key);
  }

  method SummarizeGroups(grouped: map<string, Bucket>) returns (metrics: map<string, Metric>)
    ensures metrics.Keys == grouped.Keys
    ensures forall key :: key in metrics ==> metrics[key] == SummarizeValues(grouped[key].values, grouped[key].missing)
  {
    metrics := map[];
    var todo := grouped.Keys;
    while todo != {}
      invariant todo <= grouped.Keys && metrics.Keys == grouped.Keys - todo
      invariant forall key :: key in metrics ==> metrics[key] == SummarizeValues(grouped[key].values, grouped[key].missing)
    {
      var key :| key in todo;
      metrics := metrics[key := SummarizeValues(grouped[key].values, grouped[key].missing)];
      todo := todo - {key};
    }
  }

  // ----- the rules ----------------------------------------------------------------------

  datatype Statistic = Min | P50 | P95 | P99 | Max | Unknown

  datatype Rule = Rule(statistic: Statistic, maxRatio: Option<real>, absoluteMax: Option<real>, minSamples: nat,
                       maxMissing: Option<real>)

  function StatOf(m: Metric, s: Statistic): Option<real> {
    match s
    case Min => m.min
    case P50 => m.p50
    case P95 => m.p95
    case P99 => m.p99
    case Max => m.max
    case Unknown => None
  }

  datatype Verdict = Passed | New | Regressed | NotMeasuredNow | MissingFromCurrent | InsufficientSamples
                   | AnomalousSamples | OverAbsoluteMax | TooManyMissing

  /** `FAILING`. */
  predicate Failing(v: Verdict) {
    v != Passed && v != New
  }

  /** `ratio > limit`; a zero baseline makes the ratio infinite. */
  predicate RatioOver(value: real, baseline: real, limit: real) {
    baseline == 0.0 || value / baseline > limit
  }

  /** One metric of `compare`. */
  function Judge(rule: Rule, cur: Option<Metric>, base: Option<Metric>): Verdict {
    if cur.None? then MissingFromCurrent
    else if !cur.value.status.Ok? then
      if cur.value.missing > 0 then NotMeasuredNow
      else if base.Some? then MissingFromCurrent else New
    else JudgeMeasured(rule, cur.value, base)
  }

  function JudgeMeasured(rule: Rule, cur: Metric, base: Option<Metric>): Verdict {
    var value, total := StatOf(cur, rule.statistic), cur.n + cur.missing;
    if cur.anomalies > 0 then AnomalousSamples
    else if rule.maxMissing.Some? && total > 0 && cur.missing as real / total as real > rule.maxMissing.value then TooManyMissing
    else if cur.n < rule.minSamples then InsufficientSamples
    else if rule.absoluteMax.Some? && value.Some? && value.value > rule.absoluteMax.value then OverAbsoluteMax
    else if base.None? || !base.value.status.Ok? || StatOf(base.value, rule.statistic).None? then New
    else if rule.maxRatio.None? then Passed
    // a summary that has the baseline's statistic has its own
    else if value.None? || RatioOver(value.value, StatOf(base.value, rule.statistic).value, rule.maxRatio.value) then Regressed
    else Passed
  }

  /** The metrics whose verdict is neither a pass nor a first measurement. */
  function Failures(verdicts: map<string, Verdict>): set<string> {
    set name | name in verdicts && verdicts[name] !in {Passed, New}
  }

  lemma {:induction false} OneMoreVerdict(verdicts: map<string, Verdict>, name: string, v: Verdict)
    requires name !in verdicts
    ensures |Failures(verdicts[name := v])| == |Failures(verdicts)| + if Failing(v) then 1 else 0
  {
    var after := verdicts[name := v];
    assert Failures(after) == Failures(verdicts) + if Failing(v) then {name} else {};
  }

  /** `compare`: a verdict for every metric of either side, and how many fail. */
  method Compare(cur: map<string, Metric>, base: map<string, Metric>, rules: string -> Rule)
    returns (verdicts: map<string, Verdict>, failed: nat)
    ensures verdicts.Keys == cur.Keys + base.Keys
    ensures forall name :: name in verdicts ==> verdicts[name] == Judge(rules(name), Lookup(cur, name), Lookup(base, name))
    ensures failed == 0 <==> forall name :: name in verdicts ==> !Failing(verdicts[name])
    ensures failed == |Failures(verdicts)|
  {
    verdicts, failed := map[], 0;
    var names := cur.Keys + base.Keys;
    while names != {}
      invariant names <= cur.Keys + base.Keys && verdicts.Keys == cur.Keys + base.Keys - names
      invariant forall name :: name in verdicts ==> verdicts[name] == Judge(rules(name), Lookup(cur, name), Lookup(base, name))
      invariant failed == 0 <==> forall name :: name in verdicts ==> !Failing(verdicts[name])
      invariant failed == |Failures(verdicts)|
    {
      var name :| name in names;
      var v := Judge(rules(name), Lookup(cur, name), Lookup(base, name));
      OneMoreVerdict(verdicts, name, v);
      verdicts := verdicts[name := v];
      assert verdicts[name] == v;
      failed := if Failing(v) then failed + 1 else failed;
      names := names - {name};
    }
  }

  // ----- nothing passes unmeasured ------------------------------------------------------

  /** A verdict that does not fail was measured in this run, or is of a metric the baseline
      does not have: so a comparison without failures measured every baseline metric. */
  lemma {:induction false} PassingWasMeasured(rule: Rule, cur: Option<Metric>, base: Option<Metric>)
    requires base.Some? && !Failing(Judge(rule, cur, base))
    ensures cur.Some? && cur.value.status.Ok?
    ensures cur.value.anomalies == 0 && cur.value.n >= rule.minSamples
  {
  }

  /** An ok summary is of at least one sample, and its value is one of them. */
  lemma {:induction false} OkIsMeasured(values: seq<real>, missing: nat, s: Statistic)
    ensures var m := SummarizeValues(values, missing);
            (m.status.Ok? <==> values != []) && m.n == |values| && m.missing == missing
            && (m.status.Ok? && !s.Unknown? ==> StatOf(m, s).Some? && StatOf(m, s).value in values)
  {
    var m := SummarizeValues(values, missing);
    if m.status.Ok? && !s.Unknown? {
      Ordering.SameMembers(Sort(values), values, StatOf(m, s).value);
    }
  }

  /** What the summary's figures are: the least and the greatest sample, the nearest-rank 50th,
      95th and 99th percentiles, and how many samples are negative. */
  lemma {:induction false} SummaryExactly(values: seq<real>, missing: nat, v: real)
    requires values != []
    ensures var m := SummarizeValues(values, missing);
            && m.status == Ok && m.n == |values| && m.missing == missing
            && m.anomalies == Below(values, 0.0)
            && (StatOf(m, Min) == Some(v) <==> v in values && forall x :: x in values ==> v <= x)
            && (StatOf(m, Max) == Some(v) <==> v in values && forall x :: x in values ==> x <= v)
            && (StatOf(m, P50) == Some(v) <==> v in values && 100 * AtMost(values, v) >= 50 * |values| && 100 * Below(values, v) < 50 * |values|)
            && (StatOf(m, P95) == Some(v) <==> v in values && 100 * AtMost(values, v) >= 95 * |values| && 100 * Below(values, v) < 95 * |values|)
            && (StatOf(m, P99) == Some(v) <==> v in values && 100 * AtMost(values, v) >= 99 * |values| && 100 * Below(values, v) < 99 * |values|)
  {
    NearestRank(values, 50, v);
    NearestRank(values, 95, v);
    NearestRank(values, 99, v);
    EndsOfSorted(values, v);
    SortCounts(values, 0.0);
  }

  lemma {:induction false} EndsOfSorted(values: seq<real>, v: real)
    requires values != []
    ensures Sort(values)[0] == v <==> v in values && forall x :: x in values ==> v <= x
    ensures Sort(values)[|values| - 1] == v <==> v in values && forall x :: x in values ==> x <= v
  {
    var t := Sort(values);
    SortIsSorted(values);
    Ordering.SameMembers(t, values, t[0]);
    Ordering.SameMembers(t, values, t[|t| - 1]);
    forall x | x in values
      ensures t[0] <= x <= t[|t| - 1]
    {
      Ordering.SameMembers(t, values, x);
      var k :| 0 <= k < |t| && t[k] == x;
      assert k > 0 ==> Le(t[0], t[k]);
      assert k < |t| - 1 ==> Le(t[k], t[|t| - 1]);
    }
  }

  lemma {:induction false} EmptySummary(missing: nat, s: Statistic)
    ensures var m := SummarizeValues([], missing);
            m.n == 0 && m.missing == missing && StatOf(m, s).None? && m.status == (if missing > 0 then NotMeasured else NoSamples)
  {
  }

  /** What each verdict says, so that no two could be swapped. */
  lemma {:induction false} VerdictSays(rule: Rule, cur: Option<Metric>, base: Option<Metric>)
    ensures match Judge(rule, cur, base)
            case MissingFromCurrent => cur.None? || (cur.value.status != Ok && cur.value.missing == 0 && base.Some?)
            case NotMeasuredNow => cur.Some? && cur.value.status != Ok && cur.value.missing > 0
            case New =>
              cur.Some? && (if cur.value.status != Ok then cur.value.missing == 0 && base.None?
                            else base.None? || base.value.status != Ok || StatOf(base.value, rule.statistic).None?)
            case AnomalousSamples => cur.Some? && cur.value.status == Ok && cur.value.anomalies > 0
            case TooManyMissing =>
              cur.Some? && cur.value.status == Ok && cur.value.anomalies == 0 && rule.maxMissing.Some?
              && cur.value.missing as real > rule.maxMissing.value * (cur.value.n + cur.value.missing) as real
            case InsufficientSamples => cur.Some? && cur.value.status == Ok && cur.value.n < rule.minSamples
            case OverAbsoluteMax =>
              cur.Some? && cur.value.status == Ok && cur.value.n >= rule.minSamples && rule.absoluteMax.Some?
              && StatOf(cur.value, rule.statistic).Some? && StatOf(cur.value, rule.statistic).value > rule.absoluteMax.value
            case Regressed => cur.Some? && cur.value.status == Ok && base.Some? && base.value.status == Ok && rule.maxRatio.Some?
            case Passed => cur.Some? && cur.value.status == Ok && base.Some? && base.value.status == Ok
  {
    if cur.Some? && rule.maxMissing.Some? && cur.value.n + cur.value.missing > 0 {
      DivideOver(cur.value.missing as real, (cur.value.n + cur.value.missing) as real, rule.maxMissing.value);
    }
  }

  /** What a measured metric has to meet, with the ratio cleared of its division: a baseline of
      zero is never met. */
  predicate Meets(rule: Rule, m: Metric, base: Option<Metric>) {
    var value := StatOf(m, rule.statistic);
    m.anomalies == 0 && m.n >= rule.minSamples
    && (rule.maxMissing.Some? && m.n + m.missing > 0 ==>
          m.missing as real <= rule.maxMissing.value * (m.n + m.missing) as real)
    && (rule.absoluteMax.Some? && value.Some? ==> value.value <= rule.absoluteMax.value)
    && (base.Some? && base.value.status.Ok? && StatOf(base.value, rule.statistic).Some? && rule.maxRatio.Some? ==>
          var baseline := StatOf(base.value, rule.statistic).value;
          value.Some? && baseline != 0.0
          && if baseline > 0.0 then value.value <= rule.maxRatio.value * baseline
             else value.value >= rule.maxRatio.value * baseline)
  }

  lemma {:induction false} DivideOver(a: real, b: real, c: real)
    requires b != 0.0
    ensures b > 0.0 ==> (a / b > c <==> a > c * b)
    ensures b < 0.0 ==> (a / b > c <==> a < c * b)
  {
    var q := a / b;
    assert q * b == a;
    assert a - c * b == (q - c) * b;
    if q > c {
      assert b > 0.0 ==> (q - c) * b > 0.0;
      assert b < 0.0 ==> (q - c) * -b > 0.0;
    } else {
      assert b > 0.0 ==> (c - q) * b >= 0.0;
      assert b < 0.0 ==> (c - q) * -b >= 0.0;
    }
  }

  /** The gate passes a measured metric exactly when it meets its rule. */
  lemma {:induction false} PassesExactly(rule: Rule, m: Metric, base: Option<Metric>)
    ensures !Failing(JudgeMeasured(rule, m, base)) <==> Meets(rule, m, base)
  {
    if rule.maxMissing.Some? && m.n + m.missing > 0 {
      DivideOver(m.missing as real, (m.n + m.missing) as real, rule.maxMissing.value);
    }
    var value := StatOf(m, rule.statistic);
    if base.Some? && StatOf(base.value, rule.statistic).Some? && value.Some? && rule.maxRatio.Some? {
      var baseline := StatOf(base.value, rule.statistic).value;
      if baseline != 0.0 {
        DivideOver(value.value, baseline, rule.maxRatio.value);
      }
    }
  }

  // ----- slower never passes ------------------------------------------------------------

  predicate NonNegative(values: seq<real>) {
    forall i :: 0 <= i < |values| ==> values[i] >= 0.0
  }

  lemma {:induction false} NoneBelowZero(values: seq<real>)
    requires NonNegative(values)
    ensures Below(values, 0.0) == 0
  {
    if values != [] {
      assert NonNegative(values[1..]);
      NoneBelowZero(values[1..]);
    }
  }

  lemma {:induction false} StatMonotone(fast: seq<real>, slow: seq<real>, missing: nat, s: Statistic)
    requires Slower(fast, slow) && fast != [] && !s.Unknown?
    ensures var f, g := StatOf(SummarizeValues(fast, missing), s), StatOf(SummarizeValues(slow, missing), s);
            f.Some? && g.Some? && f.value <= g.value
  {
    EndsMonotone(fast, slow);
    PercentileMonotone(fast, slow, 50);
    PercentileMonotone(fast, slow, 95);
    PercentileMonotone(fast, slow, 99);
  }

  lemma {:induction false} RatioMonotone(fast: real, slow: real, baseline: real, limit: real)
    requires fast <= slow && baseline >= 0.0 && RatioOver(fast, baseline, limit)
    ensures RatioOver(slow, baseline, limit)
  {
    if baseline > 0.0 {
      assert fast / baseline <= slow / baseline by {
        assert slow / baseline - fast / baseline == (slow - fast) / baseline >= 0.0;
      }
    }
  }

  /** Making non-negative samples slower one by one, none gained or lost, never turns a
      failing metric into a passing one, against any baseline statistic that is not negative. */
  lemma {:induction false} GateMonotone(rule: Rule, fast: seq<real>, slow: seq<real>, missing: nat, base: Option<Metric>)
    requires Slower(fast, slow) && NonNegative(fast)
    requires base.Some? && StatOf(base.value, rule.statistic).Some? ==> StatOf(base.value, rule.statistic).value >= 0.0
    requires Failing(Judge(rule, Some(SummarizeValues(fast, missing)), base))
    ensures Failing(Judge(rule, Some(SummarizeValues(slow, missing)), base))
  {
    if fast != [] {
      SummariesSlower(fast, slow, missing, rule.statistic);
      JudgeMonotone(rule, SummarizeValues(fast, missing), SummarizeValues(slow, missing), base);
    } else {
      assert slow == [];
    }
  }

  /** The same counts, and a statistic that is no smaller. */
  ghost predicate SlowerMetric(f: Metric, g: Metric, s: Statistic) {
    f.status.Ok? && g.status.Ok? && f.n == g.n && f.missing == g.missing && f.anomalies == g.anomalies
    && (StatOf(f, s).Some? <==> StatOf(g, s).Some?)
    && (StatOf(f, s).Some? ==> StatOf(f, s).value <= StatOf(g, s).value)
  }

  lemma {:induction false} SummariesSlower(fast: seq<real>, slow: seq<real>, missing: nat, s: Statistic)
    requires Slower(fast, slow) && NonNegative(fast) && fast != []
    ensures SlowerMetric(SummarizeValues(fast, missing), SummarizeValues(slow, missing), s)
  {
    assert NonNegative(slow);
    NoAnomalies(fast, missing);
    NoAnomalies(slow, missing);
    if !s.Unknown? {
      StatMonotone(fast, slow, missing, s);
    }
  }

  lemma {:induction false} NoAnomalies(values: seq<real>, missing: nat)
    requires NonNegative(values) && values != []
    ensures var m := SummarizeValues(values, missing);
            m.status.Ok? && m.n == |values| && m.missing == missing && m.anomalies == 0
  {
    NoneBelowZero(values);
    SortCounts(values, 0.0);
  }

  /** The judgement depends on the value alone, and in one direction. */
  lemma {:induction false} JudgeMonotone(rule: Rule, f: Metric, g: Metric, base: Option<Metric>)
    requires SlowerMetric(f, g, rule.statistic)
    requires base.Some? && StatOf(base.value, rule.statistic).Some? ==> StatOf(base.value, rule.statistic).value >= 0.0
    requires Failing(JudgeMeasured(rule, f, base))
    ensures Failing(JudgeMeasured(rule, g, base))
  {
    if JudgeMeasured(rule, f, base) == Regressed && StatOf(f, rule.statistic).Some? {
      var baseline := StatOf(base.value, rule.statistic).value;
      RatioMonotone(StatOf(f, rule.statistic).value, StatOf(g, rule.statistic).value, baseline, rule.maxRatio.value);
    }
  }

  /** Two runs of samples, the second slower sample by sample. */
  ghost predicate SlowerRun(fast: seq<Sample>, slow: seq<Sample>) {
    |fast| == |slow| && forall i :: 0 <= i < |fast| ==> SlowerSample(fast[i], slow[i])
  }

  predicate SlowerSample(f: Sample, s: Sample) {
    f.key == s.key && (f.value.Some? <==> s.value.Some?)
    && (f.value.Some? ==> 0.0 <= f.value.value <= s.value.value)
  }

  lemma {:induction false} SlowerGroups(fast: seq<Sample>, slow: seq<Sample>, key: string, n: nat)
    requires SlowerRun(fast, slow) && n <= |fast|
    ensures Slower(ValuesOf(fast, key, n), ValuesOf(slow, key, n)) && NonNegative(ValuesOf(fast, key, n))
    ensures MissingOf(fast, key, n) == MissingOf(slow, key, n)
  {
    if n > 0 {
      SlowerGroups(fast, slow, key, n - 1);
      assert SlowerSample(fast[n - 1], slow[n - 1]);
    }
  }

  /** The whole gate is monotone: from raw samples, through grouping and summarising, to the
      verdict of any metric. */
  lemma {:induction false} EndToEndMonotone(fast: seq<Sample>, slow: seq<Sample>, key: string, rule: Rule, base: Option<Metric>)
    requires SlowerRun(fast, slow)
    requires base.Some? && StatOf(base.value, rule.statistic).Some? ==> StatOf(base.value, rule.statistic).value >= 0.0
    requires Failing(Judge(rule, Some(SummarizeValues(ValuesOf(fast, key, |fast|), MissingOf(fast, key, |fast|))), base))
    ensures Failing(Judge(rule, Some(SummarizeValues(ValuesOf(slow, key, |slow|), MissingOf(slow, key, |slow|))), base))
  {
    SlowerGroups(fast, slow, key, |fast|);
    GateMonotone(rule, ValuesOf(fast, key, |fast|), ValuesOf(slow, key, |slow|), MissingOf(fast, key, |fast|), base);
  }
}
