/** The groups split over shards, longest first onto the lightest, and the two
    commands that use the split (scripts/lib/ui_shards.py). */
module Sharding {
  import opened Common
  import opened Ordering
  import opened Grouping
  import Scheduling

  const VITEST_DEFAULT_SECONDS: real := 2.9
  const SHARD_TARGET_SECONDS: real := 600.0
  const MAX_SHARDS: nat := 8

  type Durations = map<string, real>

  /** The unit's seconds: each file's recorded time, or the default. */
  function Weight(unit: seq<string>, recorded: Durations): real {
    if unit == [] then 0.0
    else (if unit[0] in recorded then recorded[unit[0]] else VITEST_DEFAULT_SECONDS) + Weight(unit[1..], recorded)
  }

  /** A file weighs what was recorded of it, or 2.9 seconds; a unit weighs what its files do. */
  lemma {:induction false} WeightExactly(u: seq<string>, f: string, recorded: Durations)
    ensures Weight([], recorded) == 0.0
    ensures Weight([f] + u, recorded) == Weight(u, recorded) + (match Lookup(recorded, f) case Some(t) => t case None => 2.9)
  {
    assert ([f] + u)[1..] == u;
  }

  /** Python's key `(-weight(u), u)`: heavier first, then list order. */
  predicate HeavierFirst(recorded: Durations, u: seq<string>, v: seq<string>) {
    Weight(u, recorded) > Weight(v, recorded) || (Weight(u, recorded) == Weight(v, recorded) && ListLe(u, v))
  }

  function Queue(groups: seq<seq<string>>, recorded: Durations): (q: seq<seq<string>>)
    ensures multiset(q) == multiset(groups) && |q| == |groups|
  {
    SortBy((u, v) => HeavierFirst(recorded, u, v), groups)
  }

  /** Heavier units come first, and of two that weigh the same the one first in list order. */
  lemma {:induction false} QueueOrder(groups: seq<seq<string>>, recorded: Durations, i: nat, j: nat)
    requires i < j < |groups|
    ensures var u, v := Queue(groups, recorded)[i], Queue(groups, recorded)[j];
            Weight(u, recorded) >= Weight(v, recorded) && (Weight(u, recorded) == Weight(v, recorded) ==> ListLe(u, v))
  {
    var le := (u, v) => HeavierFirst(recorded, u, v);
    ListOrder();
    assert Total(le);
    SortBySorted(le, groups);
  }

  function Weights(q: seq<seq<string>>, recorded: Durations): (w: seq<real>)
    ensures |w| == |q|
  {
    seq(|q|, i requires 0 <= i < |q| => Weight(q[i], recorded))
  }

  lemma {:induction false} QueueDescends(groups: seq<seq<string>>, recorded: Durations)
    ensures Scheduling.Descending(Weights(Queue(groups, recorded), recorded))
  {
    var le := (u, v) => HeavierFirst(recorded, u, v);
    ListOrder();
    assert Total(le);
    SortBySorted(le, groups);
    var q := Queue(groups, recorded);
    forall i, j | 0 <= i <= j < |q|
      ensures Weight(q[j], recorded) <= Weight(q[i], recorded)
    {
      assert i < j ==> le(q[i], q[j]);
    }
  }

  /** The units a placement gives shard `j`, one after another. */
  function Gather(q: seq<seq<string>>, a: seq<nat>, j: nat, n: nat): (files: seq<string>)
    requires n <= |q| && n <= |a|
  {
    if n == 0 then [] else Gather(q, a, j, n - 1) + if a[n - 1] == j then q[n - 1] else []
  }

  /** Where longest-first puts each unit of the queue. */
  function Placement(groups: seq<seq<string>>, shards: nat, recorded: Durations): (a: seq<nat>)
    requires shards >= 1
    ensures |a| == |groups| && forall i :: 0 <= i < |a| ==> a[i] < shards
  {
    Scheduling.Greedy(Weights(Queue(groups, recorded), recorded), shards, |groups|)
  }

  /** The files `split` hands shard `j`. */
  function Part(groups: seq<seq<string>>, shards: nat, recorded: Durations, j: nat): seq<string>
    requires shards >= 1
  {
    SortBy(StrLe, Gather(Queue(groups, recorded), Placement(groups, shards, recorded), j, |groups|))
  }

  /** A shard's files are listed in order. */
  lemma {:induction false} PartIsSorted(groups: seq<seq<string>>, shards: nat, recorded: Durations, j: nat)
    requires shards >= 1
    ensures Sorted(StrLe, Part(groups, shards, recorded, j))
  {
    StrOrder();
    SortBySorted(StrLe, Gather(Queue(groups, recorded), Placement(groups, shards, recorded), j, |groups|));
  }

  /** The seconds `split` reports for shard `j`. */
  function ShardLoad(groups: seq<seq<string>>, shards: nat, recorded: Durations, j: nat): real
    requires shards >= 1
  {
    Scheduling.Load(Weights(Queue(groups, recorded), recorded), Placement(groups, shards, recorded), j, |groups|)
  }

  /** `min(range(shards), key=lambda i: (load[i], i))` */
  method LightestShard(load: array<real>) returns (k: nat)
    requires load.Length > 0
    ensures k == Scheduling.Lightest(load[..])
  {
    k := 0;
    assert load[..1][..0] == [];
    for i := 1 to load.Length
      invariant k < i && k == Scheduling.Lightest(load[..i])
    {
      assert load[..i + 1][..i] == load[..i];
      if load[i] < load[k] {
        k := i;
      }
    }
    assert load[..load.Length] == load[..];
  }

  /** What placing unit `n` changes. */
  lemma {:induction false} PlacementStep(q: seq<seq<string>>, w: seq<real>, shards: nat, n: nat, j: nat)
    requires shards >= 1 && n < |q| == |w|
    ensures var a, b := Scheduling.Greedy(w, shards, n), Scheduling.Greedy(w, shards, n + 1);
            var k := Scheduling.Lightest(Scheduling.Loads(w, a, shards, n));
            && Scheduling.Load(w, b, j, n + 1) == Scheduling.Load(w, a, j, n) + (if j == k then w[n] else 0.0)
            && Gather(q, b, j, n + 1) == Gather(q, a, j, n) + (if j == k then q[n] else [])
  {
    var a, b := Scheduling.Greedy(w, shards, n), Scheduling.Greedy(w, shards, n + 1);
    Scheduling.LoadPrefix(w, a, b, j, n);
    GatherPrefix(q, a, b, j, n);
  }

  /** Shard `j` of `m` carries the seconds and the files the first `n` units put on it. */
  ghost predicate PlacedAt(q: seq<seq<string>>, w: seq<real>, m: nat, n: nat, j: nat, load: real, row: seq<string>)
    requires n <= |q| == |w| && m >= 1
  {
    load == Scheduling.Load(w, Scheduling.Greedy(w, m, n), j, n) && row == Gather(q, Scheduling.Greedy(w, m, n), j, n)
  }

  ghost predicate Placed(q: seq<seq<string>>, w: seq<real>, n: nat, load: seq<real>, rows: seq<seq<string>>)
    requires n <= |q| == |w| && 1 <= |load| == |rows|
  {
    forall j: nat :: j < |load| ==> PlacedAt(q, w, |load|, n, j, load[j], rows[j])
  }

  lemma {:induction false} PlacedLoads(q: seq<seq<string>>, w: seq<real>, n: nat, load: seq<real>, rows: seq<seq<string>>)
    requires n <= |q| == |w| && 1 <= |load| == |rows| && Placed(q, w, n, load, rows)
    ensures load == Scheduling.Loads(w, Scheduling.Greedy(w, |load|, n), |load|, n)
  {
    forall j: nat | j < |load|
      ensures load[j] == Scheduling.Load(w, Scheduling.Greedy(w, |load|, n), j, n)
    {
      assert PlacedAt(q, w, |load|, n, j, load[j], rows[j]);
    }
  }

  lemma {:induction false} PlacedStep(q: seq<seq<string>>, w: seq<real>, n: nat, load: seq<real>, rows: seq<seq<string>>)
    requires n < |q| == |w| && 1 <= |load| == |rows| && Placed(q, w, n, load, rows)
    ensures var k := Scheduling.Lightest(load);
            Placed(q, w, n + 1, load[k := load[k] + w[n]], rows[k := rows[k] + q[n]])
  {
    var k := Scheduling.Lightest(load);
    var load', rows' := load[k := load[k] + w[n]], rows[k := rows[k] + q[n]];
    PlacedLoads(q, w, n, load, rows);
    forall j: nat | j < |load|
      ensures PlacedAt(q, w, |load|, n + 1, j, load'[j], rows'[j])
    {
      assert PlacedAt(q, w, |load|, n, j, load[j], rows[j]);
      PlacementStep(q, w, |load|, n, j);
    }
  }

  lemma {:induction false} PlacedStart(q: seq<seq<string>>, w: seq<real>, load: seq<real>, rows: seq<seq<string>>)
    requires |q| == |w| && 1 <= |load| == |rows|
    requires forall j :: 0 <= j < |load| ==> load[j] == 0.0 && rows[j] == []
    ensures Placed(q, w, 0, load, rows)
  {
    forall j: nat | j < |load|
      ensures PlacedAt(q, w, |load|, 0, j, load[j], rows[j])
    {
    }
  }

  lemma {:induction false} PlacedAll(groups: seq<seq<string>>, shards: nat, recorded: Durations,
                                     load: seq<real>, rows: seq<seq<string>>)
    requires shards >= 1 && |load| == |rows| == shards
    requires Placed(Queue(groups, recorded), Weights(Queue(groups, recorded), recorded), |groups|, load, rows)
    ensures forall j :: 0 <= j < shards ==> load[j] == ShardLoad(groups, shards, recorded, j)
    ensures forall j :: 0 <= j < shards ==> SortBy(StrLe, rows[j]) == Part(groups, shards, recorded, j)
  {
    var q := Queue(groups, recorded);
    forall j: nat | j < shards
      ensures load[j] == ShardLoad(groups, shards, recorded, j)
      ensures SortBy(StrLe, rows[j]) == Part(groups, shards, recorded, j)
    {
      assert PlacedAt(q, Weights(q, recorded), shards, |groups|, j, load[j], rows[j]);
    }
  }

  /** One unit added to shard `k`, in place. */
  method AddUnit(load: array<real>, rows: array<seq<string>>, k: nat, unit: seq<string>, weight: real)
    requires k < load.Length == rows.Length
    modifies load, rows
    ensures load[..] == old(load[..])[k := old(load[k]) + weight]
    ensures rows[..] == old(rows[..])[k := old(rows[k]) + unit]
  {
    load[k] := load[k] + weight;
    rows[k] := rows[k] + unit;
  }

  /** One round of the loop: unit `n` added to the lightest shard, in place. */
  method PlaceUnit(q: seq<seq<string>>, ghost w: seq<real>, n: nat, weight: real,
                   load: array<real>, rows: array<seq<string>>)
    requires n < |q| == |w| && w[n] == weight && 1 <= load.Length == rows.Length
    requires Placed(q, w, n, load[..], rows[..])
    modifies load, rows
    ensures Placed(q, w, n + 1, load[..], rows[..])
  {
    var k := LightestShard(load);
    ghost var l, r := load[..], rows[..];
    PlacedStep(q, w, n, l, r);
    AddUnit(load, rows, k, q[n], weight);
    SamePlaced(q, w, n + 1, l[k := l[k] + w[n]], r[k := r[k] + q[n]], load[..], rows[..]);
  }

  lemma {:induction false} SamePlaced(q: seq<seq<string>>, w: seq<real>, n: nat, l: seq<real>, r: seq<seq<string>>,
                                      load: seq<real>, rows: seq<seq<string>>)
    requires n <= |q| == |w| && 1 <= |l| == |r| && l == load && r == rows && Placed(q, w, n, l, r)
    ensures Placed(q, w, n, load, rows)
  {
  }

  /** `split`: `load` and `parts` updated in place, unit by unit. */
  method Split(groups: seq<seq<string>>, shards: nat, recorded: Durations)
    returns (parts: seq<seq<string>>, load: array<real>)
    requires shards >= 1
    ensures |parts| == shards == load.Length && fresh(load)
    ensures forall j :: 0 <= j < shards ==> parts[j] == Part(groups, shards, recorded, j)
    ensures forall j :: 0 <= j < shards ==> load[j] == ShardLoad(groups, shards, recorded, j)
  {
    var queue := Queue(groups, recorded);
    ghost var w := Weights(queue, recorded);
    load := new real[shards](_ => 0.0);
    var rows := new seq<string>[shards](_ => []);
    PlacedStart(queue, w, load[..], rows[..]);
    for n := 0 to |queue|
      invariant load.Length == rows.Length == shards
      invariant Placed(queue, w, n, load[..], rows[..])
    {
      PlaceUnit(queue, w, n, Weight(queue[n], recorded), load, rows);
    }
    var final := rows[..];
    PlacedAll(groups, shards, recorded, load[..], final);
    parts := seq(shards, j requires 0 <= j < shards => SortBy(StrLe, final[j]));
    assert forall j :: 0 <= j < shards ==> load[..][j] == load[j];
  }

  lemma {:induction false} GatherPrefix(q: seq<seq<string>>, a: seq<nat>, b: seq<nat>, j: nat, n: nat)
    requires n <= |q| && n <= |a| && a <= b
    ensures Gather(q, a, j, n) == Gather(q, b, j, n)
  {
    if n > 0 {
      GatherPrefix(q, a, b, j, n - 1);
    }
  }

  // ----- every file once, in one shard ----------------------------------------------

  lemma {:induction false} GatherMember(q: seq<seq<string>>, a: seq<nat>, j: nat, n: nat, f: string)
    requires n <= |q| && n <= |a|
    ensures f in Gather(q, a, j, n) <==> exists i :: 0 <= i < n && a[i] == j && f in q[i]
  {
    if n > 0 {
      GatherMember(q, a, j, n - 1, f);
      if f in Gather(q, a, j, n - 1) {
        var i :| 0 <= i < n - 1 && a[i] == j && f in q[i];
      }
    }
  }

  lemma {:induction false} PartMember(groups: seq<seq<string>>, shards: nat, recorded: Durations, j: nat, f: string)
    requires shards >= 1
    ensures var q, a := Queue(groups, recorded), Placement(groups, shards, recorded);
            f in Part(groups, shards, recorded, j) <==> exists i :: 0 <= i < |q| && a[i] == j && f in q[i]
  {
    var g := Gather(Queue(groups, recorded), Placement(groups, shards, recorded), j, |groups|);
    GatherMember(Queue(groups, recorded), Placement(groups, shards, recorded), j, |groups|, f);
    SameMembers(g, SortBy(StrLe, g), f);
  }

  /** What the first `n` units put on each shard. */
  ghost function Rows(q: seq<seq<string>>, a: seq<nat>, m: nat, n: nat): (rows: seq<seq<string>>)
    requires n <= |q| && n <= |a|
    ensures |rows| == m
  {
    seq(m, j requires 0 <= j => Gather(q, a, j, n))
  }

  lemma {:induction false} NothingLost(q: seq<seq<string>>, a: seq<nat>, m: nat, n: nat)
    requires n <= |q| && n <= |a| && forall i :: 0 <= i < n ==> a[i] < m
    ensures multiset(Flatten(Rows(q, a, m, n))) == multiset(Flatten(q[..n]))
  {
    if n == 0 {
      FlattenEmpty(Rows(q, a, m, 0));
      assert q[..0] == [];
    } else {
      var rows, k, unit := Rows(q, a, m, n - 1), a[n - 1], q[n - 1];
      NothingLost(q, a, m, n - 1);
      RowsStep(q, a, m, n);
      FlattenAppendAt(rows, k, unit);
      FlattenTake(q, n);
    }
  }

  lemma {:induction false} FlattenTake<T>(q: seq<seq<T>>, n: nat)
    requires 0 < n <= |q|
    ensures multiset(Flatten(q[..n])) == multiset(Flatten(q[..n - 1])) + multiset(q[n - 1])
  {
    assert q[..n][..n - 1] == q[..n - 1];
  }

  lemma {:induction false} RowsStep(q: seq<seq<string>>, a: seq<nat>, m: nat, n: nat)
    requires 0 < n <= |q| && n <= |a| && a[n - 1] < m
    ensures var rows, k := Rows(q, a, m, n - 1), a[n - 1];
            Rows(q, a, m, n) == rows[k := rows[k] + q[n - 1]]
  {
    var rows, k := Rows(q, a, m, n - 1), a[n - 1];
    var next := rows[k := rows[k] + q[n - 1]];
    forall j | 0 <= j < m
      ensures Gather(q, a, j, n) == next[j]
    {
    }
  }

  function Parts(groups: seq<seq<string>>, shards: nat, recorded: Durations): (parts: seq<seq<string>>)
    requires shards >= 1
    ensures |parts| == shards
  {
    seq(shards, j requires 0 <= j => Part(groups, shards, recorded, j))
  }

  /** Every test file runs exactly as often as it is listed: the shards' files
      together are the file list. */
  lemma {:induction false} EveryFileOnce(lower: string -> string, files: seq<string>, shards: nat, recorded: Durations)
    requires shards >= 1
    ensures multiset(Flatten(Parts(UnitsOf(lower, files), shards, recorded))) == multiset(files)
  {
    var groups := UnitsOf(lower, files);
    var q, a := Queue(groups, recorded), Placement(groups, shards, recorded);
    FlattenRearranged(Parts(groups, shards, recorded), Rows(q, a, shards, |q|));
    RowsHoldQueue(q, a, shards);
    UnitsAreComponents(lower, files, q);
  }

  lemma {:induction false} RowsHoldQueue(q: seq<seq<string>>, a: seq<nat>, m: nat)
    requires |a| == |q| && forall i :: 0 <= i < |q| ==> a[i] < m
    ensures multiset(Flatten(Rows(q, a, m, |q|))) == multiset(Flatten(q))
  {
    NothingLost(q, a, m, |q|);
    assert q[..|q|] == q;
  }

  /** No file's filter reaches a file another shard runs: vitest, given a shard's
      files as arguments, runs none of another's. */
  lemma {:induction false} NoFilterCrossesShards(lower: string -> string, files: seq<string>, shards: nat,
                                                 recorded: Durations, j: nat, k: nat, f: string, g: string)
    requires shards >= 1 && j != k
    requires f in Part(UnitsOf(lower, files), shards, recorded, j)
    requires g in Part(UnitsOf(lower, files), shards, recorded, k)
    ensures !FilterMatches(lower, f, g) && f != g
  {
    var groups := UnitsOf(lower, files);
    var q, a := Queue(groups, recorded), Placement(groups, shards, recorded);
    PartMember(groups, shards, recorded, j, f);
    PartMember(groups, shards, recorded, k, g);
    var s :| 0 <= s < |q| && a[s] == j && f in q[s];
    var t :| 0 <= t < |q| && a[t] == k && g in q[t];
    UnitsAreComponents(lower, files, q);
    InFlatten(q, f);
    InFlatten(q, g);
    SameMembers(Flatten(q), files, f);
    SameMembers(Flatten(q), files, g);
    var same := (x, y) => Connected(lower, files, x, y);
    assert s == t <==> same(f, g);
    ConnectedSelf(lower, files, f);
    ConnectedSelf(lower, files, g);
    if FilterMatches(lower, f, g) {
      ConnectedVia(lower, files, f, f, g, g);
    }
  }

  // ----- the loads ----------------------------------------------------------------------

  ghost predicate NonNegativeTimes(recorded: Durations) {
    forall f :: f in recorded ==> recorded[f] >= 0.0
  }

  ghost predicate PositiveTimes(recorded: Durations) {
    forall f :: f in recorded ==> recorded[f] > 0.0
  }

  lemma {:induction false} WeightSign(unit: seq<string>, recorded: Durations)
    requires NonNegativeTimes(recorded)
    ensures Weight(unit, recorded) >= 0.0
    ensures PositiveTimes(recorded) && unit != [] ==> Weight(unit, recorded) > 0.0
  {
    if unit != [] {
      WeightSign(unit[1..], recorded);
    }
  }

  lemma {:induction false} QueueNonNegative(groups: seq<seq<string>>, recorded: Durations)
    requires NonNegativeTimes(recorded)
    ensures Scheduling.NonNegative(Weights(Queue(groups, recorded), recorded))
  {
    var q := Queue(groups, recorded);
    forall i | 0 <= i < |q|
      ensures Weight(q[i], recorded) >= 0.0
    {
      WeightSign(q[i], recorded);
    }
  }

  /** Every shard `split` makes carries at most an even share plus (1 - 1/m) of the
      heaviest unit. */
  lemma {:induction false} SplitWithinLargest(groups: seq<seq<string>>, shards: nat, recorded: Durations, j: nat)
    requires shards >= 1 && NonNegativeTimes(recorded) && groups != []
    ensures var w := Weights(Queue(groups, recorded), recorded);
            Scheduling.WithinEvenShare(shards as real, ShardLoad(groups, shards, recorded, j), Scheduling.Total(w, |w|), w[0])
  {
    var w := Weights(Queue(groups, recorded), recorded);
    QueueDescends(groups, recorded);
    QueueNonNegative(groups, recorded);
    Scheduling.GreedyIsOnLightest(w, shards);
    Scheduling.GreedyWithinLargest(w, Placement(groups, shards, recorded), shards, j, w[0]);
  }

  /** No other way to place the same units has a heaviest shard so light that one of
      `split`'s is over (4/3 - 1/(3m)) times it. */
  lemma {:induction false} SplitIsNearOptimal(groups: seq<seq<string>>, shards: nat, recorded: Durations, j: nat,
                                              other: seq<nat>, heaviest: real)
    requires shards >= 1 && NonNegativeTimes(recorded)
    requires Scheduling.IsAssignment(other, |groups|, shards)
    requires forall i: nat :: i < shards ==>
               Scheduling.Load(Weights(Queue(groups, recorded), recorded), other, i, |groups|) <= heaviest
    ensures Scheduling.WithinFourThirds(shards as real, ShardLoad(groups, shards, recorded, j), heaviest)
  {
    var w := Weights(Queue(groups, recorded), recorded);
    QueueDescends(groups, recorded);
    QueueNonNegative(groups, recorded);
    Scheduling.GreedyIsOnLightest(w, shards);
    Scheduling.LongestFirstWithinFourThirds(w, Placement(groups, shards, recorded), shards, other, heaviest, j);
  }

  // ----- the two commands ---------------------------------------------------------------

  function Ceil(x: real): int {
    if x.Floor as real == x then x.Floor else x.Floor + 1
  }

  function Min(a: int, b: int): int { if a <= b then a else b }

  /** `shard_count` */
  function ShardCount(total: real, units: nat): (n: int)
    ensures 1 <= n <= 8
    ensures units >= 1 ==> n <= units
    ensures n == 1 || (n - 1) as real * 600.0 < total
    ensures n < 8 && n < units ==> total <= n as real * 600.0
  {
    Max(1, Min(MAX_SHARDS, Min(units, Ceil(total / SHARD_TARGET_SECONDS))))
  }

  datatype Picked = Files(files: seq<string>) | NoSuchShard | TooManyShards | EmptyShard

  /** `pick`: the files of shard `shard` of `shards`, or the exit it takes. */
  method Pick(shard: int, shards: int, lower: string -> string, files: seq<string>, recorded: Durations)
    returns (r: Picked)
    ensures r.NoSuchShard? <==> !(1 <= shard <= shards)
    ensures r.TooManyShards? <==> 1 <= shard <= shards && shards > |UnitsOf(lower, files)|
    ensures r.Files? ==> r.files == Part(UnitsOf(lower, files), shards, recorded, shard - 1) && r.files != []
    ensures r.EmptyShard? ==> Part(UnitsOf(lower, files), shards, recorded, shard - 1) == []
  {
    if !(1 <= shard <= shards) {
      return NoSuchShard;
    }
    var groups := Units(lower, files);
    if shards > |groups| {
      return TooManyShards;
    }
    var parts, load := Split(groups, shards, recorded);
    var mine := parts[shard - 1];
    if mine == [] {
      return EmptyShard;
    }
    return Files(mine);
  }

  lemma {:induction false} PartEmptyExactly(lower: string -> string, files: seq<string>, shards: nat, recorded: Durations, j: nat)
    requires shards >= 1
    ensures var groups := UnitsOf(lower, files);
            Part(groups, shards, recorded, j) == [] <==> !Scheduling.Used(Placement(groups, shards, recorded), j)
  {
    var groups := UnitsOf(lower, files);
    var q, a := Queue(groups, recorded), Placement(groups, shards, recorded);
    UnitsAreComponents(lower, files, q);
    var part := Part(groups, shards, recorded, j);
    if part != [] {
      PartMember(groups, shards, recorded, j, part[0]);
      assert part[0] in part;
    }
    if Scheduling.Used(a, j) {
      var i :| 0 <= i < |a| && a[i] == j;
      assert q[i][0] in q[i];
      PartMember(groups, shards, recorded, j, q[i][0]);
    }
  }

  /** How many units take any time at all. */
  ghost function PositiveUnits(q: seq<seq<string>>, recorded: Durations): (p: nat)
    ensures p <= |q|
  {
    if q == [] then 0
    else if Weight(q[|q| - 1], recorded) > 0.0 then |q|
    else PositiveUnits(q[..|q| - 1], recorded)
  }

  lemma {:induction false} PositiveUnitsFirst(q: seq<seq<string>>, recorded: Durations)
    requires Scheduling.Descending(Weights(q, recorded)) && Scheduling.NonNegative(Weights(q, recorded))
    ensures Scheduling.PositiveCount(Weights(q, recorded), PositiveUnits(q, recorded))
  {
    var w := Weights(q, recorded);
    if q != [] {
      if Weight(q[|q| - 1], recorded) > 0.0 {
        assert w[|q| - 1] > 0.0;
      } else {
        var q' := q[..|q| - 1];
        var w' := Weights(q', recorded);
        assert w' == w[..|q| - 1];
        PositiveUnitsFirst(q', recorded);
        forall i | PositiveUnits(q, recorded) <= i < |w|
          ensures w[i] == 0.0
        {
          assert i < |w| - 1 ==> w[i] == w'[i];
        }
        forall i | 0 <= i < PositiveUnits(q, recorded)
          ensures w[i] > 0.0
        {
          assert w[i] == w'[i];
        }
      }
    }
  }

  /** Some shard is handed no file exactly when the units that take time are fewer than
      the shards, and not just one fewer with a zero-weight unit left for the last. */
  lemma {:induction false} EmptyShardExactly(lower: string -> string, files: seq<string>, shards: nat, recorded: Durations)
    requires shards >= 1 && NonNegativeTimes(recorded)
    ensures var groups := UnitsOf(lower, files);
            var p := PositiveUnits(Queue(groups, recorded), recorded);
            (exists j: nat :: j < shards && Part(groups, shards, recorded, j) == [])
              <==> p < shards && !(shards == p + 1 && p < |groups|)
  {
    var groups := UnitsOf(lower, files);
    var q := Queue(groups, recorded);
    var w, a := Weights(q, recorded), Placement(groups, shards, recorded);
    QueueDescends(groups, recorded);
    QueueNonNegative(groups, recorded);
    PositiveUnitsFirst(q, recorded);
    Scheduling.GreedyIsOnLightest(w, shards);
    Scheduling.NoShardEmptyExactly(w, a, shards, PositiveUnits(q, recorded));
    forall j: nat | j < shards
      ensures Part(groups, shards, recorded, j) == [] <==> !Scheduling.Used(a, j)
    {
      PartEmptyExactly(lower, files, shards, recorded, j);
    }
  }

  /** With positive times and no more shards than units, as `count` asks for, the
      "handed no vitest file" exit is unreachable. */
  lemma {:induction false} NoShardIsEmpty(lower: string -> string, files: seq<string>, shards: nat, recorded: Durations, j: nat)
    requires 1 <= shards <= |UnitsOf(lower, files)| && j < shards && PositiveTimes(recorded)
    ensures Part(UnitsOf(lower, files), shards, recorded, j) != []
  {
    var groups := UnitsOf(lower, files);
    AllUnitsPositive(lower, files, recorded);
    EmptyShardExactly(lower, files, shards, recorded);
  }

  lemma {:induction false} AllUnitsPositive(lower: string -> string, files: seq<string>, recorded: Durations)
    requires PositiveTimes(recorded)
    ensures var groups := UnitsOf(lower, files); PositiveUnits(Queue(groups, recorded), recorded) == |groups|
  {
    var q := Queue(UnitsOf(lower, files), recorded);
    if q != [] {
      UnitsAreComponents(lower, files, q);
      WeightSign(q[|q| - 1], recorded);
    }
  }

  /** A zero-time record can empty a shard: two units, two shards, no time at all. */
  lemma {:induction false} ZeroTimesLeaveAShardEmpty(u: string, v: string, recorded: Durations)
    requires u in recorded && v in recorded && recorded[u] == 0.0 && recorded[v] == 0.0
    ensures Part([[u], [v]], 2, recorded, 1) == []
  {
    var groups := [[u], [v]];
    var q, a := Queue(groups, recorded), Placement(groups, 2, recorded);
    var w := Weights(q, recorded);
    forall i | 0 <= i < 2
      ensures w[i] == 0.0
    {
      SameMembers(q, groups, q[i]);
      assert Weight([u], recorded) == 0.0 && Weight([v], recorded) == 0.0;
    }
    Scheduling.GreedyIsOnLightest(w, 2);
    Scheduling.ZeroJobsStay(w, a, 2, 0, 2);
    assert Gather(q, a, 1, 1) == [];
    assert Gather(q, a, 1, 2) == [];
  }
}
