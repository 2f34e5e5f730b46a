/** The vitest files grouped by a union-find over "one path contains the other"
    (scripts/lib/ui_shards.py, `units`). */
module Grouping {
  import opened Ordering

  predicate OccursAt(hay: string, needle: string, i: nat) {
    i + |needle| <= |hay| && hay[i..i + |needle|] == needle
  }

  /** Python's `needle in hay`. */
  predicate Contains(hay: string, needle: string) {
    exists i: nat :: i <= |hay| && OccursAt(hay, needle, i)
  }

  /** vitest run with the argument `arg` also runs `path`: the filter is a
      case-insensitive substring. */
  predicate FilterMatches(lower: string -> string, arg: string, path: string) {
    Contains(lower(path), lower(arg))
  }

  /** The filter matches exactly when the lower-cased path is the lower-cased argument with
      something, or nothing, before and after it. */
  lemma {:induction false} FilterMatchesExactly(lower: string -> string, arg: string, path: string)
    ensures FilterMatches(lower, arg, path) <==> exists before, after :: lower(path) == before + lower(arg) + after
  {
    var hay, needle := lower(path), lower(arg);
    if i: nat :| i <= |hay| && OccursAt(hay, needle, i) {
      assert hay == hay[..i] + hay[i..i + |needle|] + hay[i + |needle|..];
    }
    if before, after :| hay == before + needle + after {
      assert hay[|before|..|before| + |needle|] == needle;
      assert OccursAt(hay, needle, |before|);
    }
  }

  ghost predicate Linked(lower: string -> string, a: string, b: string) {
    FilterMatches(lower, a, b) || FilterMatches(lower, b, a)
  }

  ghost predicate IsPath(lower: string -> string, files: seq<string>, p: seq<string>)
  {
    && p != []
    && p[0] in files
    && (|p| > 1 ==> Linked(lower, p[0], p[1]) && IsPath(lower, files, p[1..]))
  }

  /** `a` and `b` are in one component of the "one contains the other" graph on `files`. */
  ghost predicate Connected(lower: string -> string, files: seq<string>, a: string, b: string) {
    exists p: seq<string> :: IsPath(lower, files, p) && p[0] == a && p[|p| - 1] == b
  }

  lemma {:induction false} ConnectedSelf(lower: string -> string, files: seq<string>, a: string)
    requires a in files
    ensures Connected(lower, files, a, a)
  {
    assert IsPath(lower, files, [a]);
  }

  lemma {:induction false} PathJoin(lower: string -> string, files: seq<string>, p: seq<string>, q: seq<string>)
    requires IsPath(lower, files, p) && IsPath(lower, files, q) && Linked(lower, p[|p| - 1], q[0])
    ensures IsPath(lower, files, p + q)
  {
    if |p| == 1 {
      assert (p + q)[1..] == q;
    } else {
      PathJoin(lower, files, p[1..], q);
      assert (p + q)[1..] == p[1..] + q;
    }
  }

  lemma {:induction false} PathReverse(lower: string -> string, files: seq<string>, p: seq<string>) returns (q: seq<string>)
    requires IsPath(lower, files, p)
    ensures IsPath(lower, files, q) && q[0] == p[|p| - 1] && q[|q| - 1] == p[0]
  {
    if |p| == 1 {
      q := p;
    } else {
      var t := PathReverse(lower, files, p[1..]);
      assert IsPath(lower, files, [p[0]]);
      PathJoin(lower, files, t, [p[0]]);
      q := t + [p[0]];
    }
  }

  lemma {:induction false} ConnectedSymmetric(lower: string -> string, files: seq<string>, a: string, b: string)
    requires Connected(lower, files, a, b)
    ensures Connected(lower, files, b, a)
  {
    var p: seq<string> :| IsPath(lower, files, p) && p[0] == a && p[|p| - 1] == b;
    var q := PathReverse(lower, files, p);
  }

  /** A link between two connected pairs connects their far ends. */
  lemma {:induction false} ConnectedVia(lower: string -> string, files: seq<string>, a: string, b: string, c: string, d: string)
    requires Connected(lower, files, a, b) && Linked(lower, b, c) && Connected(lower, files, c, d)
    ensures Connected(lower, files, a, d)
  {
    var p: seq<string> :| IsPath(lower, files, p) && p[0] == a && p[|p| - 1] == b;
    var q: seq<string> :| IsPath(lower, files, q) && q[0] == c && q[|q| - 1] == d;
    PathJoin(lower, files, p, q);
    assert (p + q)[0] == a && (p + q)[|p + q| - 1] == d;
  }

  lemma {:induction false} LinkedSelf(lower: string -> string, a: string)
    ensures Linked(lower, a, a)
  {
    assert OccursAt(lower(a), lower(a), 0);
  }

  lemma {:induction false} ConnectedTransitive(lower: string -> string, files: seq<string>, a: string, b: string, c: string)
    requires Connected(lower, files, a, b) && Connected(lower, files, b, c)
    ensures Connected(lower, files, a, c)
  {
    LinkedSelf(lower, b);
    ConnectedVia(lower, files, a, b, b, c);
  }

  // ----- the parent pointers --------------------------------------------------

  /** The parent pointer of `f` stays inside the map and does not go up in the order. */
  ghost predicate PointsDown(le: (string, string) -> bool, parent: map<string, string>, f: string) {
    f in parent && parent[f] in parent && le(parent[f], f)
  }

  /** `r` names the root that following parents from `f` ends at. */
  ghost predicate RootAt(le: (string, string) -> bool, parent: map<string, string>, r: map<string, string>, f: string) {
    && PointsDown(le, parent, f)
    && f in r && parent[f] in r && r[f] == r[parent[f]]
    && r[f] in parent && parent[r[f]] == r[f] && le(r[f], f)
    && (parent[f] == f ==> r[f] == f)
  }

  ghost predicate Forest(le: (string, string) -> bool, parent: map<string, string>, r: map<string, string>) {
    && r.Keys == parent.Keys
    && forall f {:trigger RootAt(le, parent, r, f)} :: f in parent ==> RootAt(le, parent, r, f)
  }

  ghost function Below(le: (string, string) -> bool, parent: map<string, string>, f: string): set<string> {
    set g | g in parent && le(g, f) && g != f
  }

  lemma {:induction false} BelowShrinks(le: (string, string) -> bool, parent: map<string, string>, f: string)
    requires TotalOrder(le) && PointsDown(le, parent, f) && parent[f] != f
    ensures Below(le, parent, parent[f]) < Below(le, parent, f)
  {
    assert parent[f] in Below(le, parent, f) && parent[f] !in Below(le, parent, parent[f]);
  }

  /** The root search terminates: every step goes strictly down in string order. */
  method FindRoot(le: (string, string) -> bool, parent: map<string, string>, ghost r: map<string, string>, f: string)
    returns (x: string)
    requires TotalOrder(le) && Forest(le, parent, r) && f in parent
    ensures f in r && x == r[f]
    ensures x in parent && parent[x] == x
  {
    x := f;
    assert RootAt(le, parent, r, f);
    while parent[x] != x
      invariant x in parent && RootAt(le, parent, r, x) && r[x] == r[f]
      decreases Below(le, parent, x)
    {
      BelowShrinks(le, parent, x);
      assert RootAt(le, parent, r, parent[x]);
      x := parent[x];
    }
  }

  /** The roots once `hi` hangs under `lo`. */
  ghost function Relabel(r: map<string, string>, hi: string, lo: string): map<string, string> {
    map f | f in r :: if r[f] == hi then lo else r[f]
  }

  /** Hanging one root under a smaller one moves exactly its component. */
  lemma {:induction false} UnionRelabels(le: (string, string) -> bool, parent: map<string, string>,
                                         r: map<string, string>, hi: string, lo: string)
    requires TotalOrder(le) && Forest(le, parent, r) && hi in parent && lo in parent
    requires parent[hi] == hi && parent[lo] == lo && le(lo, hi) && lo != hi
    ensures Forest(le, parent[hi := lo], Relabel(r, hi, lo))
  {
    forall f {:trigger RootAt(le, parent[hi := lo], Relabel(r, hi, lo), f)} | f in parent
      ensures RootAt(le, parent[hi := lo], Relabel(r, hi, lo), f)
    {
      assert RootAt(le, parent, r, f) && RootAt(le, parent, r, lo) && RootAt(le, parent, r, hi);
      assert RootAt(le, parent, r, parent[f]);
    }
  }

  /** Every file is connected to its root. */
  ghost predicate Sound(lower: string -> string, files: seq<string>, r: map<string, string>) {
    forall f {:trigger r[f]} :: f in r ==> Connected(lower, files, f, r[f])
  }

  /** All links among the files have been merged. */
  ghost predicate Merged(lower: string -> string, r: map<string, string>) {
    forall a, b {:trigger FilterMatches(lower, a, b)} ::
      a in r && b in r && a != b && FilterMatches(lower, a, b) ==> r[a] == r[b]
  }

  ghost predicate Keyed(files: seq<string>, m: map<string, string>) {
    m.Keys == set f | f in files
  }

  lemma {:induction false} PathSameRoot(lower: string -> string, files: seq<string>, r: map<string, string>, p: seq<string>)
    requires Merged(lower, r) && Keyed(files, r)
    requires IsPath(lower, files, p)
    ensures p[0] in r && p[|p| - 1] in r && r[p[0]] == r[p[|p| - 1]]
  {
    if |p| > 1 {
      PathSameRoot(lower, files, r, p[1..]);
    }
  }

  /** Two files share a root exactly when they are in one component. */
  lemma {:induction false} RootsAreComponents(lower: string -> string, files: seq<string>,
                                              r: map<string, string>, a: string, b: string)
    requires Sound(lower, files, r) && Keyed(files, r) && Merged(lower, r)
    requires a in files && b in files
    ensures r[a] == r[b] <==> Connected(lower, files, a, b)
  {
    if r[a] == r[b] {
      assert Connected(lower, files, a, r[a]) && Connected(lower, files, b, r[b]);
      ConnectedSymmetric(lower, files, b, r[b]);
      ConnectedTransitive(lower, files, a, r[a], b);
    }
    if Connected(lower, files, a, b) {
      var p: seq<string> :| IsPath(lower, files, p) && p[0] == a && p[|p| - 1] == b;
      PathSameRoot(lower, files, r, p);
    }
  }

  /** The root of a component is a member of it and its smallest path. */
  lemma {:induction false} RootIsSmallest(le: (string, string) -> bool, lower: string -> string, files: seq<string>,
                                          parent: map<string, string>, r: map<string, string>, a: string, b: string)
    requires Forest(le, parent, r) && Sound(lower, files, r) && Keyed(files, r) && Merged(lower, r)
    requires a in files && b in files && Connected(lower, files, a, b)
    ensures Connected(lower, files, a, r[a]) && le(r[a], b)
  {
    RootsAreComponents(lower, files, r, a, b);
    assert RootAt(le, parent, r, b);
  }

  // ----- the loops -----------------------------------------------------------------

  /** Files that shared a root still do. */
  ghost predicate KeepsMerges(r: map<string, string>, r': map<string, string>) {
    && r.Keys == r'.Keys
    && forall f, g {:trigger r'[f], r'[g]} :: f in r && g in r && r[f] == r[g] ==> r'[f] == r'[g]
  }

  lemma {:induction false} RelabelKeepsMerges(r: map<string, string>, hi: string, lo: string)
    ensures KeepsMerges(r, Relabel(r, hi, lo))
  {
  }

  lemma {:induction false} LinkKeepsSound(lower: string -> string, files: seq<string>, r: map<string, string>,
                                          a: string, b: string)
    requires Sound(lower, files, r) && a in r && b in r && Linked(lower, a, b)
    ensures Sound(lower, files, Relabel(r, r[a], r[b]))
  {
    var r' := Relabel(r, r[a], r[b]);
    assert Connected(lower, files, a, r[a]) && Connected(lower, files, b, r[b]);
    ConnectedSymmetric(lower, files, a, r[a]);
    ConnectedVia(lower, files, r[a], a, b, r[b]);
    forall f {:trigger r'[f]} | f in r
      ensures Connected(lower, files, f, r'[f])
    {
      assert Connected(lower, files, f, r[f]);
      if r[f] == r[a] {
        ConnectedTransitive(lower, files, f, r[a], r[b]);
      }
    }
  }

  /** The pairs before (i, j) in the nested loop's order are merged. */
  ghost predicate MergedBefore(lower: string -> string, files: seq<string>, r: map<string, string>, i: nat, j: nat)
    requires Keyed(files, r)
  {
    forall x, y | 0 <= x < |files| && 0 <= y < |files| && (x < i || (x == i && y < j)) ::
      files[x] != files[y] && FilterMatches(lower, files[x], files[y]) ==> r[files[x]] == r[files[y]]
  }

  lemma {:induction false} MergedBeforeKept(lower: string -> string, files: seq<string>, r: map<string, string>,
                                            r': map<string, string>, i: nat, j: nat)
    requires Keyed(files, r) && KeepsMerges(r, r') && MergedBefore(lower, files, r, i, j)
    requires i < |files| && j < |files|
    requires files[i] != files[j] && FilterMatches(lower, files[i], files[j]) ==> r'[files[i]] == r'[files[j]]
    ensures MergedBefore(lower, files, r', i, j + 1)
  {
  }

  /** One pair of the nested loop: the larger of two different roots is hung under
      the smaller. */
  method MergePair(le: (string, string) -> bool, lower: string -> string, ghost files: seq<string>,
                   parent: map<string, string>, ghost r: map<string, string>, a: string, b: string)
    returns (next: map<string, string>, ghost r': map<string, string>)
    requires TotalOrder(le) && Forest(le, parent, r) && Sound(lower, files, r)
    requires a in parent && b in parent
    ensures Forest(le, next, r') && Sound(lower, files, r') && KeepsMerges(r, r')
    ensures a != b && FilterMatches(lower, a, b) ==> r'[a] == r'[b]
  {
    next, r' := parent, r;
    if a != b && FilterMatches(lower, a, b) {
      var ra := FindRoot(le, parent, r, a);
      var rb := FindRoot(le, parent, r, b);
      assert RootAt(le, parent, r, a) && RootAt(le, parent, r, b);
      if ra != rb {
        var hi, lo := if le(ra, rb) then rb else ra, if le(ra, rb) then ra else rb;
        next, r' := parent[hi := lo], Relabel(r, hi, lo);
        if le(ra, rb) {
          LinkKeepsSound(lower, files, r, b, a);
        } else {
          LinkKeepsSound(lower, files, r, a, b);
        }
        UnionRelabels(le, parent, r, hi, lo);
        RelabelKeepsMerges(r, hi, lo);
      }
    }
  }

  /** The state of the nested loops before pair (i, j). */
  ghost predicate Progress(le: (string, string) -> bool, lower: string -> string, files: seq<string>,
                           parent: map<string, string>, r: map<string, string>, i: nat, j: nat)
  {
    && Forest(le, parent, r) && Keyed(files, r) && Sound(lower, files, r)
    && MergedBefore(lower, files, r, i, j)
  }

  /** The nested loops: every file ends connected to its root, and every link merged. */
  method MergeAll(le: (string, string) -> bool, lower: string -> string, files: seq<string>)
    returns (parent: map<string, string>, ghost r: map<string, string>)
    requires TotalOrder(le)
    ensures Progress(le, lower, files, parent, r, |files|, 0)
  {
    parent := map f | f in files :: f;
    r := parent;
    StartIsProgress(le, lower, files, parent);
    for i := 0 to |files|
      invariant Progress(le, lower, files, parent, r, i, 0)
    {
      for j := 0 to |files|
        invariant Progress(le, lower, files, parent, r, i, j)
      {
        ghost var before := r;
        parent, r := MergePair(le, lower, files, parent, r, files[i], files[j]);
        MergedBeforeKept(lower, files, before, r, i, j);
      }
    }
  }

  lemma {:induction false} StartIsProgress(le: (string, string) -> bool, lower: string -> string, files: seq<string>,
                                           start: map<string, string>)
    requires TotalOrder(le) && start == map f | f in files :: f
    ensures Progress(le, lower, files, start, start, 0, 0)
  {
    forall f | f in files
      ensures Connected(lower, files, f, f)
    {
      ConnectedSelf(lower, files, f);
    }
  }

  lemma {:induction false} AllMerged(lower: string -> string, files: seq<string>, r: map<string, string>)
    requires Keyed(files, r) && MergedBefore(lower, files, r, |files|, 0)
    ensures Merged(lower, r)
  {
    forall a, b | a in r && b in r && a != b && FilterMatches(lower, a, b)
      ensures r[a] == r[b]
    {
      assert a in files && b in files;
      var x :| 0 <= x < |files| && files[x] == a;
      var y :| 0 <= y < |files| && files[y] == b;
    }
  }

  // ----- the groups -------------------------------------------------------------------

  ghost function Select(files: seq<string>, keep: string -> bool): (s: seq<string>)
    ensures forall f :: f in s <==> f in files && keep(f)
  {
    if files == [] then []
    else Select(files[..|files| - 1], keep) + if keep(files[|files| - 1]) then [files[|files| - 1]] else []
  }

  lemma {:induction false} SelectSame(files: seq<string>, p: string -> bool, q: string -> bool)
    requires forall f :: f in files ==> p(f) == q(f)
    ensures Select(files, p) == Select(files, q)
  {
    if files != [] {
      SelectSame(files[..|files| - 1], p, q);
    }
  }

  /** The files related to `a`, in the order of `files`. */
  ghost function ClassOf(same: (string, string) -> bool, files: seq<string>, a: string): seq<string> {
    Select(files, f => same(a, f))
  }

  ghost predicate SeenBefore(same: (string, string) -> bool, files: seq<string>, n: nat)
    requires n < |files|
  {
    exists h :: 0 <= h < n && same(files[h], files[n])
  }

  /** The classes met in the first `n` files, each once, in order of meeting. */
  ghost function Classes(same: (string, string) -> bool, files: seq<string>, n: nat): seq<seq<string>>
    requires n <= |files|
  {
    if n == 0 then []
    else if SeenBefore(same, files, n - 1) then Classes(same, files, n - 1)
    else Classes(same, files, n - 1) + [ClassOf(same, files, files[n - 1])]
  }

  /** The roots decide the relation. */
  ghost predicate Agrees(same: (string, string) -> bool, files: seq<string>, r: map<string, string>) {
    && Keyed(files, r)
    && forall a, b {:trigger same(a, b)} :: a in files && b in files ==> (same(a, b) <==> r[a] == r[b])
  }

  ghost predicate WithRoot(r: map<string, string>, k: string, f: string) {
    f in r && r[f] == k
  }

  ghost function Members(r: map<string, string>, files: seq<string>, k: string): seq<string> {
    Select(files, f => WithRoot(r, k, f))
  }

  lemma {:induction false} MembersAreClass(same: (string, string) -> bool, files: seq<string>, r: map<string, string>, a: string)
    requires Agrees(same, files, r) && a in files
    ensures Members(r, files, r[a]) == ClassOf(same, files, a)
  {
    SelectSame(files, f => WithRoot(r, r[a], f), f => same(a, f));
  }

  ghost predicate HasMember(r: map<string, string>, files: seq<string>, i: nat, k: string)
    requires i <= |files|
  {
    exists h :: 0 <= h < i && WithRoot(r, k, files[h])
  }

  /** The dictionary of groups after the first `i` files: its keys are the roots met,
      in order, each holding its members so far. */
  ghost predicate Buckets(files: seq<string>, r: map<string, string>, i: nat,
                          keys: seq<string>, groups: map<string, seq<string>>)
    requires i <= |files|
  {
    && (forall k :: k in keys <==> k in groups)
    && (forall k {:trigger groups[k]} :: k in groups ==> groups[k] == Members(r, files[..i], k))
    && (forall k {:trigger HasMember(r, files, i, k)} :: k in keys <==> HasMember(r, files, i, k))
  }

  /** The roots met so far stand for the classes met so far. */
  ghost predicate Listed(same: (string, string) -> bool, files: seq<string>, r: map<string, string>, i: nat, keys: seq<string>)
    requires i <= |files|
  {
    && |keys| == |Classes(same, files, i)|
    && forall t :: 0 <= t < |keys| ==> Classes(same, files, i)[t] == Members(r, files, keys[t])
  }

  lemma {:induction false} SeenIsKeyed(same: (string, string) -> bool, files: seq<string>, r: map<string, string>, i: nat)
    requires Agrees(same, files, r) && i < |files|
    ensures SeenBefore(same, files, i) <==> HasMember(r, files, i, r[files[i]])
  {
    if HasMember(r, files, i, r[files[i]]) {
      var h :| 0 <= h < i && WithRoot(r, r[files[i]], files[h]);
      assert same(files[h], files[i]);
    }
    if SeenBefore(same, files, i) {
      var h :| 0 <= h < i && same(files[h], files[i]);
      assert WithRoot(r, r[files[i]], files[h]);
    }
  }

  lemma {:induction false} ListedStep(same: (string, string) -> bool, files: seq<string>, r: map<string, string>, i: nat,
                                      keys: seq<string>, seen: bool)
    requires Agrees(same, files, r) && i < |files| && Listed(same, files, r, i, keys)
    requires seen <==> HasMember(r, files, i, r[files[i]])
    ensures Listed(same, files, r, i + 1, if seen then keys else keys + [r[files[i]]])
  {
    SeenIsKeyed(same, files, r, i);
    MembersAreClass(same, files, r, files[i]);
  }

  lemma {:induction false} MembersStep(r: map<string, string>, files: seq<string>, i: nat, k: string)
    requires i < |files|
    ensures Members(r, files[..i + 1], k)
         == Members(r, files[..i], k) + if WithRoot(r, k, files[i]) then [files[i]] else []
    ensures HasMember(r, files, i + 1, k) <==> HasMember(r, files, i, k) || WithRoot(r, k, files[i])
    ensures !HasMember(r, files, i, k) ==> Members(r, files[..i], k) == []
  {
    assert files[..i + 1][..i] == files[..i];
    var s := Members(r, files[..i], k);
    if s != [] {
      assert s[0] in s && s[0] in files[..i];
    }
  }

  /** `groups.setdefault(root, []).append(f)` for file `i`. */
  lemma {:induction false} BucketsStep(files: seq<string>, r: map<string, string>, i: nat,
                                       keys: seq<string>, groups: map<string, seq<string>>,
                                       keys': seq<string>, groups': map<string, seq<string>>)
    requires i < |files| && files[i] in r && Buckets(files, r, i, keys, groups)
    requires var k := r[files[i]];
      if k in groups then keys' == keys && groups' == groups[k := groups[k] + [files[i]]]
      else keys' == keys + [k] && groups' == groups[k := [files[i]]]
    ensures Buckets(files, r, i + 1, keys', groups')
  {
    var k := r[files[i]];
    assert k in groups <==> HasMember(r, files, i, k);
    forall q {:trigger groups'[q]} | q in groups'
      ensures groups'[q] == Members(r, files[..i + 1], q)
    {
      MembersStep(r, files, i, q);
      assert q in groups ==> groups[q] == Members(r, files[..i], q);
    }
    forall q {:trigger HasMember(r, files, i + 1, q)}
      ensures q in keys' <==> HasMember(r, files, i + 1, q)
    {
      MembersStep(r, files, i, q);
      assert q in keys <==> HasMember(r, files, i, q);
    }
  }

  /** The groups of a file list: its components, sorted as Python sorts lists. */
  ghost function UnitsOf(lower: string -> string, files: seq<string>): seq<seq<string>> {
    SortBy(ListLe, Classes((a, b) => Connected(lower, files, a, b), files, |files|))
  }

  lemma {:induction false} RootsAgree(lower: string -> string, files: seq<string>, r: map<string, string>)
    requires Sound(lower, files, r) && Keyed(files, r) && Merged(lower, r)
    ensures Agrees((a, b) => Connected(lower, files, a, b), files, r)
  {
    forall a, b | a in files && b in files
      ensures r[a] == r[b] <==> Connected(lower, files, a, b)
    {
      RootsAreComponents(lower, files, r, a, b);
    }
  }

  /** The state of the second loop of `units` before file `i`. */
  ghost predicate Grouped(same: (string, string) -> bool, files: seq<string>, r: map<string, string>, i: nat,
                          keys: seq<string>, groups: map<string, seq<string>>)
    requires i <= |files|
  {
    Buckets(files, r, i, keys, groups) && Listed(same, files, r, i, keys)
  }

  lemma {:induction false} GroupedStep(same: (string, string) -> bool, files: seq<string>, r: map<string, string>, i: nat,
                                       keys: seq<string>, groups: map<string, seq<string>>,
                                       keys': seq<string>, groups': map<string, seq<string>>)
    requires Agrees(same, files, r) && i < |files| && files[i] in r
    requires Grouped(same, files, r, i, keys, groups)
    requires var k := r[files[i]];
      if k in groups then keys' == keys && groups' == groups[k := groups[k] + [files[i]]]
      else keys' == keys + [k] && groups' == groups[k := [files[i]]]
    ensures Grouped(same, files, r, i + 1, keys', groups')
  {
    assert r[files[i]] in groups <==> HasMember(r, files, i, r[files[i]]);
    ListedStep(same, files, r, i, keys, r[files[i]] in groups);
    BucketsStep(files, r, i, keys, groups, keys', groups');
  }

  lemma {:induction false} GroupedAll(same: (string, string) -> bool, files: seq<string>, r: map<string, string>,
                                      keys: seq<string>, groups: map<string, seq<string>>)
    requires Grouped(same, files, r, |files|, keys, groups)
    ensures forall t :: 0 <= t < |keys| ==> keys[t] in groups
    ensures |keys| == |Classes(same, files, |files|)|
    ensures forall t :: 0 <= t < |keys| ==> Classes(same, files, |files|)[t] == groups[keys[t]]
  {
    assert files[..|files|] == files;
  }

  /** The second loop of `units`: each file appended to its root's list. */
  method GroupByRoot(files: seq<string>, parent: map<string, string>, ghost r: map<string, string>,
                     ghost same: (string, string) -> bool)
    returns (values: seq<seq<string>>)
    requires TotalOrder(StrLe) && Forest(StrLe, parent, r) && Agrees(same, files, r)
    ensures values == Classes(same, files, |files|)
  {
    var keys: seq<string>, groups: map<string, seq<string>> := [], map[];
    for i := 0 to |files|
      invariant Grouped(same, files, r, i, keys, groups)
    {
      var k := FindRoot(StrLe, parent, r, files[i]);
      ghost var keys0, groups0 := keys, groups;
      if k in groups {
        groups := groups[k := groups[k] + [files[i]]];
      } else {
        keys, groups := keys + [k], groups[k := [files[i]]];
      }
      GroupedStep(same, files, r, i, keys0, groups0, keys, groups);
    }
    GroupedAll(same, files, r, keys, groups);
    values := seq(|keys|, t requires 0 <= t < |keys| => groups[keys[t]]);
  }

  /** `units`: the components of the "one path contains the other" graph, sorted. */
  method Units(lower: string -> string, files: seq<string>) returns (groups: seq<seq<string>>)
    ensures groups == UnitsOf(lower, files)
  {
    StrOrder();
    var parent, r := MergeAll(StrLe, lower, files);
    AllMerged(lower, files, r);
    RootsAgree(lower, files, r);
    var values := GroupByRoot(files, parent, r, (a, b) => Connected(lower, files, a, b));
    groups := SortBy(ListLe, values);
  }

  // ----- what the groups are ---------------------------------------------------------

  ghost predicate Equivalence(same: (string, string) -> bool, files: seq<string>) {
    && (forall a :: a in files ==> same(a, a))
    && (forall a, b :: a in files && b in files && same(a, b) ==> same(b, a))
    && (forall a, b, c :: a in files && b in files && c in files && same(a, b) && same(b, c) ==> same(a, c))
  }

  lemma {:induction false} ConnectedIsEquivalence(lower: string -> string, files: seq<string>)
    ensures Equivalence((a, b) => Connected(lower, files, a, b), files)
  {
    forall a | a in files
      ensures Connected(lower, files, a, a)
    {
      ConnectedSelf(lower, files, a);
    }
    forall a, b | Connected(lower, files, a, b)
      ensures Connected(lower, files, b, a)
    {
      ConnectedSymmetric(lower, files, a, b);
    }
    forall a, b, c | Connected(lower, files, a, b) && Connected(lower, files, b, c)
      ensures Connected(lower, files, a, c)
    {
      ConnectedTransitive(lower, files, a, b, c);
    }
  }

  /** No element of `u` is related to an element of `v`. */
  ghost predicate Apart(same: (string, string) -> bool, u: seq<string>, v: seq<string>) {
    forall a, b :: a in u && b in v ==> !same(a, b) && !same(b, a)
  }

  ghost predicate Separated(same: (string, string) -> bool, s: seq<seq<string>>) {
    forall i, j :: 0 <= i < |s| && 0 <= j < |s| && i != j ==> Apart(same, s[i], s[j])
  }

  ghost predicate IsClass(same: (string, string) -> bool, files: seq<string>, u: seq<string>) {
    exists x :: x in files && u == ClassOf(same, files, x)
  }

  ghost predicate AllClasses(same: (string, string) -> bool, files: seq<string>, s: seq<seq<string>>) {
    forall t :: 0 <= t < |s| ==> IsClass(same, files, s[t])
  }

  ghost predicate InSome(s: seq<seq<string>>, f: string) {
    exists t :: 0 <= t < |s| && f in s[t]
  }

  lemma {:induction false} ClassesAreClasses(same: (string, string) -> bool, files: seq<string>, n: nat)
    requires n <= |files|
    ensures AllClasses(same, files, Classes(same, files, n))
  {
    if n > 0 {
      ClassesAreClasses(same, files, n - 1);
      assert files[n - 1] in files;
    }
  }

  /** A class holding a member of `x`'s class holds `x`. */
  lemma {:induction false} ClassHolds(same: (string, string) -> bool, files: seq<string>, u: seq<string>, h: string, x: string)
    requires Equivalence(same, files) && h in files && x in files && IsClass(same, files, u) && h in u
    ensures same(h, x) <==> x in u
  {
    var y :| y in files && u == ClassOf(same, files, y);
    assert same(y, h) && same(h, y);
  }

  lemma {:induction false} ClassesCover(same: (string, string) -> bool, files: seq<string>, n: nat)
    requires Equivalence(same, files) && n <= |files|
    ensures forall h :: 0 <= h < n ==> InSome(Classes(same, files, n), files[h])
  {
    if n > 0 {
      ClassesCover(same, files, n - 1);
      forall h | 0 <= h < n
        ensures InSome(Classes(same, files, n), files[h])
      {
        CoverStep(same, files, n, h);
      }
    }
  }

  lemma {:induction false} CoverStep(same: (string, string) -> bool, files: seq<string>, n: nat, h: nat)
    requires Equivalence(same, files) && h < n <= |files|
    requires forall g :: 0 <= g < n - 1 ==> InSome(Classes(same, files, n - 1), files[g])
    ensures InSome(Classes(same, files, n), files[h])
  {
    var s, s', x := Classes(same, files, n - 1), Classes(same, files, n), files[n - 1];
    if h < n - 1 {
      assert InSome(s, files[h]);
      var t :| 0 <= t < |s| && files[h] in s[t];
      assert s'[t] == s[t];
    } else if SeenBefore(same, files, n - 1) {
      var g :| 0 <= g < n - 1 && same(files[g], x);
      assert InSome(s, files[g]);
      var t :| 0 <= t < |s| && files[g] in s[t];
      ClassesAreClasses(same, files, n - 1);
      ClassHolds(same, files, s[t], files[g], x);
    } else {
      assert same(x, x) && x in s'[|s|];
    }
  }

  /** Each class was opened by a file met so far. */
  ghost predicate OpenedBy(files: seq<string>, n: nat, u: seq<string>)
    requires n <= |files|
  {
    exists h :: 0 <= h < n && files[h] in u
  }

  lemma {:induction false} ClassesOpened(same: (string, string) -> bool, files: seq<string>, n: nat)
    requires Equivalence(same, files) && n <= |files|
    ensures forall t :: 0 <= t < |Classes(same, files, n)| ==> OpenedBy(files, n, Classes(same, files, n)[t])
  {
    if n > 0 {
      var s, s' := Classes(same, files, n - 1), Classes(same, files, n);
      ClassesOpened(same, files, n - 1);
      forall t | 0 <= t < |s'|
        ensures OpenedBy(files, n, s'[t])
      {
        if t < |s| {
          assert OpenedBy(files, n - 1, s[t]);
        } else {
          assert files[n - 1] in s'[t];
        }
      }
    }
  }

  lemma {:induction false} ClassesSeparated(same: (string, string) -> bool, files: seq<string>, n: nat)
    requires Equivalence(same, files) && n <= |files|
    ensures Separated(same, Classes(same, files, n))
  {
    if n > 0 {
      var s, x := Classes(same, files, n - 1), files[n - 1];
      ClassesSeparated(same, files, n - 1);
      if !SeenBefore(same, files, n - 1) {
        ClassesOpened(same, files, n - 1);
        ClassesAreClasses(same, files, n - 1);
        forall t | 0 <= t < |s|
          ensures Apart(same, s[t], ClassOf(same, files, x)) && Apart(same, ClassOf(same, files, x), s[t])
        {
          assert OpenedBy(files, n - 1, s[t]);
          var h :| 0 <= h < n - 1 && files[h] in s[t];
          UnrelatedClasses(same, files, s[t], files[h], x);
        }
      }
    }
  }

  lemma {:induction false} UnrelatedClasses(same: (string, string) -> bool, files: seq<string>, u: seq<string>,
                                            h: string, x: string)
    requires Equivalence(same, files) && h in files && x in files && h in u && !same(h, x)
    requires IsClass(same, files, u)
    ensures Apart(same, u, ClassOf(same, files, x))
  {
    var y :| y in files && u == ClassOf(same, files, y);
    forall a, b | a in u && b in ClassOf(same, files, x)
      ensures !same(a, b) && !same(b, a)
    {
      assert same(y, h) && same(h, y) && same(y, a) && same(h, a) && same(x, b) && same(b, x);
      assert same(b, a) ==> same(a, b);
      assert same(a, b) ==> same(h, b);
      assert same(h, b) ==> same(h, x);
    }
  }

  lemma {:induction false} SelectCount(files: seq<string>, keep: string -> bool, f: string)
    ensures multiset(Select(files, keep))[f] == if keep(f) then multiset(files)[f] else 0
  {
    if files != [] {
      SelectCount(files[..|files| - 1], keep, f);
      assert files == files[..|files| - 1] + [files[|files| - 1]];
    }
  }

  lemma {:induction false} ClassCount(same: (string, string) -> bool, files: seq<string>, u: seq<string>, f: string)
    requires IsClass(same, files, u)
    ensures multiset(u)[f] == if f in u then multiset(files)[f] else 0
  {
    var x :| x in files && u == ClassOf(same, files, x);
    SelectCount(files, g => same(x, g), f);
    assert f in u <==> multiset(u)[f] > 0;
  }

  lemma {:induction false} LastHolds(same: (string, string) -> bool, s: seq<seq<string>>, f: string)
    requires Separated(same, s) && s != [] && same(f, f)
    ensures f in s[|s| - 1] ==> InSome(s, f) && !InSome(s[..|s| - 1], f)
    ensures f !in s[|s| - 1] ==> (InSome(s, f) <==> InSome(s[..|s| - 1], f))
  {
    if f in s[|s| - 1] {
      forall t | 0 <= t < |s| - 1
        ensures f !in s[t]
      {
        assert Apart(same, s[t], s[|s| - 1]);
      }
    }
    if InSome(s[..|s| - 1], f) {
      var t :| 0 <= t < |s| - 1 && f in s[..|s| - 1][t];
      assert f in s[t];
    }
    if f !in s[|s| - 1] && InSome(s, f) {
      var t :| 0 <= t < |s| && f in s[t];
      assert f in s[..|s| - 1][t];
    }
  }

  /** A file is counted in the flattened classes as often as in the file list. */
  lemma {:induction false} ClassesCount(same: (string, string) -> bool, files: seq<string>, s: seq<seq<string>>, f: string)
    requires same(f, f) && Separated(same, s) && AllClasses(same, files, s)
    ensures multiset(Flatten(s))[f] == if InSome(s, f) then multiset(files)[f] else 0
  {
    if s != [] {
      ClassesCount(same, files, s[..|s| - 1], f);
      ClassCount(same, files, s[|s| - 1], f);
      LastHolds(same, s, f);
    }
  }

  lemma {:induction false} ClassesWithin(same: (string, string) -> bool, files: seq<string>, s: seq<seq<string>>, f: string)
    requires AllClasses(same, files, s)
    ensures f in Flatten(s) ==> f in files
  {
    InFlatten(s, f);
    if f in Flatten(s) {
      var t :| 0 <= t < |s| && f in s[t];
      assert IsClass(same, files, s[t]);
    }
  }

  lemma {:induction false} ClassesCountAll(same: (string, string) -> bool, files: seq<string>, s: seq<seq<string>>, f: string)
    requires Equivalence(same, files) && s == Classes(same, files, |files|)
    ensures multiset(Flatten(s))[f] == multiset(files)[f]
  {
    ClassesSeparated(same, files, |files|);
    ClassesAreClasses(same, files, |files|);
    if f in files {
      ClassesCover(same, files, |files|);
      var h :| 0 <= h < |files| && files[h] == f;
      assert InSome(s, files[h]);
      ClassesCount(same, files, s, f);
    } else {
      ClassesWithin(same, files, s, f);
      assert f in Flatten(s) <==> f in multiset(Flatten(s));
      assert f in files <==> f in multiset(files);
    }
  }

  lemma {:induction false} ClassesPartition(same: (string, string) -> bool, files: seq<string>)
    requires Equivalence(same, files)
    ensures multiset(Flatten(Classes(same, files, |files|))) == multiset(files)
  {
    var s := Classes(same, files, |files|);
    forall f
      ensures multiset(Flatten(s))[f] == multiset(files)[f]
    {
      ClassesCountAll(same, files, s, f);
    }
  }

  lemma {:induction false} PermutedSeparated(same: (string, string) -> bool, s: seq<seq<string>>, t: seq<seq<string>>)
    requires Separated(same, s) && multiset(s) == multiset(t)
    ensures Separated(same, t)
  {
    forall i, j | 0 <= i < |t| && 0 <= j < |t| && i != j
      ensures Apart(same, t[i], t[j])
    {
      var i', j' := PermutedPair(t, s, i, j);
    }
  }

  lemma {:induction false} ClassIsRelated(same: (string, string) -> bool, files: seq<string>, u: seq<string>)
    requires Equivalence(same, files) && IsClass(same, files, u)
    ensures u != []
    ensures forall a, b :: a in u && b in u ==> same(a, b)
  {
    var x :| x in files && u == ClassOf(same, files, x);
    assert x in u;
    forall a, b | a in u && b in u
      ensures same(a, b)
    {
      assert same(x, a) && same(x, b) && same(a, x);
    }
  }

  /** Two elements share a group exactly when they are related. */
  ghost predicate GroupedBy(same: (string, string) -> bool, groups: seq<seq<string>>) {
    forall i, j, a, b :: 0 <= i < |groups| && 0 <= j < |groups| && a in groups[i] && b in groups[j] ==>
      (i == j <==> same(a, b))
  }

  lemma {:induction false} PermutedClasses(same: (string, string) -> bool, files: seq<string>, groups: seq<seq<string>>)
    requires Equivalence(same, files)
    requires multiset(groups) == multiset(Classes(same, files, |files|))
    ensures multiset(Flatten(groups)) == multiset(files)
    ensures forall i :: 0 <= i < |groups| ==> groups[i] != []
    ensures GroupedBy(same, groups)
  {
    var s := Classes(same, files, |files|);
    ClassesSeparated(same, files, |files|);
    ClassesAreClasses(same, files, |files|);
    ClassesPartition(same, files);
    FlattenPermuted(s, groups);
    PermutedSeparated(same, s, groups);
    forall i | 0 <= i < |groups|
      ensures groups[i] != []
      ensures forall a, b :: a in groups[i] && b in groups[i] ==> same(a, b)
    {
      SameMembers(s, groups, groups[i]);
      var t :| 0 <= t < |s| && s[t] == groups[i];
      ClassIsRelated(same, files, s[t]);
    }
    forall i, j, a, b | 0 <= i < |groups| && 0 <= j < |groups| && a in groups[i] && b in groups[j]
      ensures i == j <==> same(a, b)
    {
      if i != j {
        assert Apart(same, groups[i], groups[j]);
      }
    }
  }

  /** However the groups are reordered, they hold every file once, none is empty, and
      two files share a group exactly when they are in one component. */
  lemma {:induction false} UnitsAreComponents(lower: string -> string, files: seq<string>, groups: seq<seq<string>>)
    requires multiset(groups) == multiset(UnitsOf(lower, files))
    ensures multiset(Flatten(groups)) == multiset(files)
    ensures forall i :: 0 <= i < |groups| ==> groups[i] != []
    ensures GroupedBy((a, b) => Connected(lower, files, a, b), groups)
  {
    ConnectedIsEquivalence(lower, files);
    PermutedClasses((a, b) => Connected(lower, files, a, b), files, groups);
  }
}
