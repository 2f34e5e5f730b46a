/** The reachability worklists of scripts/gstack_packaging_measure.py: the files a skill
    reaches and the packages they need. Reading files, finding references in text and reading
    manifests are functions of the site. */
module Closure {
  import opened Common

  // ----- the file graph -----------------------------------------------------------------

  /** `refs` is what a file's text names, `hasText` whether it has any; `skills` are the offered
      skills, `others` the directories of the rest, each with its slash. */
  datatype Site = Site(files: set<string>, hasText: string -> bool, refs: string -> seq<string>,
                       packages: string -> set<string>, skills: set<string>, others: seq<string>,
                       top: string -> string)

  const INSTALL_ONLY: seq<string> :=
    ["setup", "setup.ps1", "bin/gstack-upgrade", "gstack-upgrade/", "test/",
     "bin/gstack-relink", "scripts/gen-skill-docs.ts", "scripts/resolvers/",
     "bin/gstack-capy-install", "capy/", "bin/gstack-doctor"]

  predicate StartsWithAny(s: string, prefixes: seq<string>) {
    exists i :: 0 <= i < |prefixes| && prefixes[i] <= s
  }

  predicate EndsWith(s: string, suffix: string) {
    |suffix| <= |s| && s[|s| - |suffix|..] == suffix
  }

  /** `_cut`. */
  predicate Cut(site: Site, rel: string) {
    EndsWith(rel, ".tmpl") || StartsWithAny(rel, INSTALL_ONLY)
    || (EndsWith(rel, ".md") && StartsWithAny(rel, site.others))
  }

  /** `path.suffix == ".md"`: a bare `.md` has no suffix. */
  predicate IsMarkdown(path: string) {
    EndsWith(path, ".md") && |path| > 3 && path[|path| - 4] != '/'
  }

  /** `_is_leaf`. */
  predicate IsLeaf(site: Site, path: string) {
    IsMarkdown(path) && site.top(path) !in site.skills
  }

  lemma {:induction false} EndsExactly(s: string, suffix: string)
    ensures EndsWith(s, suffix) <==> exists stem :: s == stem + suffix
  {
    if EndsWith(s, suffix) {
      assert s == s[..|s| - |suffix|] + suffix;
    }
    if stem :| s == stem + suffix {
      assert s[|s| - |suffix|..] == suffix;
    }
  }

  lemma {:induction false} StartsExactly(s: string, prefixes: seq<string>)
    ensures StartsWithAny(s, prefixes) <==> exists p :: p in prefixes && p <= s
  {
    if i :| 0 <= i < |prefixes| && prefixes[i] <= s {
      assert prefixes[i] in prefixes;
    }
    if p :| p in prefixes && p <= s {
      var i :| 0 <= i < |prefixes| && prefixes[i] == p;
      assert prefixes[i] <= s;
    }
  }

  /** The paths that only an install runs. */
  predicate OnlyInstalls(p: string) {
    p in {"setup", "setup.ps1", "bin/gstack-upgrade", "gstack-upgrade/", "test/", "bin/gstack-relink",
          "scripts/gen-skill-docs.ts", "scripts/resolvers/", "bin/gstack-capy-install", "capy/", "bin/gstack-doctor"}
  }

  lemma {:induction false} InstallOnlyExactly(p: string)
    ensures p in INSTALL_ONLY <==> OnlyInstalls(p)
  {
    assert INSTALL_ONLY[0] == "setup" && INSTALL_ONLY[1] == "setup.ps1" && INSTALL_ONLY[2] == "bin/gstack-upgrade"
        && INSTALL_ONLY[3] == "gstack-upgrade/" && INSTALL_ONLY[4] == "test/" && INSTALL_ONLY[5] == "bin/gstack-relink"
        && INSTALL_ONLY[6] == "scripts/gen-skill-docs.ts" && INSTALL_ONLY[7] == "scripts/resolvers/"
        && INSTALL_ONLY[8] == "bin/gstack-capy-install" && INSTALL_ONLY[9] == "capy/" && INSTALL_ONLY[10] == "bin/gstack-doctor";
  }

  /** What the walk stops at: a template, what only an install runs, and a page of a skill that
      is not offered. */
  lemma {:induction false} CutExactly(site: Site, rel: string)
    ensures Cut(site, rel)
       <==> (exists stem :: rel == stem + ".tmpl")
            || (exists p :: OnlyInstalls(p) && p <= rel)
            || ((exists stem :: rel == stem + ".md") && exists dir :: dir in site.others && dir <= rel)
  {
    EndsExactly(rel, ".tmpl");
    EndsExactly(rel, ".md");
    StartsExactly(rel, INSTALL_ONLY);
    StartsExactly(rel, site.others);
    forall p
      ensures p in INSTALL_ONLY <==> OnlyInstalls(p)
    {
      InstallOnlyExactly(p);
    }
  }

  /** Kept but not followed: a named markdown page outside the offered skills. */
  lemma {:induction false} LeafExactly(site: Site, path: string)
    ensures IsLeaf(site, path)
       <==> site.top(path) !in site.skills && exists stem :: path == stem + ".md" && stem != "" && stem[|stem| - 1] != '/'
  {
    EndsExactly(path, ".md");
    if IsMarkdown(path) {
      var stem := path[..|path| - 3];
      assert path == stem + ".md" && stem[|stem| - 1] == path[|path| - 4];
    }
    if stem :| path == stem + ".md" && stem != "" && stem[|stem| - 1] != '/' {
      assert path[|path| - 4] == stem[|stem| - 1];
    }
  }

  /** The walk looks into the file. */
  predicate Follows(site: Site, f: string) {
    site.hasText(f) && !IsLeaf(site, f)
  }

  /** The walk goes from f to t. */
  predicate Edge(site: Site, f: string, t: string) {
    Follows(site, f) && t in site.refs(f) && !Cut(site, t)
  }

  /** References stay inside the site. */
  ghost predicate Inside(site: Site) {
    forall f, t :: f in site.files && t in site.refs(f) ==> t in site.files
  }

  // ----- least closed sets --------------------------------------------------------------

  ghost predicate Closed(site: Site, own: set<string>, s: set<string>) {
    own <= s && forall f, t :: f in s && Edge(site, f, t) ==> t in s
  }

  /** s is closed and inside every closed set. */
  ghost predicate IsLeast(site: Site, own: set<string>, s: set<string>) {
    Closed(site, own, s) && forall t {:trigger Closed(site, own, t)} :: Closed(site, own, t) ==> s <= t
  }

  /** There is only one, so the order of the walk cannot matter. */
  lemma {:induction false} LeastIsUnique(site: Site, own: set<string>, s: set<string>, t: set<string>)
    requires IsLeast(site, own, s) && IsLeast(site, own, t)
    ensures s == t
  {
  }

  /** What several skills reach together is what each reaches, taken together, and nothing else. */
  lemma {:induction false} UnionIsLeast(site: Site, own1: set<string>, own2: set<string>, s1: set<string>, s2: set<string>)
    requires IsLeast(site, own1, s1) && IsLeast(site, own2, s2)
    ensures IsLeast(site, own1 + own2, s1 + s2)
    ensures forall u :: IsLeast(site, own1 + own2, u) ==> u == s1 + s2
  {
    forall t | Closed(site, own1 + own2, t)
      ensures s1 + s2 <= t
    {
      assert Closed(site, own1, t) && Closed(site, own2, t);
    }
    forall u | IsLeast(site, own1 + own2, u)
      ensures u == s1 + s2
    {
      LeastIsUnique(site, own1 + own2, u, s1 + s2);
    }
  }

  // ----- provenance ---------------------------------------------------------------------

  type Parents = map<string, Option<string>>

  /** A file's parent is a scanned file that names it; a file without one is the skill's own. */
  ghost predicate HasOrigin(site: Site, own: set<string>, seen: set<string>, parent: Parents, rank: map<string, nat>, f: string) {
    f in parent && f in rank
    && if parent[f].None? then f in own
       else var p := parent[f].value;
            p in seen && p in rank && rank[p] < rank[f] && Edge(site, p, f)
  }

  /** Every reached file has an origin; `rank` shows that parent links never come round. */
  ghost predicate Provenance(site: Site, own: set<string>, seen: set<string>, parent: Parents, rank: map<string, nat>) {
    forall f :: f in seen ==> HasOrigin(site, own, seen, parent, rank, f)
  }

  /** The parent links from f to one of the skill's own files, read from f. */
  ghost function Ancestry(site: Site, own: set<string>, seen: set<string>, parent: Parents, rank: map<string, nat>, f: string): (chain: seq<string>)
    requires Provenance(site, own, seen, parent, rank) && f in seen
    ensures chain != [] && chain[0] == f && chain[|chain| - 1] in own
    ensures forall i :: 0 <= i < |chain| ==> chain[i] in seen
    ensures forall i :: 0 <= i < |chain| - 1 ==> Edge(site, chain[i + 1], chain[i])
    decreases if f in rank then rank[f] else 0
  {
    assert HasOrigin(site, own, seen, parent, rank, f);
    if parent[f].None? then [f]
    else
      assert HasOrigin(site, own, seen, parent, rank, parent[f].value);
      [f] + Ancestry(site, own, seen, parent, rank, parent[f].value)
  }

  /** `_chain`: at most twelve links. */
  function Chain(parent: Parents, node: Option<string>, room: nat): seq<string>
    decreases room
  {
    if node.None? || room == 0 then []
    else [node.value] + Chain(parent, if node.value in parent then parent[node.value] else None, room - 1)
  }

  /** The reported chain goes from the file along real references towards the skill's own
      files; one shorter than the limit ends there. */
  lemma {:induction false} ChainLeadsBack(site: Site, own: set<string>, seen: set<string>, parent: Parents, rank: map<string, nat>,
                                          f: string, room: nat)
    requires Provenance(site, own, seen, parent, rank) && f in seen && room > 0
    ensures var c := Chain(parent, Some(f), room);
            0 < |c| <= room && c[0] == f && (forall i :: 0 <= i < |c| - 1 ==> Edge(site, c[i + 1], c[i]))
            && (|c| < room ==> c[|c| - 1] in own)
    decreases room
  {
    assert HasOrigin(site, own, seen, parent, rank, f);
    if parent[f].None? || room == 1 {
      assert Chain(parent, parent[f], room - 1) == [];
    } else {
      ChainLeadsBack(site, own, seen, parent, rank, parent[f].value, room - 1);
      LinkFirst(site, f, Chain(parent, parent[f], room - 1));
    }
  }

  lemma {:induction false} LinkFirst(site: Site, f: string, rest: seq<string>)
    requires rest != [] && Edge(site, rest[0], f) && forall i :: 0 <= i < |rest| - 1 ==> Edge(site, rest[i + 1], rest[i])
    ensures var c := [f] + rest;
            c[0] == f && c[|c| - 1] == rest[|rest| - 1] && forall i :: 0 <= i < |c| - 1 ==> Edge(site, c[i + 1], c[i])
  {
    var c := [f] + rest;
    forall i | 0 <= i < |c| - 1
      ensures Edge(site, c[i + 1], c[i])
    {
      assert c[i + 1] == rest[i] && (i > 0 ==> c[i] == rest[i - 1]);
    }
  }

  // ----- the walk -----------------------------------------------------------------------

  /** The references the walk stopped at. */
  ghost predicate IsCutEdge(site: Site, seen: set<string>, f: string, t: string) {
    f in seen && Follows(site, f) && t in site.refs(f) && Cut(site, t)
  }

  ghost predicate IsNeeded(site: Site, seen: set<string>, name: string) {
    exists f :: f in seen && Follows(site, f) && name in site.packages(f)
  }

  ghost predicate PackagesAre(site: Site, seen: set<string>, packages: set<string>) {
    forall name :: name in packages <==> IsNeeded(site, seen, name)
  }

  /** Only real stops are reported, and all but those at files reached otherwise. */
  ghost predicate CutsAre(site: Site, seen: set<string>, cut: set<(string, string)>) {
    (forall f, t :: (f, t) in cut ==> IsCutEdge(site, seen, f, t))
    && forall f, t :: IsCutEdge(site, seen, f, t) && t !in seen ==> (f, t) in cut
  }

  /** Everything a scanned file leads to has been put on the list. */
  ghost predicate Scanned(site: Site, seen: set<string>, listed: set<string>, f: string) {
    forall t :: Edge(site, f, t) ==> t in seen || t in listed
  }

  /** Nothing is listed that some closed set leaves out. */
  ghost predicate WithinClosed(site: Site, own: set<string>, s: set<string>) {
    forall t {:trigger Closed(site, own, t)} :: Closed(site, own, t) ==> s <= t
  }

  function Elements(s: seq<string>): set<string> {
    set x | x in s
  }

  /** What the walk keeps: all within every closed set, everything scanned leads on the list,
      everything listed has an origin. `open` are the files being scanned. */
  ghost predicate Walking(site: Site, own: set<string>, seen: set<string>, listed: set<string>, open: set<string>,
                          parent: Parents, rank: map<string, nat>, clock: nat)
  {
    own <= seen + listed <= site.files
    && WithinClosed(site, own, seen + listed)
    && (forall f :: f in seen && f !in open ==> Scanned(site, seen, listed, f))
    && (forall f :: f in seen + listed ==> HasOrigin(site, own, seen, parent, rank, f))
    && (forall f :: f in rank ==> rank[f] < clock)
    && parent.Keys == rank.Keys == seen + listed
  }

  lemma {:induction false} WalkedIsLeast(site: Site, own: set<string>, seen: set<string>, parent: Parents, rank: map<string, nat>, clock: nat)
    requires Walking(site, own, seen, {}, {}, parent, rank, clock)
    ensures IsLeast(site, own, seen) && Provenance(site, own, seen, parent, rank)
  {
    assert seen + {} == seen;
    forall f, t | f in seen && Edge(site, f, t)
      ensures t in seen
    {
      assert Scanned(site, seen, {}, f);
    }
  }

  /** Popping a file, seen before or not. */
  lemma {:induction false} Popped(site: Site, own: set<string>, seen: set<string>, listed: set<string>, rest: set<string>,
                                  current: string, parent: Parents, rank: map<string, nat>, clock: nat)
    requires Walking(site, own, seen, listed, {}, parent, rank, clock)
    requires current in listed && listed == rest + {current}
    ensures Walking(site, own, seen + {current}, rest, if current in seen then {} else {current}, parent, rank, clock)
    ensures current in seen ==> Walking(site, own, seen, rest, {}, parent, rank, clock)
  {
    assert current in seen ==> seen + {current} == seen;
    assert seen + {current} + rest == seen + listed;
    forall f | f in seen
      ensures Scanned(site, seen + {current}, rest, f)
    {
      assert Scanned(site, seen, listed, f);
    }
    forall f | f in seen + {current} + rest
      ensures HasOrigin(site, own, seen + {current}, parent, rank, f)
    {
      assert HasOrigin(site, own, seen, parent, rank, f);
    }
  }

  /** Listing a file that the one being scanned leads to; `setdefault` keeps a first parent. */
  lemma {:induction false} Listed(site: Site, own: set<string>, seen: set<string>, listed: set<string>, current: string, t: string,
                                  parent: Parents, rank: map<string, nat>, clock: nat)
    requires Walking(site, own, seen, listed, {current}, parent, rank, clock)
    requires Inside(site) && current in seen && Edge(site, current, t)
    ensures Walking(site, own, seen, listed + {t}, {current},
                    if t in parent then parent else parent[t := Some(current)],
                    if t in rank then rank else rank[t := clock], clock + 1)
  {
    assert t in site.files;
    forall s {:trigger Closed(site, own, s)} | Closed(site, own, s)
      ensures seen + (listed + {t}) <= s
    {
      assert seen + listed <= s;
    }
    forall f | f in seen && f != current
      ensures Scanned(site, seen, listed + {t}, f)
    {
      assert Scanned(site, seen, listed, f);
    }
    assert HasOrigin(site, own, seen, parent, rank, current);
    forall f | f in seen + (listed + {t})
      ensures HasOrigin(site, own, seen, if t in parent then parent else parent[t := Some(current)],
                        if t in rank then rank else rank[t := clock], f)
    {
      assert f in seen + listed ==> HasOrigin(site, own, seen, parent, rank, f);
    }
  }

  lemma {:induction false} ScanDone(site: Site, own: set<string>, seen: set<string>, listed: set<string>, current: string,
                                    parent: Parents, rank: map<string, nat>, clock: nat)
    requires Walking(site, own, seen, listed, {current}, parent, rank, clock)
    requires Scanned(site, seen, listed, current)
    ensures Walking(site, own, seen, listed, {}, parent, rank, clock)
  {
  }

  lemma {:induction false} PackagesGrow(site: Site, seen: set<string>, current: string, packages: set<string>)
    requires PackagesAre(site, seen, packages)
    ensures PackagesAre(site, seen + {current}, if Follows(site, current) then packages + site.packages(current) else packages)
  {
    var after := if Follows(site, current) then packages + site.packages(current) else packages;
    forall name
      ensures name in after <==> IsNeeded(site, seen + {current}, name)
    {
      assert IsNeeded(site, seen, name) <==> name in packages;
      if f :| f in seen && Follows(site, f) && name in site.packages(f) {
        assert f in seen + {current};
      }
      if name in after && name !in packages {
        assert current in seen + {current};
      }
    }
  }

  /** Scanning `current` stops at t. */
  ghost predicate StopsNow(site: Site, seen: set<string>, current: string, f: string, t: string) {
    f == current && Follows(site, current) && t !in seen + {current} && t in site.refs(current) && Cut(site, t)
  }

  lemma {:induction false} CutsGrow(site: Site, seen: set<string>, current: string, before: set<(string, string)>,
                                    after: set<(string, string)>)
    requires CutsAre(site, seen, before)
    requires forall f, t :: (f, t) in after <==> (f, t) in before || StopsNow(site, seen, current, f, t)
    ensures CutsAre(site, seen + {current}, after)
  {
    forall f, t | (f, t) in after
      ensures IsCutEdge(site, seen + {current}, f, t)
    {
      assert (f, t) in before ==> IsCutEdge(site, seen, f, t);
    }
    forall f, t | IsCutEdge(site, seen + {current}, f, t) && t !in seen + {current}
      ensures (f, t) in after
    {
      assert f in seen ==> IsCutEdge(site, seen, f, t);
    }
  }

  lemma {:induction false} WalkBegins(site: Site, own: set<string>, parent: Parents, rank: map<string, nat>)
    requires own <= site.files && parent.Keys == rank.Keys == own
    requires forall f :: f in own ==> parent[f] == None && rank[f] == 0
    ensures Walking(site, own, {}, own, {}, parent, rank, 1)
  {
    assert {} + own == own;
    forall f | f in own
      ensures HasOrigin(site, own, {}, parent, rank, f)
    {
      assert f in parent && f in rank;
    }
  }

  /** The stops among the targets done, on top of those recorded before. */
  ghost predicate CutSoFar(site: Site, seen: set<string>, current: string, cut0: set<(string, string)>,
                           cut: set<(string, string)>, done: set<string>)
  {
    forall f, t :: (f, t) in cut <==> (f, t) in cut0 || (f == current && t !in seen && t in done && Cut(site, t))
  }

  lemma {:induction false} CutOneMore(site: Site, seen: set<string>, current: string, cut0: set<(string, string)>,
                                      cut: set<(string, string)>, done: set<string>, t: string)
    requires CutSoFar(site, seen, current, cut0, cut, done)
    ensures CutSoFar(site, seen, current, cut0, if t !in seen && Cut(site, t) then cut + {(current, t)} else cut, done + {t})
  {
  }

  /** `parent.setdefault(target, current)`. */
  method List(site: Site, ghost own: set<string>, ghost seen: set<string>, ghost listed: set<string>, current: string, t: string,
              parent0: Parents, ghost rank0: map<string, nat>, ghost clock: nat)
    returns (parent: Parents, ghost rank: map<string, nat>)
    requires Walking(site, own, seen, listed, {current}, parent0, rank0, clock)
    requires Inside(site) && current in seen && Edge(site, current, t)
    ensures Walking(site, own, seen, listed + {t}, {current}, parent, rank, clock + 1)
  {
    Listed(site, own, seen, listed, current, t, parent0, rank0, clock);
    parent := if t in parent0 then parent0 else parent0[t := Some(current)];
    rank := if t in rank0 then rank0 else rank0[t := clock];
  }

  /** A target not seen is put on the list. */
  method Push(site: Site, ghost own: set<string>, seen: set<string>, pending0: seq<string>, current: string, t: string,
              parent0: Parents, ghost rank0: map<string, nat>, ghost clock0: nat)
    returns (pending: seq<string>, parent: Parents, ghost rank: map<string, nat>, ghost clock: nat)
    requires Inside(site) && current in seen && Edge(site, current, t)
    requires Walking(site, own, seen, Elements(pending0), {current}, parent0, rank0, clock0)
    ensures Walking(site, own, seen, Elements(pending), {current}, parent, rank, clock)
    ensures Elements(pending) == Elements(pending0) + {t}
  {
    parent, rank := List(site, own, seen, Elements(pending0), current, t, parent0, rank0, clock0);
    pending, clock := pending0 + [t], clock0 + 1;
    assert Elements(pending) == Elements(pending0) + {t};
  }

  /** The `for target in sorted(found - seen)` loop. */
  method Scan(site: Site, ghost own: set<string>, seen: set<string>, pending0: seq<string>, current: string, parent0: Parents,
              ghost rank0: map<string, nat>, ghost clock0: nat, cut0: set<(string, string)>)
    returns (pending: seq<string>, parent: Parents, ghost rank: map<string, nat>, ghost clock: nat, cut: set<(string, string)>)
    requires Inside(site) && current in seen && Follows(site, current)
    requires Walking(site, own, seen, Elements(pending0), {current}, parent0, rank0, clock0)
    ensures Walking(site, own, seen, Elements(pending), {}, parent, rank, clock)
    ensures forall f, t :: (f, t) in cut <==>
              (f, t) in cut0 || (f == current && t !in seen && t in site.refs(current) && Cut(site, t))
  {
    var ts := site.refs(current);
    pending, parent, rank, clock, cut := pending0, parent0, rank0, clock0, cut0;
    var i := 0;
    ghost var done: set<string> := {};
    while i < |ts|
      invariant 0 <= i <= |ts|
      invariant done <= Elements(ts) && forall k :: 0 <= k < i ==> ts[k] in done
      invariant Walking(site, own, seen, Elements(pending), {current}, parent, rank, clock)
      invariant forall t :: t in done && !Cut(site, t) ==> t in seen + Elements(pending)
      invariant CutSoFar(site, seen, current, cut0, cut, done)
    {
      var t := ts[i];
      CutOneMore(site, seen, current, cut0, cut, done, t);
      done := done + {t};
      if t !in seen && Cut(site, t) {
        cut := cut + {(current, t)};
      } else if t !in seen {
        pending, parent, rank, clock := Push(site, own, seen, pending, current, t, parent, rank, clock);
      }
      i := i + 1;
    }
    assert done == Elements(ts);
    ScanDone(site, own, seen, Elements(pending), current, parent, rank, clock);
  }

  /** One turn for a file not seen before. */
  method Visit(site: Site, ghost own: set<string>, seen: set<string>, rest: seq<string>, current: string, parent0: Parents,
               ghost rank0: map<string, nat>, ghost clock0: nat, packages0: set<string>, cut0: set<(string, string)>)
    returns (pending: seq<string>, parent: Parents, ghost rank: map<string, nat>, ghost clock: nat,
             packages: set<string>, cut: set<(string, string)>)
    requires Inside(site) && current !in seen
    requires Walking(site, own, seen + {current}, Elements(rest), {current}, parent0, rank0, clock0)
    requires PackagesAre(site, seen, packages0) && CutsAre(site, seen, cut0)
    ensures Walking(site, own, seen + {current}, Elements(pending), {}, parent, rank, clock)
    ensures PackagesAre(site, seen + {current}, packages) && CutsAre(site, seen + {current}, cut)
  {
    pending, parent, rank, clock, packages, cut := rest, parent0, rank0, clock0, packages0, cut0;
    PackagesGrow(site, seen, current, packages);
    if Follows(site, current) {
      packages := packages + site.packages(current);
      pending, parent, rank, clock, cut := Scan(site, own, seen + {current}, rest, current, parent, rank, clock, cut);
    } else {
      ScanDone(site, own, seen + {current}, Elements(pending), current, parent, rank, clock);
    }
    CutsGrow(site, seen, current, cut0, cut);
  }

  /** The walk of `skill_closure`, for one skill. The source pops the last file; whichever is
      popped, the walk ends with the least closed set. */
  method Walk(site: Site, own: seq<string>)
    returns (seen: set<string>, parent: Parents, packages: set<string>, cut: set<(string, string)>, ghost rank: map<string, nat>)
    requires Inside(site) && Elements(own) <= site.files
    ensures IsLeast(site, Elements(own), seen)
    ensures Provenance(site, Elements(own), seen, parent, rank)
    ensures PackagesAre(site, seen, packages) && CutsAre(site, seen, cut)
  {
    ghost var roots := Elements(own);
    var pending := own;
    parent := map p | p in own :: None;
    rank := map p | p in own :: 0;
    ghost var clock: nat := 1;
    seen, packages, cut := {}, {}, {};
    WalkBegins(site, roots, parent, rank);
    while pending != []
      invariant Walking(site, roots, seen, Elements(pending), {}, parent, rank, clock)
      invariant PackagesAre(site, seen, packages) && CutsAre(site, seen, cut)
      decreases site.files - seen, |pending|
    {
      var k :| 0 <= k < |pending|;
      var current, rest := pending[k], pending[..k] + pending[k + 1..];
      WithoutOne(pending, k);
      Popped(site, roots, seen, Elements(pending), Elements(rest), current, parent, rank, clock);
      if current in seen {
        pending := rest;
      } else {
        pending, parent, rank, clock, packages, cut :=
          Visit(site, roots, seen, rest, current, parent, rank, clock, packages, cut);
        seen := seen + {current};
      }
    }
    assert Elements(pending) == {};
    WalkedIsLeast(site, roots, seen, parent, rank, clock);
  }

  lemma {:induction false} WithoutOne(s: seq<string>, k: nat)
    requires k < |s|
    ensures Elements(s) == Elements(s[..k] + s[k + 1..]) + {s[k]}
  {
    assert s == s[..k] + [s[k]] + s[k + 1..];
  }

  /** No file is reached, beyond the skill's own, that the cut names: no template, nothing only
      an install runs, no page of a skill that is not offered. */
  lemma {:induction false} NothingCutIsReached(site: Site, own: set<string>, s: set<string>, f: string)
    requires IsLeast(site, own, s) && f in s && f !in own
    ensures !Cut(site, f)
  {
    if Cut(site, f) {
      StillClosed(site, own, s, f);
    }
  }

  /** From a reached file with text that is no leaf the walk goes on to all it names but the cut. */
  lemma {:induction false} WalkGoesOn(site: Site, own: set<string>, s: set<string>, f: string, t: string)
    requires IsLeast(site, own, s) && f in s && site.hasText(f) && !IsLeaf(site, f) && t in site.refs(f) && !Cut(site, t)
    ensures t in s
  {
    assert Edge(site, f, t);
  }

  ghost predicate NamedBy(site: Site, g: string, f: string) {
    site.hasText(g) && !IsLeaf(site, g) && f in site.refs(g)
  }

  /** And only so: what is reached beyond the skill's own files is named by another reached file
      with text that is no leaf. */
  lemma {:induction false} ReachedThrough(site: Site, own: set<string>, s: set<string>, f: string)
    requires IsLeast(site, own, s) && f in s && f !in own
    ensures !Cut(site, f) && exists g :: g in s && g != f && NamedBy(site, g, f)
  {
    NothingCutIsReached(site, own, s, f);
    if forall g :: g in s && g != f ==> !NamedBy(site, g, f) {
      UnnamedStillClosed(site, own, s, f);
    }
  }

  lemma {:induction false} UnnamedStillClosed(site: Site, own: set<string>, s: set<string>, f: string)
    requires Closed(site, own, s) && f !in own && forall g :: g in s && g != f ==> !NamedBy(site, g, f)
    ensures Closed(site, own, s - {f})
  {
    forall g, t | g in s - {f} && Edge(site, g, t)
      ensures t in s - {f}
    {
      assert !NamedBy(site, g, f);
    }
  }

  lemma {:induction false} StillClosed(site: Site, own: set<string>, s: set<string>, f: string)
    requires Closed(site, own, s) && f !in own && Cut(site, f)
    ensures Closed(site, own, s - {f})
  {
  }

  // ----- packages -----------------------------------------------------------------------

  /** `deps` are a manifest's dependencies and optional ones; none when it cannot be read. */
  datatype Registry = Registry(names: set<string>, installed: string -> bool, deps: string -> seq<string>)

  ghost predicate NamesInside(reg: Registry) {
    forall f, t :: f in reg.names && t in reg.deps(f) ==> t in reg.names
  }

  ghost predicate ClosedPackages(reg: Registry, roots: set<string>, s: set<string>) {
    (forall n :: n in roots && reg.installed(n) ==> n in s)
    && forall f, t :: f in s && t in reg.deps(f) && reg.installed(t) ==> t in s
  }

  /** A root, or a dependency of a package kept. */
  ghost predicate Named(reg: Registry, roots: set<string>, seen: set<string>, n: string) {
    n in roots || exists f :: f in seen && n in reg.deps(f)
  }

  ghost predicate DepsWithin(reg: Registry, f: string, s: set<string>) {
    forall t :: t in reg.deps(f) ==> t in s
  }

  /** What the package walk keeps; `open` is the package whose dependencies are being listed. */
  ghost predicate Installing(reg: Registry, roots: set<string>, seen: set<string>, absent: set<string>, listed: set<string>,
                             open: set<string>)
  {
    seen + absent + listed <= reg.names
    && (forall n :: n in seen ==> reg.installed(n))
    && (forall n :: n in absent ==> !reg.installed(n))
    && (forall n :: n in seen + absent + listed ==> Named(reg, roots, seen, n))
    && roots <= seen + absent + listed
    && (forall f :: f in seen - open ==> DepsWithin(reg, f, seen + absent + listed))
    && forall s {:trigger ClosedPackages(reg, roots, s)} :: ClosedPackages(reg, roots, s) ==> seen <= s
  }

  lemma {:induction false} NamedIsInClosed(reg: Registry, roots: set<string>, seen: set<string>, n: string, s: set<string>)
    requires Named(reg, roots, seen, n) && reg.installed(n) && ClosedPackages(reg, roots, s) && seen <= s
    ensures n in s
  {
  }

  lemma {:induction false} Install(reg: Registry, roots: set<string>, seen: set<string>, absent: set<string>, listed: set<string>, n: string)
    requires Installing(reg, roots, seen, absent, listed, {}) && n in listed && reg.installed(n)
    ensures Installing(reg, roots, seen + {n}, absent, listed - {n}, {n})
  {
    forall m | m in seen + {n} + absent + (listed - {n})
      ensures Named(reg, roots, seen + {n}, m)
    {
      assert Named(reg, roots, seen, m);
    }
    assert seen + {n} + absent + (listed - {n}) == seen + absent + listed;
    forall s {:trigger ClosedPackages(reg, roots, s)} | ClosedPackages(reg, roots, s)
      ensures seen + {n} <= s
    {
      NamedIsInClosed(reg, roots, seen, n, s);
    }
  }

  lemma {:induction false} ListDependency(reg: Registry, roots: set<string>, seen: set<string>, absent: set<string>,
                                          listed: set<string>, name: string, n: string)
    requires Installing(reg, roots, seen, absent, listed, {name})
    requires NamesInside(reg) && name in seen && n in reg.deps(name)
    ensures Installing(reg, roots, seen, absent, listed + {n}, {name})
  {
    assert name in reg.names;
    assert Named(reg, roots, seen, n);
    forall f | f in seen - {name}
      ensures DepsWithin(reg, f, seen + absent + (listed + {n}))
    {
      assert DepsWithin(reg, f, seen + absent + listed);
    }
  }

  /** The inner loops of `package_closure`. */
  method PushDependencies(reg: Registry, ghost roots: set<string>, seen: set<string>, ghost absent: set<string>, queue0: seq<string>,
                          name: string) returns (queue: seq<string>)
    requires NamesInside(reg) && name in seen && Installing(reg, roots, seen, absent, Elements(queue0), {name})
    ensures Installing(reg, roots, seen, absent, Elements(queue), {})
  {
    queue := queue0;
    var deps := reg.deps(name);
    var i := 0;
    while i < |deps|
      invariant 0 <= i <= |deps|
      invariant Installing(reg, roots, seen, absent, Elements(queue), {name})
      invariant forall k :: 0 <= k < i ==> deps[k] in seen || deps[k] in queue
    {
      if deps[i] !in seen {
        assert Elements(queue + [deps[i]]) == Elements(queue) + {deps[i]};
        ListDependency(reg, roots, seen, absent, Elements(queue), name, deps[i]);
        queue := queue + [deps[i]];
      }
      i := i + 1;
    }
  }

  /** `package_closure`: whatever order the queue is popped in, the least closed set of
      installed packages, and exactly the names that are asked for but not installed. */
  method Packages(reg: Registry, roots: seq<string>) returns (seen: set<string>, absent: set<string>)
    requires NamesInside(reg) && Elements(roots) <= reg.names
    ensures ClosedPackages(reg, Elements(roots), seen) && forall n :: n in seen ==> reg.installed(n)
    ensures forall s {:trigger ClosedPackages(reg, Elements(roots), s)} :: ClosedPackages(reg, Elements(roots), s) ==> seen <= s
    ensures forall n :: n in absent <==> !reg.installed(n) && Named(reg, Elements(roots), seen, n)
  {
    ghost var all := Elements(roots);
    var queue := roots;
    seen, absent := {}, {};
    while queue != []
      invariant Installing(reg, all, seen, absent, Elements(queue), {})
      decreases reg.names - (seen + absent), |queue|
    {
      var k :| 0 <= k < |queue|;
      var name, rest := queue[k], queue[..k] + queue[k + 1..];
      WithoutOne(queue, k);
      if name in seen || name in absent {
        assert seen + absent + Elements(rest) == seen + absent + Elements(queue);
        queue := rest;
      } else if !reg.installed(name) {
        assert seen + (absent + {name}) + Elements(rest) == seen + absent + Elements(queue);
        queue, absent := rest, absent + {name};
      } else {
        Install(reg, all, seen, absent, Elements(queue), name);
        seen := seen + {name};
        assert seen + absent + Elements(rest) == seen + absent + (Elements(queue) - {name});
        queue := PushDependencies(reg, all, seen, absent, rest, name);
      }
    }
    assert Elements(queue) == {};
    AllInstalled(reg, all, seen, absent);
  }

  lemma {:induction false} AllInstalled(reg: Registry, roots: set<string>, seen: set<string>, absent: set<string>)
    requires Installing(reg, roots, seen, absent, {}, {})
    ensures ClosedPackages(reg, roots, seen)
    ensures forall n :: n in absent <==> !reg.installed(n) && Named(reg, roots, seen, n)
  {
    assert seen - {} == seen && seen + absent + {} == seen + absent;
    forall f, t | f in seen && t in reg.deps(f)
      ensures t in seen + absent
    {
      assert DepsWithin(reg, f, seen + absent);
    }
  }
}
