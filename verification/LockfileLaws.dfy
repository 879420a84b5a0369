/** What an accepted lockfile guarantees, and when a freshly written one is
    accepted. */
module LockfileLaws {
  import opened Options
  import opened Paths
  import opened Packages
  import opened Resolver
  import opened Lockfile

  /** A project root as `canonicalize` returns it. */
  predicate RootOk(root: Path) {
    Absolute(root) && ParentDir !in Normalize(root)
  }

  // ----- path edges

  /** The package in `dir` declares a path dependency on `child`. */
  ghost predicate PathDeclares(w: World, dir: Path, child: Path) {
    exists i :: 0 <= i < |Deps(w, dir)| && PathOf(dir, Deps(w, dir)[i].1) == Some(child)
  }

  function PathOf(dir: Path, d: Dependency): Option<Path> {
    match d.path
    case Some(rel) => Some(Normalize(Join(dir, rel)))
    case None => None
  }

  ghost predicate PathChain(w: World, dir: Path, ps: seq<Path>)
    decreases |ps|
  {
    |ps| > 0 ==> PathDeclares(w, dir, ps[0]) && PathChain(w, ps[0], ps[1..])
  }

  /** Path edges alone lead from `dir` to `p`. */
  ghost predicate PathReaches(w: World, dir: Path, p: Path) {
    exists ps :: PathChain(w, dir, ps) && |ps| > 0 && ps[|ps| - 1] == p
  }

  lemma {:induction false} PathChainJoin(w: World, dir: Path, a: seq<Path>, b: seq<Path>)
    requires PathChain(w, dir, a) && PathChain(w, if |a| == 0 then dir else a[|a| - 1], b)
    ensures PathChain(w, dir, a + b)
    decreases |a|
  {
    hide PathDeclares;
    if |a| == 0 {
      assert a + b == b;
    } else {
      PathChainJoin(w, a[0], a[1..], b);
      assert (a + b)[1..] == a[1..] + b && (a + b)[0] == a[0];
    }
  }

  lemma PathReachesDeclared(w: World, dir: Path, p: Path)
    requires PathDeclares(w, dir, p)
    ensures PathReaches(w, dir, p)
  {
    hide PathDeclares;
    assert PathChain(w, p, []);
    assert [p][1..] == [];
    assert PathChain(w, dir, [p]);
  }

  lemma PathReachesOnward(w: World, dir: Path, p: Path, q: Path)
    requires PathReaches(w, dir, p) && PathReaches(w, p, q)
    ensures PathReaches(w, dir, q)
  {
    hide PathChain;
    var a :| PathChain(w, dir, a) && |a| > 0 && a[|a| - 1] == p;
    var b :| PathChain(w, p, b) && |b| > 0 && b[|b| - 1] == q;
    PathChainJoin(w, dir, a, b);
    assert (a + b)[|a + b| - 1] == q;
  }

  lemma {:induction false} AlongPath(w: World, dir: Path, ps: seq<Path>, good: iset<Path>)
    requires PathChain(w, dir, ps) && |ps| > 0
    requires forall p :: PathDeclares(w, dir, p) ==> p in good
    requires forall p, q :: p in good && PathDeclares(w, p, q) ==> q in good
    ensures ps[|ps| - 1] in good
    decreases |ps|
  {
    hide PathDeclares;
    if |ps| > 1 {
      AlongPath(w, ps[0], ps[1..], good);
    }
  }

  // ----- directories

  predicate DirOk(dir: Path) {
    Absolute(dir) && Normalize(dir) == dir
  }

  lemma JoinedOk(dir: Path, rel: Path)
    requires Absolute(dir)
    ensures DirOk(Normalize(Join(dir, rel)))
  {
    hide Normalize, IsNormal;
    NormalizeNormal(Join(dir, rel));
    NormalizeIdempotent(Join(dir, rel));
  }

  lemma PathReachedOk(w: World, dir: Path, p: Path)
    requires Absolute(dir) && PathReaches(w, dir, p)
    ensures DirOk(p)
  {
    hide DirOk, PathChain, PathDeclares;
    var ps :| PathChain(w, dir, ps) && |ps| > 0 && ps[|ps| - 1] == p;
    var good := iset q: Path | DirOk(q);
    forall q | PathDeclares(w, dir, q) ensures q in good {
      DeclaredOk(w, dir, q);
    }
    forall q, r | q in good && PathDeclares(w, q, r) ensures r in good {
      OkAbsolute(q);
      DeclaredOk(w, q, r);
    }
    AlongPath(w, dir, ps, good);
  }

  lemma OkAbsolute(p: Path)
    requires DirOk(p)
    ensures Absolute(p)
  {
  }

  lemma DeclaredOk(w: World, dir: Path, p: Path)
    requires Absolute(dir) && PathDeclares(w, dir, p)
    ensures DirOk(p)
  {
    hide Normalize, DirOk, Deps;
    var i :| 0 <= i < |Deps(w, dir)| && PathOf(dir, Deps(w, dir)[i].1) == Some(p);
    JoinedOk(dir, Deps(w, dir)[i].1.path.value);
  }

  /** Distinct directories are locked with distinct sources. */
  lemma SourceOnce(p: Path, q: Path, root: Path)
    requires RootOk(root) && DirOk(p) && DirOk(q)
    requires SourceOf(PathKey(p), root) == SourceOf(PathKey(q), root)
    ensures p == q
  {
    hide Normalize, RelativeTo;
    RelativeInjective(p, q, root);
  }

  /** A locked path leads back to its directory. */
  lemma SourceLeadsBack(w: World, p: Path, root: Path)
    requires RootOk(root) && DirOk(p)
    ensures Normalize(LocatedAt(w, root, SourceOf(PathKey(p), root))) == p
  {
    hide Normalize, RelativeTo, Join;
    RelativeRoundTrip(p, root);
  }

  // ----- the collected sources

  /** All that `dir` declares over path edges is collected. */
  ghost predicate Done(w: World, root: Path, dir: Path, out: set<Source>) {
    DepsDone(w, root, dir, Deps(w, dir), out)
  }

  ghost predicate DepsDone(w: World, root: Path, dir: Path, deps: seq<(string, Dependency)>, out: set<Source>) {
    forall i :: 0 <= i < |deps| && PathOf(dir, deps[i].1).Some? ==>
      SourceOf(PathKey(PathOf(dir, deps[i].1).value), root) in out
  }

  /** `s` is the source of a package reached from `dir` whose own path
      dependencies are collected. */
  ghost predicate Walked(w: World, root: Path, dir: Path, s: Source, out: set<Source>) {
    exists p :: PathReaches(w, dir, p) && SourceOf(PathKey(p), root) == s && Done(w, root, p, out)
  }

  ghost predicate Collected(w: World, root: Path, dir: Path, out: set<Source>, more: set<Source>) {
    out <= more && forall s :: s in more && s !in out ==> Walked(w, root, dir, s, more)
  }

  /** All sources that path edges reach from the root. */
  ghost predicate CoversPaths(w: World, root: Path, sources: set<Source>) {
    forall p :: PathReaches(w, root, p) ==> SourceOf(PathKey(p), root) in sources
  }

  ghost predicate OnPath(w: World, root: Path, dir: Path) {
    dir == root || PathReaches(w, root, dir)
  }

  /** Where the collecting walk may stand. */
  ghost predicate Treading(w: World, root: Path, dir: Path, out: set<Source>, depth: nat, sources: set<Source>) {
    && OnPath(w, root, dir)
    && depth <= |out| && out <= sources
    && CoversPaths(w, root, sources) && |sources| <= DEPTH_LIMIT
  }

  lemma OnPathOnward(w: World, root: Path, dir: Path, p: Path)
    requires OnPath(w, root, dir) && PathReaches(w, dir, p)
    ensures OnPath(w, root, p) && PathReaches(w, root, p)
  {
    hide PathReaches;
    if dir != root {
      PathReachesOnward(w, root, dir, p);
    }
  }

  lemma DoneStays(w: World, root: Path, dir: Path, deps: seq<(string, Dependency)>, out: set<Source>, more: set<Source>)
    requires DepsDone(w, root, dir, deps, out) && out <= more
    ensures DepsDone(w, root, dir, deps, more)
  {
    hide PathOf, SourceOf;
  }

  lemma WalkedStays(w: World, root: Path, dir: Path, s: Source, out: set<Source>, more: set<Source>)
    requires Walked(w, root, dir, s, out) && out <= more
    ensures Walked(w, root, dir, s, more)
  {
    hide PathReaches, SourceOf, DepsDone;
    var p :| PathReaches(w, dir, p) && SourceOf(PathKey(p), root) == s && Done(w, root, p, out);
    DoneStays(w, root, p, Deps(w, p), out, more);
  }

  lemma CollectedOnward(w: World, root: Path, dir: Path, out: set<Source>, more: set<Source>, most: set<Source>)
    requires Collected(w, root, dir, out, more) && Collected(w, root, dir, more, most)
    ensures Collected(w, root, dir, out, most)
  {
    hide Walked;
    forall s | s in most && s !in out ensures Walked(w, root, dir, s, most) {
      if s in more {
        WalkedStays(w, root, dir, s, more, most);
      }
    }
  }

  /** What is collected below a child is reached through it. */
  lemma CollectedBelow(w: World, root: Path, dir: Path, child: Path, out: set<Source>, more: set<Source>)
    requires PathReaches(w, dir, child) && Done(w, root, child, more)
    requires Collected(w, root, child, out + {SourceOf(PathKey(child), root)}, more)
    ensures Collected(w, root, dir, out, more) && SourceOf(PathKey(child), root) in more
  {
    hide PathReaches, SourceOf, Done;
    var s0 := SourceOf(PathKey(child), root);
    assert s0 in out + {s0};
    forall s | s in more && s !in out ensures Walked(w, root, dir, s, more) {
      if s != s0 {
        var p :| PathReaches(w, child, p) && SourceOf(PathKey(p), root) == s && Done(w, root, p, more);
        PathReachesOnward(w, dir, child, p);
      }
    }
  }

  lemma CoveredHere(w: World, root: Path, dir: Path, out: set<Source>, depth: nat, sources: set<Source>, child: Path)
    requires Treading(w, root, dir, out, depth, sources) && PathReaches(w, dir, child)
    requires SourceOf(PathKey(child), root) !in out
    ensures Treading(w, root, child, out + {SourceOf(PathKey(child), root)}, depth + 1, sources)
  {
    hide PathReaches, SourceOf;
    OnPathOnward(w, root, dir, child);
  }

  lemma TreadingOn(w: World, root: Path, dir: Path, out: set<Source>, more: set<Source>, depth: nat,
      sources: set<Source>)
    requires Treading(w, root, dir, out, depth, sources) && Collected(w, root, dir, out, more)
    ensures Treading(w, root, dir, more, depth, sources)
  {
    hide PathReaches, SourceOf, Done, OnPath;
    forall s | s in more ensures s in sources {
      if s !in out {
        var p :| PathReaches(w, dir, p) && SourceOf(PathKey(p), root) == s && Done(w, root, p, more);
        OnPathOnward(w, root, dir, p);
      }
    }
    SmallerSources(out, more);
  }

  lemma {:induction false} SmallerSources(a: set<Source>, b: set<Source>)
    requires a <= b
    ensures |a| <= |b|
    decreases |a|
  {
    if a != {} {
      var s :| s in a;
      SmallerSources(a - {s}, b - {s});
    }
  }

  lemma {:induction false} CollectGrows(w: World, root: Path, dir: Path, out: set<Source>, depth: nat,
      sources: set<Source>)
    requires Treading(w, root, dir, out, depth, sources) && Collect(w, root, dir, out, depth).Ok?
    ensures Collected(w, root, dir, out, Collect(w, root, dir, out, depth).value)
    ensures Done(w, root, dir, Collect(w, root, dir, out, depth).value)
    decreases Left(depth), 2, 0
  {
    hide Collected, CollectDeps, DepsDone, OnPath, CoversPaths;
    SmallerSources(out, sources);
    CollectDepsGrows(w, root, dir, Deps(w, dir), out, depth, sources);
  }

  lemma {:induction false} CollectDepsGrows(w: World, root: Path, dir: Path, deps: seq<(string, Dependency)>,
      out: set<Source>, depth: nat, sources: set<Source>)
    requires depth <= DEPTH_LIMIT && Treading(w, root, dir, out, depth, sources)
    requires CollectDeps(w, root, dir, deps, out, depth).Ok?
    requires forall d :: d in deps ==> d in Deps(w, dir)
    ensures Collected(w, root, dir, out, CollectDeps(w, root, dir, deps, out, depth).value)
    ensures DepsDone(w, root, dir, deps, CollectDeps(w, root, dir, deps, out, depth).value)
    decreases Left(depth), 1, |deps|
  {
    hide Walked, CollectDep, DepsDone, Deps, Treading;
    if |deps| == 0 {
      NoDepsDone(w, root, dir, out);
      assert deps == [];
    } else {
      var more := CollectDep(w, root, dir, deps[0].1, out, depth).value;
      var most := CollectDeps(w, root, dir, deps, out, depth).value;
      CollectDepGrows(w, root, dir, deps[0], out, depth, sources);
      TreadingOn(w, root, dir, out, more, depth, sources);
      CollectDepsGrows(w, root, dir, deps[1..], more, depth, sources);
      CollectedOnward(w, root, dir, out, more, most);
      DoneStays(w, root, dir, [deps[0]], more, most);
      DoneJoin(w, root, dir, deps, most);
    }
  }

  lemma NoDepsDone(w: World, root: Path, dir: Path, out: set<Source>)
    ensures DepsDone(w, root, dir, [], out)
  {
  }

  lemma DoneJoin(w: World, root: Path, dir: Path, deps: seq<(string, Dependency)>, out: set<Source>)
    requires |deps| > 0 && DepsDone(w, root, dir, [deps[0]], out) && DepsDone(w, root, dir, deps[1..], out)
    ensures DepsDone(w, root, dir, deps, out)
  {
    hide PathOf, SourceOf;
    forall i | 0 <= i < |deps| && PathOf(dir, deps[i].1).Some?
      ensures SourceOf(PathKey(PathOf(dir, deps[i].1).value), root) in out
    {
      if i == 0 {
        assert [deps[0]][0] == deps[0];
      } else {
        assert deps[1..][i - 1] == deps[i];
      }
    }
  }

  lemma {:induction false} CollectDepGrows(w: World, root: Path, dir: Path, d: (string, Dependency),
      out: set<Source>, depth: nat, sources: set<Source>)
    requires depth <= DEPTH_LIMIT && Treading(w, root, dir, out, depth, sources)
    requires CollectDep(w, root, dir, d.1, out, depth).Ok? && d in Deps(w, dir)
    ensures Collected(w, root, dir, out, CollectDep(w, root, dir, d.1, out, depth).value)
    ensures DepsDone(w, root, dir, [d], CollectDep(w, root, dir, d.1, out, depth).value)
    decreases Left(depth), 0, 0
  {
    hide Walked, Collect, Deps, Treading, Normalize, RelativeTo, Done, PathReaches;
    if d.1.path.Some? {
      var child := Normalize(Join(dir, d.1.path.value));
      var s := SourceOf(PathKey(child), root);
      PathDeclaredBy(w, dir, d);
      if s !in out {
        CoveredHere(w, root, dir, out, depth, sources, child);
        CollectGrows(w, root, child, out + {s}, depth + 1, sources);
        CollectedBelow(w, root, dir, child, out, Collect(w, root, child, out + {s}, depth + 1).value);
      }
    }
  }

  lemma PathDeclaredBy(w: World, dir: Path, d: (string, Dependency))
    requires d in Deps(w, dir) && PathOf(dir, d.1).Some?
    ensures PathDeclares(w, dir, PathOf(dir, d.1).value) && PathReaches(w, dir, PathOf(dir, d.1).value)
  {
    hide PathOf;
    var i :| 0 <= i < |Deps(w, dir)| && Deps(w, dir)[i] == d;
    PathReachesDeclared(w, dir, PathOf(dir, d.1).value);
  }

  /** With at most 32 path packages, the check's own walk finds exactly those
      that path edges reach. */
  lemma CollectExactly(w: World, root: Path, sources: set<Source>, s: Source)
    requires RootOk(root) && CoversPaths(w, root, sources) && |sources| <= DEPTH_LIMIT
    requires Collect(w, root, root, {}, 0).Ok?
    ensures s in Collect(w, root, root, {}, 0).value <==>
      exists p :: PathReaches(w, root, p) && SourceOf(PathKey(p), root) == s
  {
    hide Collect, CoversPaths, PathReaches, RootOk, Done, SourceOf;
    CollectGrows(w, root, root, {}, 0, sources);
    var out := Collect(w, root, root, {}, 0).value;
    forall p | PathReaches(w, root, p) && SourceOf(PathKey(p), root) == s ensures s in out {
      ReachedCollected(w, root, out, p);
    }
  }

  lemma ReachedCollected(w: World, root: Path, out: set<Source>, p: Path)
    requires RootOk(root) && Done(w, root, root, out) && PathReaches(w, root, p)
    requires forall s :: s in out ==> Walked(w, root, root, s, out)
    ensures SourceOf(PathKey(p), root) in out
  {
    hide PathChain, PathDeclares, Walked, SourceOf, Done, RootOk;
    var ps :| PathChain(w, root, ps) && |ps| > 0 && ps[|ps| - 1] == p;
    var good := iset q: Path | PathReaches(w, root, q) && SourceOf(PathKey(q), root) in out;
    forall q | PathDeclares(w, root, q) ensures q in good {
      PathReachesDeclared(w, root, q);
      DeclaredCollected(w, root, root, out, q);
    }
    forall q, r | q in good && PathDeclares(w, q, r) ensures r in good {
      PathReachesDeclared(w, q, r);
      PathReachesOnward(w, root, q, r);
      CollectedDone(w, root, out, q);
      DeclaredCollected(w, root, q, out, r);
    }
    AlongPath(w, root, ps, good);
  }

  lemma CollectedDone(w: World, root: Path, out: set<Source>, q: Path)
    requires RootOk(root) && PathReaches(w, root, q) && Walked(w, root, root, SourceOf(PathKey(q), root), out)
    ensures Done(w, root, q, out)
  {
    hide SourceOf, Done, PathReaches, DirOk;
    var p :| PathReaches(w, root, p) && SourceOf(PathKey(p), root) == SourceOf(PathKey(q), root)
      && Done(w, root, p, out);
    PathReachedOk(w, root, p);
    PathReachedOk(w, root, q);
    SourceOnce(p, q, root);
  }

  lemma DeclaredCollected(w: World, root: Path, dir: Path, out: set<Source>, p: Path)
    requires Done(w, root, dir, out) && PathDeclares(w, dir, p)
    ensures SourceOf(PathKey(p), root) in out
  {
    hide SourceOf, PathOf, Deps;
    var i :| 0 <= i < |Deps(w, dir)| && PathOf(dir, Deps(w, dir)[i].1) == Some(p);
  }
}
