/** The two main results about lockfiles: what acceptance means, and that a
    freshly written lockfile is accepted exactly under two conditions. */
module LockfileSuccess {
  import opened Options
  import opened Paths
  import opened Packages
  import opened Resolver
  import opened ResolverLaws
  import opened ResolverMeaning
  import opened Lockfile
  import opened LockfileLaws

  // ----- acceptance

  /** The locked package agrees with the dependency in name and constraint: a
      pinned revision is locked with no branch, a branch under its own name. */
  predicate Pins(p: Package, d: (string, Dependency)) {
    && p.name == d.0
    && (d.1.git.Some? && d.1.rev.Some? ==> p.rev == d.1.rev && p.branch == None)
    && (d.1.git.Some? && d.1.branch.Some? ==> p.branch == d.1.branch)
  }

  /** An accepted lockfile lists exactly the path packages that path edges
      reach, and every direct dependency with its source, name and constraint. */
  lemma AcceptanceMeans(w: World, root: Path, lf: seq<Package>, sources: set<Source>, s: Source, i: nat)
    requires Lawful(w) && RootOk(root) && CoversPaths(w, root, sources) && |sources| <= DEPTH_LIMIT
    requires Accepts(w, root, lf)
    ensures s in LockedPaths(lf) <==> exists p :: PathReaches(w, root, p) && SourceOf(PathKey(p), root) == s
    ensures i < |Deps(w, root)| ==>
      exists p :: p in lf && Some(p.source) == Expected(root, Deps(w, root)[i].1) && Pins(p, Deps(w, root)[i])
  {
    hide Lawful, RootOk, CoversPaths, PathReaches, SourceOf, Collect, Load, Deps, PresentOk, LockedPaths;
    CollectExactly(w, root, sources, s);
    if i < |Deps(w, root)| {
      ValidatedDep(w, root, i);
      assert DirectOk(w, root, lf, Deps(w, root)[i]);
      DirectPinned(w, root, lf, Deps(w, root)[i]);
    }
  }

  /** A direct dependency passes exactly when the first package locked with its
      source has its name, its revision if it names one, its branch if it names
      one and none if it names a revision alone, and a path leads to a package
      of that name. */
  lemma DirectMeans(w: World, root: Path, lf: seq<Package>, d: (string, Dependency))
    ensures DirectOk(w, root, lf, d) <==>
      (d.1.path.Some? || d.1.git.Some? ==>
         exists i: nat :: FirstAt(lf, SourceFor(root, d.1), i) && Matches(w, root, lf[i], d))
  {
    hide Normalize, Join, RelativeTo, CheckRoot, IsPackage;
    if d.1.path.Some? {
      CheckedPackage(w, d.0, Normalize(Join(root, d.1.path.value)));
    }
    forall p ensures Fits(w, root, p, d) <==> Matches(w, root, p, d) {
    }
  }

  function SourceFor(root: Path, d: Dependency): Source
    requires d.path.Some? || d.git.Some?
  {
    if d.path.Some? then PathSource(RelativeTo(Normalize(Join(root, d.path.value)), root)) else GitSource(d.git.value)
  }

  ghost predicate Matches(w: World, root: Path, p: Package, d: (string, Dependency)) {
    && p.name == d.0
    && (d.1.rev.Some? ==> p.rev == d.1.rev)
    && (d.1.branch.Some? ==> p.branch == d.1.branch)
    && (d.1.rev.Some? && d.1.branch.None? ==> p.branch == None)
    && (d.1.path.Some? ==> exists mf :: IsPackage(w, Normalize(Join(root, d.1.path.value)), mf) && mf.name == d.0)
  }

  /** Every package of an accepted lockfile is at hand: one locked at a revision
      is in the cache, and any other is a package of its name where its source
      leads. */
  lemma AcceptedPresent(w: World, root: Path, lf: seq<Package>, p: Package)
    requires Accepts(w, root, lf) && p in lf
    ensures p.rev.Some? ==> w.file(Normalize(w.cacheDir(p.name, p.source, p.rev.value))) != Missing
    ensures p.rev.None? && p.source.PathSource? ==>
      exists mf :: IsPackage(w, Join(root, p.source.rel), mf) && mf.name == p.name
  {
    hide Collect, DirectOk, Normalize, Join, CheckRoot, IsPackage;
    var i :| 0 <= i < |lf| && lf[i] == p;
    assert PresentOk(w, root, lf[i]);
    CheckedPackage(w, p.name, LocatedAt(w, root, p.source));
  }

  lemma DirectPinned(w: World, root: Path, lf: seq<Package>, d: (string, Dependency))
    requires DirectOk(w, root, lf, d) && Validated(d.1)
    ensures exists p :: p in lf && Some(p.source) == Expected(root, d.1) && Pins(p, d)
  {
    hide SourceOf, CheckRoot, Normalize, Join;
    var s := Expected(root, d.1).value;
    var i: nat :| FirstAt(lf, s, i) && Fits(w, root, lf[i], d);
    assert lf[i] in lf && Pins(lf[i], d);
  }

  // ----- a freshly written lockfile

  /** Where packages reached from the root live. */
  lemma ReachedOk(w: World, root: Path, r: Request)
    requires Lawful(w) && RootOk(root) && Reaches(w, root, r)
    ensures r.key.PathKey? ==> DirOk(r.key.dir)
  {
    hide Chain, Declares, DirOk, Lawful, RootOk;
    var rs :| Chain(w, root, rs) && |rs| > 0 && rs[|rs| - 1] == r;
    var good := iset q: Request | q.key.PathKey? ==> DirOk(q.key.dir);
    forall q | Declares(w, root, q) ensures q in good {
      RootAbsolute(root);
      RequestedOk(w, root, q);
    }
    forall q, t | q in good && Declares(w, DirOf(w, q), t) ensures t in good {
      PackageAbsolute(w, q);
      RequestedOk(w, DirOf(w, q), t);
    }
    AlongChain(w, root, rs, good);
  }

  lemma RootAbsolute(root: Path)
    requires RootOk(root)
    ensures Absolute(root)
  {
  }

  lemma PackageAbsolute(w: World, r: Request)
    requires Lawful(w) && (r.key.PathKey? ==> DirOk(r.key.dir))
    ensures Absolute(DirOf(w, r))
  {
  }

  lemma RequestedOk(w: World, dir: Path, r: Request)
    requires Absolute(dir) && Declares(w, dir, r)
    ensures r.key.PathKey? ==> DirOk(r.key.dir)
  {
    hide Normalize, DirOk, Deps, Join;
    var i :| 0 <= i < |Deps(w, dir)| && Wants(w, dir, Deps(w, dir)[i]) == Needs(r);
    var d := Deps(w, dir)[i];
    if d.1.path.Some? {
      JoinedOk(dir, d.1.path.value);
    }
  }

  /** Filed packages are told apart by their sources. */
  lemma FiledSourceOnce(w: World, root: Path, m: Resolved, j: Key, k: Key)
    requires Lawful(w) && RootOk(root) && Resolution(w, root) == Ok(m)
    requires j in m && k in m && m[j].source == m[k].source
    ensures j == k
  {
    hide Resolution, Lawful, RootOk, RelativeTo, DirOk, Reaches, Prepare;
    ResolutionGrows(w, root);
    FiledSource(w, root, j, m[j]);
    FiledSource(w, root, k, m[k]);
    if j.PathKey? && k.PathKey? {
      ReachedOk(w, root, RequestOf(j, m[j]));
      ReachedOk(w, root, RequestOf(k, m[k]));
      SourceOnce(j.dir, k.dir, root);
    }
  }

  lemma FiledSource(w: World, root: Path, k: Key, p: Package)
    requires Filed(w, root, k, p)
    ensures p.source == SourceOf(k, root)
    ensures CheckRoot(w, p.name, DirOf(w, RequestOf(k, p))) == None
    ensures k.PathKey? ==> p.rev == None && p.branch == None
  {
  }

  /** The first locked package with a filed package's source is that package. */
  lemma FirstLocked(w: World, root: Path, m: Resolved, lf: seq<Package>, k: Key)
    requires Lawful(w) && RootOk(root) && Resolution(w, root) == Ok(m) && Records(m, lf) && k in m
    ensures exists i: nat :: FirstAt(lf, m[k].source, i)
    ensures forall i: nat :: FirstAt(lf, m[k].source, i) ==> lf[i] == m[k]
  {
    hide Resolution, Lawful, RootOk, Before;
    var i: nat :| i < |lf| && lf[i] == m[k];
    FirstExists(lf, m[k].source, i);
    forall j: nat | FirstAt(lf, m[k].source, j) ensures lf[j] == m[k] {
      var q := RecordedAs(m, lf, j);
      FiledSourceOnce(w, root, m, q, k);
    }
  }

  lemma {:induction false} FirstExists(lf: seq<Package>, s: Source, i: nat)
    requires i < |lf| && lf[i].source == s
    ensures exists j: nat :: FirstAt(lf, s, j)
    decreases i
  {
    if j: nat :| j < i && lf[j].source == s {
      FirstExists(lf, s, j);
    } else {
      assert FirstAt(lf, s, i);
    }
  }

  /** A path dependency with neither revision nor branch. */
  predicate Plain(d: Dependency) {
    d.path.Some? ==> d.rev == None && d.branch == None
  }

  /** A direct dependency passes the check exactly when it is plain. */
  lemma DirectPasses(w: World, root: Path, m: Resolved, lf: seq<Package>, i: nat)
    requires Lawful(w) && RootOk(root) && Resolution(w, root) == Ok(m) && Records(m, lf)
    requires i < |Deps(w, root)|
    ensures DirectOk(w, root, lf, Deps(w, root)[i]) <==> Plain(Deps(w, root)[i].1)
  {
    hide Resolution, Lawful, RootOk, Records, Wants, Deps, FirstAt, Fits, Validated, Plain;
    var d := Deps(w, root)[i];
    ValidatedDep(w, root, i);
    ResolutionGrows(w, root);
    SatisfiedMet(w, root, m, i);
    WantedSource(w, root, d);
    if Wants(w, root, d).Needs? {
      var r := Wants(w, root, d).request;
      FiledSource(w, root, r.key, m[r.key]);
      FirstLocked(w, root, m, lf, r.key);
      FitsPlain(w, root, m[r.key], d, r);
    }
  }

  lemma SatisfiedMet(w: World, dir: Path, m: Resolved, i: nat)
    requires Satisfied(w, dir, m) && i < |Deps(w, dir)|
    ensures Wants(w, dir, Deps(w, dir)[i]) != NoRevision
    ensures Wants(w, dir, Deps(w, dir)[i]).Needs? ==>
      var r := Wants(w, dir, Deps(w, dir)[i]).request;
      r.key in m && Agrees(m[r.key], r) && RequestOf(r.key, m[r.key]) == r
  {
    hide Wants, Load;
    assert Met(w, dir, Deps(w, dir)[i], m);
  }

  lemma WantedSource(w: World, root: Path, d: (string, Dependency))
    requires Validated(d.1) && Wants(w, root, d) != NoRevision
    ensures Wants(w, root, d).Needs? && Expected(root, d.1) == Some(SourceOf(Wants(w, root, d).request.key, root))
  {
    hide Normalize, RelativeTo, Join;
  }

  lemma FitsPlain(w: World, root: Path, p: Package, d: (string, Dependency), r: Request)
    requires Validated(d.1) && Wants(w, root, d) == Needs(r) && Agrees(p, r)
    requires CheckRoot(w, p.name, DirOf(w, r)) == None
    ensures Fits(w, root, p, d) <==> Plain(d.1)
  {
    hide Normalize, CheckRoot, Join;
  }

  /** Every path package is reached by path edges alone. */
  ghost predicate ReachedByPaths(w: World, root: Path, m: Resolved) {
    forall k :: k in m && k.PathKey? ==> PathReaches(w, root, k.dir)
  }

  lemma LockedPathsAre(w: World, root: Path, m: Resolved, lf: seq<Package>, s: Source)
    requires Resolution(w, root) == Ok(m) && Records(m, lf)
    ensures s in LockedPaths(lf) <==> exists k :: k in m && k.PathKey? && SourceOf(k, root) == s
  {
    hide Resolution, RelativeTo, Before, Filed;
    ResolutionGrows(w, root);
    if s in LockedPaths(lf) {
      var i :| 0 <= i < |lf| && lf[i].source == s;
      var k := RecordedAs(m, lf, i);
      FiledSource(w, root, k, m[k]);
      assert k.PathKey? && SourceOf(k, root) == s;
    }
    forall k | k in m && k.PathKey? && SourceOf(k, root) == s ensures s in LockedPaths(lf) {
      FiledSource(w, root, k, m[k]);
      assert m[k] in lf;
    }
  }

  /** Path edges reach only filed packages. */
  lemma PathReachedFiled(w: World, root: Path, m: Resolved, p: Path)
    requires Resolution(w, root) == Ok(m) && PathReaches(w, root, p)
    ensures PathKey(p) in m
  {
    hide Resolution, PathChain, PathDeclares, Satisfied, Inv, DirOf, Reaches;
    ResolutionGrows(w, root);
    var ps :| PathChain(w, root, ps) && |ps| > 0 && ps[|ps| - 1] == p;
    var good := iset q: Path | PathKey(q) in m;
    forall q | PathDeclares(w, root, q) ensures q in good {
      PathDeclaredFiled(w, root, m, q);
    }
    forall q, t | q in good && PathDeclares(w, q, t) ensures t in good {
      PathLivesAt(w, q, m[PathKey(q)]);
      PathDeclaredFiled(w, q, m, t);
    }
    AlongPath(w, root, ps, good);
  }

  lemma PathLivesAt(w: World, p: Path, pkg: Package)
    ensures DirOf(w, RequestOf(PathKey(p), pkg)) == p
  {
  }

  lemma PathDeclaredFiled(w: World, dir: Path, m: Resolved, p: Path)
    requires Satisfied(w, dir, m) && PathDeclares(w, dir, p)
    ensures PathKey(p) in m
  {
    hide Deps, Normalize, Satisfied, Join;
    var i :| 0 <= i < |Deps(w, dir)| && PathOf(dir, Deps(w, dir)[i].1) == Some(p);
    SatisfiedMet(w, dir, m, i);
  }

  /** The check's walk succeeds when the root and all it reaches load. */
  lemma {:induction false} CollectLoads(w: World, root: Path, dir: Path, out: set<Source>, depth: nat)
    requires Load(w, dir).Some? && forall p :: PathReaches(w, dir, p) ==> Load(w, p).Some?
    ensures Collect(w, root, dir, out, depth).Ok?
    decreases Left(depth), 2, 0
  {
    hide PathReaches, CollectDeps, Load;
    if depth <= DEPTH_LIMIT {
      CollectDepsLoads(w, root, dir, Deps(w, dir), out, depth);
      DepsLoaded(w, dir);
    }
  }

  lemma DepsLoaded(w: World, dir: Path)
    requires Load(w, dir).Some?
    ensures Deps(w, dir) == Load(w, dir).value.deps
  {
  }

  lemma {:induction false} CollectDepsLoads(w: World, root: Path, dir: Path, deps: seq<(string, Dependency)>,
      out: set<Source>, depth: nat)
    requires depth <= DEPTH_LIMIT && forall p :: PathReaches(w, dir, p) ==> Load(w, p).Some?
    requires forall d :: d in deps ==> d in Deps(w, dir)
    ensures CollectDeps(w, root, dir, deps, out, depth).Ok?
    decreases Left(depth), 1, |deps|
  {
    hide PathReaches, CollectDep, Load, Deps;
    if |deps| > 0 {
      CollectDepLoads(w, root, dir, deps[0], out, depth);
      CollectDepsLoads(w, root, dir, deps[1..], CollectDep(w, root, dir, deps[0].1, out, depth).value, depth);
    }
  }

  lemma {:induction false} CollectDepLoads(w: World, root: Path, dir: Path, d: (string, Dependency),
      out: set<Source>, depth: nat)
    requires depth <= DEPTH_LIMIT && forall p :: PathReaches(w, dir, p) ==> Load(w, p).Some?
    requires d in Deps(w, dir)
    ensures CollectDep(w, root, dir, d.1, out, depth).Ok?
    decreases Left(depth), 0, 0
  {
    hide PathReaches, Collect, Load, Deps, Normalize, RelativeTo, Join;
    if d.1.path.Some? {
      var child := Normalize(Join(dir, d.1.path.value));
      PathDeclaredBy(w, dir, d);
      forall p | PathReaches(w, child, p) ensures Load(w, p).Some? {
        PathReachesOnward(w, dir, child, p);
      }
      CollectLoads(w, root, child, out + {SourceOf(PathKey(child), root)}, depth + 1);
    }
  }

  lemma FreshCollects(w: World, root: Path, m: Resolved)
    requires Resolution(w, root) == Ok(m)
    ensures Load(w, root).Some? && Collect(w, root, root, {}, 0).Ok?
  {
    hide Resolution, PathReaches, Deps, Load;
    ResolutionGrows(w, root);
    forall p | PathReaches(w, root, p) ensures Load(w, p).Some? {
      PathReachedFiled(w, root, m, p);
      PathLivesAt(w, p, m[PathKey(p)]);
    }
    CollectLoads(w, root, root, {}, 0);
  }

  /** The two sets of path sources agree exactly when every path package is
      reached by path edges alone. */
  lemma PathsAgree(w: World, root: Path, m: Resolved, lf: seq<Package>, sources: set<Source>)
    requires Lawful(w) && RootOk(root) && Resolution(w, root) == Ok(m) && Records(m, lf)
    requires CoversPaths(w, root, sources) && |sources| <= DEPTH_LIMIT
    ensures Collect(w, root, root, {}, 0) == Ok(LockedPaths(lf)) <==> ReachedByPaths(w, root, m)
  {
    hide Resolution, Lawful, RootOk, Records, CoversPaths, PathReaches, Collect, LockedPaths, RelativeTo, Reaches,
      DirOk, Satisfied;
    FreshCollects(w, root, m);
    var live := Collect(w, root, root, {}, 0).value;
    forall s ensures s in live <==> exists p :: PathReaches(w, root, p) && SourceOf(PathKey(p), root) == s {
      CollectExactly(w, root, sources, s);
    }
    forall s ensures s in LockedPaths(lf) <==> exists k :: k in m && k.PathKey? && SourceOf(k, root) == s {
      LockedPathsAre(w, root, m, lf, s);
    }
    forall p | PathReaches(w, root, p) ensures PathKey(p) in m {
      PathReachedFiled(w, root, m, p);
    }
    if ReachedByPaths(w, root, m) {
      SameSources(w, root, m, live, LockedPaths(lf));
    }
    if live == LockedPaths(lf) {
      forall k | k in m && k.PathKey? ensures PathReaches(w, root, k.dir) {
        assert SourceOf(k, root) in live;
        var p :| PathReaches(w, root, p) && SourceOf(PathKey(p), root) == SourceOf(k, root);
        ResolutionGrows(w, root);
        ReachedOk(w, root, RequestOf(k, m[k]));
        RootAbsolute(root);
        PathReachedOk(w, root, p);
        SourceOnce(p, k.dir, root);
      }
    }
  }

  lemma SameSources(w: World, root: Path, m: Resolved, live: set<Source>, locked: set<Source>)
    requires ReachedByPaths(w, root, m)
    requires forall p :: PathReaches(w, root, p) ==> PathKey(p) in m
    requires forall s :: s in live <==> exists p :: PathReaches(w, root, p) && SourceOf(PathKey(p), root) == s
    requires forall s :: s in locked <==> exists k :: k in m && k.PathKey? && SourceOf(k, root) == s
    ensures live == locked
  {
    hide PathReaches, SourceOf;
    forall s ensures s in live <==> s in locked {
      if s in live {
        var p :| PathReaches(w, root, p) && SourceOf(PathKey(p), root) == s;
        assert PathKey(p).PathKey?;
      }
      if s in locked {
        var k :| k in m && k.PathKey? && SourceOf(k, root) == s;
        assert PathKey(k.dir) == k;
      }
    }
  }

  lemma RecordedAs(m: Resolved, lf: seq<Package>, i: nat) returns (k: Key)
    requires Records(m, lf) && i < |lf|
    ensures k in m && m[k] == lf[i]
  {
    hide Before;
    var p := lf[i];
    k :| k in m && m[k] == p;
  }

  /** Every locked package is where it was put. */
  lemma FreshPresent(w: World, root: Path, m: Resolved, lf: seq<Package>, i: nat)
    requires Lawful(w) && RootOk(root) && Resolution(w, root) == Ok(m) && Records(m, lf) && i < |lf|
    ensures PresentOk(w, root, lf[i])
  {
    hide Resolution, Lawful, RootOk, Before, DirOk, CheckRoot, RelativeTo, Normalize, LocatedAt, Reaches, Filed;
    ResolutionGrows(w, root);
    var k := RecordedAs(m, lf, i);
    var p := m[k];
    FiledSource(w, root, k, p);
    if k.PathKey? {
      ReachedOk(w, root, RequestOf(k, p));
      SourceLeadsBack(w, k.dir, root);
      LookedUpAlike(w, p.name, k.dir, LocatedAt(w, root, p.source));
    } else {
      GitHasRevision(w, root, RequestOf(k, p));
      CheckedPresent(w, p.name, DirOf(w, RequestOf(k, p)));
    }
  }

  lemma LookedUpAlike(w: World, name: string, p: Path, q: Path)
    requires DirOk(p) && Normalize(q) == p && CheckRoot(w, name, p) == None
    ensures CheckRoot(w, name, q) == None
  {
  }

  lemma CheckedPresent(w: World, name: string, dir: Path)
    requires CheckRoot(w, name, dir) == None
    ensures w.file(Normalize(dir)) != Missing
  {
    hide Normalize;
  }

  /** A lockfile written for a resolved project is accepted on unchanged inputs
      exactly when its direct path dependencies carry neither revision nor
      branch, and every path package is reached by path edges alone. */
  lemma FreshLockAccepted(w: World, root: Path, m: Resolved, lf: seq<Package>, sources: set<Source>)
    requires Lawful(w) && RootOk(root) && Resolution(w, root) == Ok(m) && Records(m, lf)
    requires CoversPaths(w, root, sources) && |sources| <= DEPTH_LIMIT
    ensures Accepts(w, root, lf) <==>
      (forall i :: 0 <= i < |Deps(w, root)| ==> Plain(Deps(w, root)[i].1)) && ReachedByPaths(w, root, m)
  {
    hide Resolution, Lawful, RootOk, Records, CoversPaths, Plain, ReachedByPaths, DirectOk, PresentOk, Collect,
      LockedPaths, Deps;
    FreshCollects(w, root, m);
    PathsAgree(w, root, m, lf, sources);
    forall i | 0 <= i < |Deps(w, root)| ensures DirectOk(w, root, lf, Deps(w, root)[i]) <==> Plain(Deps(w, root)[i].1) {
      DirectPasses(w, root, m, lf, i);
    }
    forall i | 0 <= i < |lf| ensures PresentOk(w, root, lf[i]) {
      FreshPresent(w, root, m, lf, i);
    }
  }

  /** No git package that is reached declares a path dependency. */
  ghost predicate GitClosed(w: World, root: Path) {
    forall r, p :: Reaches(w, root, r) && r.key.GitKey? ==> !PathDeclares(w, DirOf(w, r), p)
  }

  /** Then the second condition holds. */
  lemma GitClosedReached(w: World, root: Path, m: Resolved)
    requires Resolution(w, root) == Ok(m) && GitClosed(w, root)
    ensures ReachedByPaths(w, root, m)
  {
    hide Resolution, Reaches, Satisfied, GitClosed, PathReaches;
    ResolutionGrows(w, root);
    forall k | k in m && k.PathKey? ensures PathReaches(w, root, k.dir) {
      ReachedByPath(w, root, RequestOf(k, m[k]));
    }
  }

  lemma ReachedByPath(w: World, root: Path, r: Request)
    requires GitClosed(w, root) && Reaches(w, root, r)
    ensures r.key.PathKey? ==> PathReaches(w, root, r.key.dir)
  {
    hide Chain, Declares, PathDeclares, PathReaches, DirOf;
    var rs :| Chain(w, root, rs) && |rs| > 0 && rs[|rs| - 1] == r;
    var good := iset q: Request | Reaches(w, root, q) && (q.key.PathKey? ==> PathReaches(w, root, q.key.dir));
    forall q | Declares(w, root, q) ensures q in good {
      ReachesDeclared(w, root, q);
      RequestedByPath(w, root, q);
    }
    forall q, t | q in good && Declares(w, DirOf(w, q), t) ensures t in good {
      ReachesDeclared(w, DirOf(w, q), t);
      ReachesOnward(w, root, q, t);
      RequestedByPath(w, DirOf(w, q), t);
      if t.key.PathKey? && q.key.PathKey? {
        PathLives(w, q);
        PathReachesOnward(w, root, q.key.dir, t.key.dir);
      }
    }
    AlongChain(w, root, rs, good);
  }

  lemma PathLives(w: World, r: Request)
    ensures r.key.PathKey? ==> DirOf(w, r) == r.key.dir
  {
  }

  lemma RequestedByPath(w: World, dir: Path, r: Request)
    requires Declares(w, dir, r)
    ensures r.key.PathKey? ==> PathDeclares(w, dir, r.key.dir) && PathReaches(w, dir, r.key.dir)
  {
    hide Deps, Normalize, PathChain, Join;
    var i :| 0 <= i < |Deps(w, dir)| && Wants(w, dir, Deps(w, dir)[i]) == Needs(r);
    if r.key.PathKey? {
      assert PathOf(dir, Deps(w, dir)[i].1) == Some(r.key.dir);
      PathReachesDeclared(w, dir, r.key.dir);
    }
  }
}
