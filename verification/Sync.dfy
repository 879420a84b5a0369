/** `run_sync`, and two projects whose fresh lockfiles are refused. */
module Sync {
  import opened Options
  import opened Paths
  import opened Packages
  import opened Resolver
  import opened ResolverLaws
  import opened Lockfile
  import opened LockfileLaws
  import opened LockfileSuccess

  /** `run_sync`: resolve, then write what was resolved. */
  method RunSync(w: World, root: Path) returns (r: Outcome<seq<Package>>)
    ensures r.Ok? <==> Resolution(w, root).Ok?
    ensures r.Ok? ==> Records(Resolution(w, root).value, r.value)
    ensures r.Err? ==> Resolution(w, root) == Err(r.error)
  {
    hide Visit, Records;
    var walker := new Walker(w, root);
    var failure := walker.Resolve(root, 0);
    if failure.Some? {
      return Err(failure.value);
    }
    forall j, k | j in walker.resolved && k in walker.resolved && walker.resolved[j].name == walker.resolved[k].name
      ensures j == k
    {
      NamesDistinct(w, root, j, k);
    }
    var lf := WriteLock(walker.resolved);
    r := Ok(lf);
  }

  // ----- a path dependency with a revision

  const APP: Path := [RootDir, Normal("app")]
  const LIB: Path := [RootDir, Normal("lib")]
  const UP: Path := [ParentDir, Normal("lib")]
  const REVISED := ("lib", Dependency(Some(UP), None, Some("r1"), None))

  /** `/app` depends on `../lib` and, idly, names a revision. */
  function Disk(p: Path): ManifestFile {
    if p == APP then Loaded(Manifest("app", "0.1.0", [REVISED]))
    else if p == LIB then Loaded(Manifest("lib", "0.1.0", []))
    else Missing
  }

  function RevisedWorld(): World {
    World(Disk, _ => LibModule, (_, _) => None, (_, _, _) => false, (_, _, _) => APP, _ => APP)
  }

  lemma UpFromApp()
    ensures Normalize(APP) == APP && Normalize(LIB) == LIB && Normalize(Join(APP, UP)) == LIB
  {
    hide Normalize;
    NormalFixed(APP);
    NormalFixed(LIB);
    NormalizeStep(APP, ParentDir);
    NormalizeStep(APP + [ParentDir], Normal("lib"));
    assert APP + [ParentDir] + [Normal("lib")] == APP + UP;
  }

  /** The project resolves, but the lockfile written for it is refused. */
  lemma RevisedPathRefused(lf: seq<Package>)
    ensures Resolution(RevisedWorld(), APP).Ok?
    ensures Records(Resolution(RevisedWorld(), APP).value, lf) ==> !Accepts(RevisedWorld(), APP, lf)
  {
    hide Normalize, RelativeTo, Records;
    var w := RevisedWorld();
    UpFromApp();
    RevisedResolves();
    var m := Resolution(w, APP).value;
    if Records(m, lf) {
      assert Deps(w, APP)[0] == REVISED && !Plain(REVISED.1);
      DirectPasses(w, APP, m, lf, 0);
    }
  }

  lemma RevisedResolves()
    ensures Resolution(RevisedWorld(), APP).Ok?
  {
    hide Normalize, RelativeTo, Join;
    var w := RevisedWorld();
    UpFromApp();
    var r := Request("lib", PathKey(LIB), None, None);
    assert Wants(w, APP, REVISED) == Needs(r);
    var m1: Resolved := map[][r.key := NewPackage(w, APP, r)];
    assert VisitDeps(w, APP, LIB, [], m1, 1) == Ok(m1);
    assert Visit(w, APP, LIB, m1, 1) == Ok(m1);
    assert VisitDep(w, APP, APP, REVISED, map[], 0) == Ok(m1);
    assert [REVISED][1..] == [];
    assert VisitDeps(w, APP, APP, [REVISED], map[], 0) == Ok(m1);
  }

  // ----- a path package behind a git package

  const CACHE: Path := [RootDir, Normal("cache")]
  const FETCHED := ("g", Dependency(None, Some("u"), Some("r1"), None))
  const BESIDE := ("lib", Dependency(Some(UP), None, None, None))

  /** `/app` depends on a git package, which depends on `../lib`. */
  function GitDisk(p: Path): ManifestFile {
    if p == APP then Loaded(Manifest("app", "0.1.0", [FETCHED]))
    else if p == CACHE then Loaded(Manifest("g", "0.1.0", [BESIDE]))
    else if p == LIB then Loaded(Manifest("lib", "0.1.0", []))
    else Missing
  }

  function GitWorld(): World {
    World(GitDisk, _ => LibModule, (_, _) => None, (_, _, _) => true, (_, _, _) => CACHE, _ => APP)
  }

  lemma UpFromCache()
    ensures Normalize(APP) == APP && Normalize(CACHE) == CACHE && Normalize(LIB) == LIB
    ensures Normalize(Join(CACHE, UP)) == LIB
  {
    hide Normalize;
    NormalFixed(APP);
    NormalFixed(CACHE);
    NormalFixed(LIB);
    NormalFixed([RootDir]);
    NormalizeStep(CACHE, ParentDir);
    NormalizeStep(CACHE + [ParentDir], Normal("lib"));
    assert CACHE + [ParentDir] + [Normal("lib")] == CACHE + UP;
  }

  lemma GitResolves()
    ensures Resolution(GitWorld(), APP).Ok? && PathKey(LIB) in Resolution(GitWorld(), APP).value
  {
    hide Normalize, RelativeTo, Join;
    var w := GitWorld();
    UpFromCache();
    var g := Request("g", GitKey("u"), Some("r1"), None);
    var r := Request("lib", PathKey(LIB), None, None);
    assert Wants(w, APP, FETCHED) == Needs(g) && Wants(w, CACHE, BESIDE) == Needs(r);
    var m1: Resolved := map[][g.key := NewPackage(w, APP, g)];
    var m2 := m1[r.key := NewPackage(w, APP, r)];
    assert m1[g.key].name == "g";
    assert "g" != "lib";
    assert VisitDeps(w, APP, LIB, [], m2, 2) == Ok(m2);
    assert Visit(w, APP, LIB, m2, 2) == Ok(m2);
    assert VisitDep(w, APP, CACHE, BESIDE, m1, 1) == Ok(m2);
    assert [BESIDE][1..] == [];
    assert VisitDeps(w, APP, CACHE, [BESIDE], m1, 1) == Ok(m2);
    assert Visit(w, APP, CACHE, m1, 1) == Ok(m2);
    assert VisitDep(w, APP, APP, FETCHED, map[], 0) == Ok(m2);
    assert [FETCHED][1..] == [];
    assert VisitDeps(w, APP, APP, [FETCHED], map[], 0) == Ok(m2);
  }

  /** No path edge leaves the root. */
  lemma NoPathsFromApp(p: Path)
    ensures !PathReaches(GitWorld(), APP, p)
  {
    hide Normalize;
    UpFromCache();
    assert Deps(GitWorld(), APP) == [FETCHED];
    assert forall child :: !PathDeclares(GitWorld(), APP, child);
  }

  /** The project resolves, but the lockfile written for it is refused. */
  lemma GitPathRefused(lf: seq<Package>)
    ensures Resolution(GitWorld(), APP).Ok?
    ensures Records(Resolution(GitWorld(), APP).value, lf) ==> !Accepts(GitWorld(), APP, lf)
  {
    hide Normalize, RelativeTo, Records, Resolution, PathReaches, Collect;
    var w := GitWorld();
    UpFromCache();
    GitResolves();
    var m := Resolution(w, APP).value;
    if Records(m, lf) {
      forall p ensures !PathReaches(w, APP, p) {
        NoPathsFromApp(p);
      }
      PathsAgree(w, APP, m, lf, {});
      assert PathKey(LIB) in m && !ReachedByPaths(w, APP, m);
    }
  }
}
