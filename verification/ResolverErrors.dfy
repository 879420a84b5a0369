/** Every error a resolution ends with is one that the graph has. */
module ResolverErrors {
  import opened Options
  import opened Paths
  import opened Packages
  import opened Resolver
  import opened ResolverLaws
  import opened ResolverSuccess

  /** A chain of requests with pairwise different keys. */
  ghost predicate Straight(w: World, root: Path, rs: seq<Request>) {
    Chain(w, root, rs) && forall i, j :: 0 <= i < j < |rs| ==> rs[i].key != rs[j].key
  }

  ghost predicate Misnamed(w: World, root: Path, r: Request, actual: string) {
    && actual != r.name
    && ((exists mf :: w.file(Normalize(DirOf(w, r))) == Loaded(mf) && mf.name == actual)
        || exists s :: Reaches(w, root, s) && s.key == r.key && s.name == actual)
  }

  ghost predicate Rooted(w: World, r: Request, found: RootModule) {
    && (exists mf :: w.file(Normalize(DirOf(w, r))) == Loaded(mf) && mf.name == r.name)
    && w.rootModule(Normalize(DirOf(w, r))) == found
  }

  ghost predicate Unknown(w: World, dir: Path, name: string) {
    exists i :: 0 <= i < |Deps(w, dir)| && Deps(w, dir)[i].0 == name && BranchMissing(w, Deps(w, dir)[i].1)
  }

  predicate BranchMissing(w: World, d: Dependency) {
    d.git.Some? && d.branch.Some? && w.revision(d.git.value, d.branch.value) == None
  }

  ghost predicate Collides(w: World, root: Path, r: Request) {
    exists s :: Reaches(w, root, s) && s.name == r.name && s.key != r.key
  }

  ghost predicate Conflicts(w: World, root: Path, r: Request) {
    exists s :: Reaches(w, root, s) && s.key == r.key && s.name == r.name && (s.rev != r.rev || s.branch != r.branch)
  }

  /** What an error says of the graph that starts at `root`. */
  ghost predicate Real(w: World, root: Path, e: PkgError) {
    match e
    case DepthExceeded => exists rs :: Straight(w, root, rs) && |rs| > 32
    case BadManifest(dir) => !w.file(Normalize(dir)).Loaded? && AtPackage(w, root, dir)
    case NameMismatch(key, actual) => exists r :: Reaches(w, root, r) && r.name == key && Misnamed(w, root, r, actual)
    case MissingRootModule(name) => exists r :: Reaches(w, root, r) && r.name == name && Rooted(w, r, NoModule)
    case BinDepNotImportable(name) => exists r :: Reaches(w, root, r) && r.name == name && Rooted(w, r, BinModule)
    case BranchNotFound(name) => exists dir :: AtPackage(w, root, dir) && Unknown(w, dir, name)
    case FetchFailed(name) =>
      exists r :: Reaches(w, root, r) && r.name == name && r.key.GitKey? && r.rev.Some?
                  && !w.fetch(name, r.key.url, r.rev.value)
    case DepNameCollision(name, added) =>
      exists r :: Reaches(w, root, r) && r.name == name && SourceOf(r.key, root) == added && Collides(w, root, r)
    case DepConflict(name, url) =>
      exists r :: Reaches(w, root, r) && r.name == name && r.key == GitKey(url) && Conflicts(w, root, r)
    case _ => false
  }

  ghost predicate RealError(w: World, root: Path, o: Outcome<Resolved>) {
    o.Err? ==> Real(w, root, o.error)
  }

  /** Where the walk stands: at the end of a straight chain of filed packages. */
  ghost predicate Along(w: World, root: Path, dir: Path, m: Resolved, rs: seq<Request>) {
    && Straight(w, root, rs) && dir == (if |rs| == 0 then root else DirOf(w, rs[|rs| - 1]))
    && (forall i :: 0 <= i < |rs| ==> rs[i].key in m)
    && Inv(w, root, m) && AllReached(w, root, m)
  }

  lemma AlongReached(w: World, root: Path, dir: Path, m: Resolved, rs: seq<Request>)
    requires Along(w, root, dir, m, rs)
    ensures AtPackage(w, root, dir)
  {
    hide DirOf, Chain, Inv, AllReached;
    if |rs| > 0 {
      assert Reaches(w, root, rs[|rs| - 1]);
    }
  }

  lemma AlongGrows(w: World, root: Path, dir: Path, m: Resolved, m1: Resolved, rs: seq<Request>)
    requires Along(w, root, dir, m, rs) && Grown(w, root, dir, m, m1)
    ensures Along(w, root, dir, m1, rs)
  {
    hide DirOf, Straight, Inv, Reaches, Satisfied;
    AlongReached(w, root, dir, m, rs);
    forall k | k in m1 ensures Reaches(w, root, RequestOf(k, m1[k])) {
      if k !in m {
        ReachedFromHere(w, root, dir, RequestOf(k, m1[k]));
      }
    }
    assert forall i :: 0 <= i < |rs| ==> rs[i].key in m1;
  }

  lemma AlongOnward(w: World, root: Path, dir: Path, m: Resolved, rs: seq<Request>, r: Request)
    requires Along(w, root, dir, m, rs) && Declares(w, dir, r) && r.key !in m && Refusal(w, root, m, r) == None
    requires r.key.PathKey? ==> r.rev == None && r.branch == None
    ensures Along(w, root, DirOf(w, r), m[r.key := NewPackage(w, root, r)], rs + [r])
  {
    hide DirOf, Inv, Reaches, Refusal, NewPackage, Declares;
    var m1 := m[r.key := NewPackage(w, root, r)];
    FiledFirst(w, root, m, r);
    NewNamed(w, root, r);
    AlongReached(w, root, dir, m, rs);
    ReachesDeclared(w, dir, r);
    ReachedFromHere(w, root, dir, r);
    forall k | k in m1 ensures Reaches(w, root, RequestOf(k, m1[k])) {
      if k != r.key {
        assert m1[k] == m[k];
      }
    }
    assert Chain(w, DirOf(w, r), []);
    assert [r][1..] == [];
    assert Chain(w, dir, [r]);
    ChainJoin(w, root, rs, [r]);
  }

  // ----- the errors of one request

  lemma DisagreementReal(w: World, root: Path, m: Resolved, r: Request)
    requires Reaches(w, root, r) && r.key in m && AllReached(w, root, m) && Disagreement(m[r.key], r).Some?
    ensures Real(w, root, Disagreement(m[r.key], r).value)
  {
    hide Reaches, DirOf, Normalize;
    var s := RequestOf(r.key, m[r.key]);
    assert Reaches(w, root, s) && s.key == r.key;
    if s.name != r.name {
      assert Misnamed(w, root, r, s.name);
    } else {
      assert Conflicts(w, root, r);
    }
  }

  lemma CheckReal(w: World, root: Path, r: Request)
    requires Reaches(w, root, r) && CheckRoot(w, r.name, DirOf(w, r)).Some?
    ensures Real(w, root, CheckRoot(w, r.name, DirOf(w, r)).value)
  {
    hide Reaches, DirOf, Normalize;
    var dir := DirOf(w, r);
    if Load(w, dir).None? {
      assert AtPackage(w, root, dir);
    } else {
      var mf := Load(w, dir).value;
      assert w.file(Normalize(dir)) == Loaded(mf);
      if mf.name != r.name {
        assert Misnamed(w, root, r, mf.name);
      } else {
        assert Rooted(w, r, w.rootModule(Normalize(dir)));
      }
    }
  }

  lemma RefusalReal(w: World, root: Path, m: Resolved, r: Request)
    requires Reaches(w, root, r) && r.key !in m && AllReached(w, root, m) && Refusal(w, root, m, r).Some?
    requires r.key.GitKey? ==> r.rev.Some?
    ensures Real(w, root, Refusal(w, root, m, r).value)
  {
    hide Reaches, DirOf, Normalize, CheckRoot, SourceOf;
    if NameTaken(m, r.name) {
      var k :| k in m && m[k].name == r.name;
      assert Reaches(w, root, RequestOf(k, m[k]));
      assert Collides(w, root, r);
    }
    if CheckRoot(w, r.name, DirOf(w, r)).Some? {
      CheckReal(w, root, r);
    }
  }

  lemma BranchReal(w: World, root: Path, dir: Path, d: (string, Dependency))
    requires AtPackage(w, root, dir) && d in Deps(w, dir) && Wants(w, dir, d) == NoRevision
    ensures Real(w, root, BranchNotFound(d.0))
  {
    hide Normalize, Join, AtPackage, Deps;
    var i :| 0 <= i < |Deps(w, dir)| && Deps(w, dir)[i] == d;
    assert BranchMissing(w, Deps(w, dir)[i].1);
    assert Unknown(w, dir, d.0);
  }

  // ----- the errors of the walk

  lemma {:induction false} VisitReal(w: World, root: Path, dir: Path, m: Resolved, rs: seq<Request>)
    requires Along(w, root, dir, m, rs)
    ensures RealError(w, root, Visit(w, root, dir, m, |rs|))
    decreases Left(|rs|), 2, 0
  {
    hide Along, AtPackage, VisitDeps, Normalize, Straight;
    AlongReached(w, root, dir, m, rs);
    if |rs| > DEPTH_LIMIT {
      TooDeep(w, root, dir, m, rs);
    } else if Load(w, dir).Some? {
      VisitDepsReal(w, root, dir, Deps(w, dir), m, rs);
    }
  }

  lemma TooDeep(w: World, root: Path, dir: Path, m: Resolved, rs: seq<Request>)
    requires Along(w, root, dir, m, rs) && |rs| > 32
    ensures Real(w, root, DepthExceeded)
  {
    hide Straight, Inv, AllReached, DirOf;
  }

  lemma {:induction false} VisitDepsReal(w: World, root: Path, dir: Path, deps: seq<(string, Dependency)>, m: Resolved,
      rs: seq<Request>)
    requires |rs| <= DEPTH_LIMIT && Along(w, root, dir, m, rs) && forall d :: d in deps ==> d in Deps(w, dir)
    ensures RealError(w, root, VisitDeps(w, root, dir, deps, m, |rs|))
    decreases Left(|rs|), 1, |deps|
  {
    hide Real, VisitDep, Deps, Grown, Straight, AllReached;
    if |deps| > 0 {
      VisitDepReal(w, root, dir, deps[0], m, rs);
      var o := VisitDep(w, root, dir, deps[0], m, |rs|);
      if o.Ok? {
        VisitDepGrows(w, root, dir, deps[0], m, |rs|);
        AlongGrows(w, root, dir, m, o.value, rs);
        VisitDepsReal(w, root, dir, deps[1..], o.value, rs);
      }
    }
  }

  lemma {:induction false} VisitDepReal(w: World, root: Path, dir: Path, d: (string, Dependency), m: Resolved,
      rs: seq<Request>)
    requires |rs| <= DEPTH_LIMIT && Along(w, root, dir, m, rs) && d in Deps(w, dir)
    ensures RealError(w, root, VisitDep(w, root, dir, d, m, |rs|))
    decreases Left(|rs|), 0, 0
  {
    hide Real, Deps, Wants, Visit, Refusal, Disagreement, NewPackage, Straight, DirOf, Reaches, Inv;
    AlongReached(w, root, dir, m, rs);
    WantedPath(w, dir, d);
    var want := Wants(w, dir, d);
    if want.NoRevision? {
      BranchReal(w, root, dir, d);
    } else if want.Needs? {
      var r := want.request;
      DeclaredBy(w, dir, d, r);
      ReachedFromHere(w, root, dir, r);
      if r.key in m {
        if Disagreement(m[r.key], r).Some? {
          DisagreementReal(w, root, m, r);
        }
      } else if Refusal(w, root, m, r).Some? {
        RequestedRevision(w, dir, r);
        RefusalReal(w, root, m, r);
      } else {
        AlongOnward(w, root, dir, m, rs, r);
        VisitReal(w, root, DirOf(w, r), m[r.key := NewPackage(w, root, r)], rs + [r]);
      }
    }
  }

  /** A resolution fails only with an error that the graph bears out. */
  lemma ErrorsAreReal(w: World, root: Path)
    requires Resolution(w, root).Err?
    ensures Real(w, root, Resolution(w, root).error)
  {
    hide Real, Visit;
    VisitReal(w, root, root, map[], []);
  }

  // ----- the depth limit

  /** Each package along the chain declares the next one and nothing else. */
  ghost predicate Line(w: World, root: Path, rs: seq<Request>) {
    && (forall i, j :: 0 <= i < j < |rs| ==> rs[i].key != rs[j].key)
    && (forall i :: 0 <= i < |rs| ==> OnlyDeclares(w, PlaceAt(w, root, rs, i), rs[i]))
  }

  ghost predicate OnlyDeclares(w: World, dir: Path, r: Request) {
    |Deps(w, dir)| == 1 && Wants(w, dir, Deps(w, dir)[0]) == Needs(r)
  }

  function PlaceAt(w: World, root: Path, rs: seq<Request>, i: nat): Path
    requires i <= |rs|
  {
    if i == 0 then root else DirOf(w, rs[i - 1])
  }

  /** A visit to a package with one dependency goes on to it, or fails. */
  lemma OneDepFails(w: World, root: Path, dir: Path, r: Request, m: Resolved, depth: nat)
    requires depth <= DEPTH_LIMIT && OnlyDeclares(w, dir, r) && r.key !in m
    requires Refusal(w, root, m, r) == None ==>
      Visit(w, root, DirOf(w, r), m[r.key := NewPackage(w, root, r)], depth + 1).Err?
    ensures Visit(w, root, dir, m, depth).Err?
  {
    hide DirOf, Wants, Refusal, NewPackage, Deps, Load;
    if Load(w, dir).Some? {
      LoadedDeps(w, dir);
      assert VisitDep(w, root, dir, Deps(w, dir)[0], m, depth).Err?;
    }
  }

  lemma {:induction false} LineFails(w: World, root: Path, rs: seq<Request>, m: Resolved, i: nat)
    requires Line(w, root, rs) && |rs| > 32 && i <= 33
    requires forall k :: k in m ==> exists j :: 0 <= j < i && rs[j].key == k
    ensures Visit(w, root, PlaceAt(w, root, rs, i), m, i).Err?
    decreases 33 - i
  {
    hide DirOf, Refusal, NewPackage, OnlyDeclares, VisitDeps;
    if i <= 32 {
      var dir, r := PlaceAt(w, root, rs, i), rs[i];
      if Refusal(w, root, m, r) == None {
        var m1 := m[r.key := NewPackage(w, root, r)];
        forall k | k in m1 ensures exists j :: 0 <= j < i + 1 && rs[j].key == k {
          assert k == r.key ==> rs[i].key == k;
        }
        LineFails(w, root, rs, m1, i + 1);
      }
      OneDepFails(w, root, dir, r, m, i);
    }
  }

  lemma LoadedDeps(w: World, dir: Path)
    requires Load(w, dir).Some?
    ensures Deps(w, dir) == Load(w, dir).value.deps
  {
    hide Normalize;
  }

  /** A chain of more than 32 packages, each declaring the next one only, does
      not resolve. */
  lemma LongLineFails(w: World, root: Path, rs: seq<Request>)
    requires Line(w, root, rs) && |rs| > 32
    ensures Resolution(w, root).Err?
  {
    hide Line, Visit;
    LineFails(w, root, rs, map[], 0);
  }
}
