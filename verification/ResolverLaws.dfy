/** What a successful resolution contains, and when resolution succeeds. */
module ResolverLaws {
  import opened Options
  import opened Paths
  import opened Packages
  import opened Resolver

  // ----- what the walk maintains

  function RequestOf(k: Key, p: Package): Request {
    Request(p.name, k, p.rev, p.branch)
  }

  /** A filed package was checked and carries the source of its key. */
  predicate Filed(w: World, root: Path, k: Key, p: Package) {
    && p == NewPackage(w, root, RequestOf(k, p))
    && Prepare(w, RequestOf(k, p)) == None
    && (k.PathKey? ==> p.rev == None && p.branch == None)
  }

  ghost predicate Inv(w: World, root: Path, m: Resolved) {
    && (forall k :: k in m ==> Filed(w, root, k, m[k]))
    && (forall j, k :: j in m && k in m && m[j].name == m[k].name ==> j == k)
  }

  /** What the dependency asks for is filed. */
  predicate Met(w: World, dir: Path, d: (string, Dependency), m: Resolved) {
    match Wants(w, dir, d)
    case Nothing => true
    case NoRevision => false
    case Needs(r) => r.key in m && Agrees(m[r.key], r)
  }

  ghost predicate AllMet(w: World, dir: Path, deps: seq<(string, Dependency)>, m: Resolved) {
    forall i :: 0 <= i < |deps| ==> Met(w, dir, deps[i], m)
  }

  ghost predicate Satisfied(w: World, dir: Path, m: Resolved) {
    Load(w, dir).Some? && AllMet(w, dir, Deps(w, dir), m)
  }

  ghost predicate Extends(m: Resolved, m1: Resolved) {
    forall k :: k in m ==> k in m1 && m1[k] == m[k]
  }

  /** What visiting `dir` did: packages were added, none changed, and each
      added one is reached from `dir` and has its own dependencies filed. */
  ghost predicate Grown(w: World, root: Path, dir: Path, m: Resolved, m1: Resolved) {
    && Inv(w, root, m1)
    && Extends(m, m1)
    && (forall k :: k in m1 && k !in m ==> Satisfied(w, DirOf(w, RequestOf(k, m1[k])), m1))
    && (forall k :: k in m1 && k !in m ==> Reaches(w, dir, RequestOf(k, m1[k])))
  }

  lemma MetStays(w: World, dir: Path, deps: seq<(string, Dependency)>, m: Resolved, m1: Resolved)
    requires AllMet(w, dir, deps, m) && Extends(m, m1)
    ensures AllMet(w, dir, deps, m1)
  {
    hide Wants;
    forall i | 0 <= i < |deps| ensures Met(w, dir, deps[i], m1) {
      assert Met(w, dir, deps[i], m);
    }
  }

  lemma GrownOnward(w: World, root: Path, dir: Path, m: Resolved, m1: Resolved, m2: Resolved)
    requires Grown(w, root, dir, m, m1) && Grown(w, root, dir, m1, m2)
    ensures Grown(w, root, dir, m, m2)
  {
    hide Inv, AllMet, Reaches, DirOf;
    forall k | k in m2 && k !in m
      ensures Satisfied(w, DirOf(w, RequestOf(k, m2[k])), m2)
    {
      if k in m1 {
        var at := DirOf(w, RequestOf(k, m1[k]));
        MetStays(w, at, Deps(w, at), m1, m2);
      }
    }
    assert forall k :: k in m1 ==> m2[k] == m1[k];
  }

  /** A new package, filed before its own dependencies are visited. */
  lemma FiledFirst(w: World, root: Path, m: Resolved, r: Request)
    requires Inv(w, root, m) && r.key !in m && Refusal(w, root, m, r) == None
    requires r.key.PathKey? ==> r.rev == None && r.branch == None
    ensures Inv(w, root, m[r.key := NewPackage(w, root, r)])
  {
    hide Prepare, NewPackage;
    NewNamed(w, root, r);
    var m1 := m[r.key := NewPackage(w, root, r)];
    forall k | k in m1 ensures Filed(w, root, k, m1[k]) {
      if k != r.key {
        assert Filed(w, root, k, m[k]);
      }
    }
  }

  lemma NewNamed(w: World, root: Path, r: Request)
    ensures RequestOf(r.key, NewPackage(w, root, r)) == r
  {
  }

  lemma WantedPath(w: World, dir: Path, d: (string, Dependency))
    ensures var want := Wants(w, dir, d);
      want.Needs? && want.request.key.PathKey? ==> want.request.rev == None && want.request.branch == None
  {
  }

  lemma {:induction false} VisitGrows(w: World, root: Path, dir: Path, m: Resolved, depth: nat)
    requires Inv(w, root, m) && Visit(w, root, dir, m, depth).Ok?
    ensures Grown(w, root, dir, m, Visit(w, root, dir, m, depth).value)
    ensures Satisfied(w, dir, Visit(w, root, dir, m, depth).value)
    decreases Left(depth), 2, 0
  {
    hide Grown, Inv, VisitDeps, AllMet;
    VisitDepsGrows(w, root, dir, Deps(w, dir), m, depth);
  }

  lemma {:induction false} VisitDepsGrows(w: World, root: Path, dir: Path, deps: seq<(string, Dependency)>,
      m: Resolved, depth: nat)
    requires depth <= DEPTH_LIMIT && Inv(w, root, m) && VisitDeps(w, root, dir, deps, m, depth).Ok?
    requires forall d :: d in deps ==> d in Deps(w, dir)
    ensures Grown(w, root, dir, m, VisitDeps(w, root, dir, deps, m, depth).value)
    ensures AllMet(w, dir, deps, VisitDeps(w, root, dir, deps, m, depth).value)
    decreases Left(depth), 1, |deps|
  {
    hide Met, Filed, Deps, VisitDep, Satisfied, Reaches, DirOf;
    if |deps| > 0 {
      var m1 := VisitDep(w, root, dir, deps[0], m, depth).value;
      var m2 := VisitDeps(w, root, dir, deps, m, depth).value;
      VisitDepGrows(w, root, dir, deps[0], m, depth);
      VisitDepsGrows(w, root, dir, deps[1..], m1, depth);
      GrownOnward(w, root, dir, m, m1, m2);
      MetStays(w, dir, [deps[0]], m1, m2);
      AllMetJoin(w, dir, deps, m2);
    }
  }

  lemma AllMetJoin(w: World, dir: Path, deps: seq<(string, Dependency)>, m: Resolved)
    requires |deps| > 0 && AllMet(w, dir, [deps[0]], m) && AllMet(w, dir, deps[1..], m)
    ensures AllMet(w, dir, deps, m)
  {
    hide Met;
    forall i | 0 <= i < |deps| ensures Met(w, dir, deps[i], m) {
      if i == 0 {
        assert Met(w, dir, [deps[0]][0], m);
      } else {
        assert Met(w, dir, deps[1..][i - 1], m);
      }
    }
  }

  lemma {:induction false} VisitDepGrows(w: World, root: Path, dir: Path, d: (string, Dependency), m: Resolved,
      depth: nat)
    requires depth <= DEPTH_LIMIT && Inv(w, root, m) && VisitDep(w, root, dir, d, m, depth).Ok?
    requires d in Deps(w, dir)
    ensures Grown(w, root, dir, m, VisitDep(w, root, dir, d, m, depth).value)
    ensures Met(w, dir, d, VisitDep(w, root, dir, d, m, depth).value)
    decreases Left(depth), 0, 0
  {
    hide Filed, Deps, Satisfied, Reaches, DirOf, Wants, Visit, Refusal, NewPackage;
    WantedPath(w, dir, d);
    var want := Wants(w, dir, d);
    if want.Needs? {
      var r := want.request;
      if r.key in m {
        FiledPath(w, root, r.key, m[r.key]);
      } else {
        var m1 := m[r.key := NewPackage(w, root, r)];
        FiledFirst(w, root, m, r);
        VisitGrows(w, root, DirOf(w, r), m1, depth + 1);
        NewNamed(w, root, r);
        DeclaredBy(w, dir, d, r);
        DeeperGrows(w, root, dir, r, m, Visit(w, root, DirOf(w, r), m1, depth + 1).value);
      }
    }
  }

  lemma FiledPath(w: World, root: Path, k: Key, p: Package)
    requires Filed(w, root, k, p)
    ensures k.PathKey? ==> p.rev == None && p.branch == None
  {
  }

  lemma DeclaredBy(w: World, dir: Path, d: (string, Dependency), r: Request)
    requires d in Deps(w, dir) && Wants(w, dir, d) == Needs(r)
    ensures Declares(w, dir, r) && Reaches(w, dir, r)
  {
    hide Wants;
    var i :| 0 <= i < |Deps(w, dir)| && Deps(w, dir)[i] == d;
    ReachesDeclared(w, dir, r);
  }

  /** What was added below the requested package is reached through it. */
  lemma DeeperGrows(w: World, root: Path, dir: Path, r: Request, m: Resolved, m2: Resolved)
    requires r.key !in m && Reaches(w, dir, r)
    requires Grown(w, root, DirOf(w, r), m[r.key := NewPackage(w, root, r)], m2)
    requires Satisfied(w, DirOf(w, r), m2)
    ensures Grown(w, root, dir, m, m2)
    ensures r.key in m2 && m2[r.key] == NewPackage(w, root, r)
  {
    hide Inv, Reaches, Satisfied, DirOf, NewPackage;
    NewNamed(w, root, r);
    var m1 := m[r.key := NewPackage(w, root, r)];
    assert r.key in m1;
    forall k | k in m2 && k !in m
      ensures Satisfied(w, DirOf(w, RequestOf(k, m2[k])), m2) && Reaches(w, dir, RequestOf(k, m2[k]))
    {
      if k != r.key {
        ReachesOnward(w, dir, r, RequestOf(k, m2[k]));
      }
    }
    forall k | k in m ensures k in m2 && m2[k] == m[k] {
      assert k in m1;
    }
  }

  // ----- what a successful resolution contains

  function Resolution(w: World, root: Path): Outcome<Resolved> {
    Visit(w, root, root, map[], 0)
  }

  lemma ResolutionGrows(w: World, root: Path)
    requires Resolution(w, root).Ok?
    ensures Grown(w, root, root, map[], Resolution(w, root).value) && Satisfied(w, root, Resolution(w, root).value)
  {
    hide Grown, Visit, Satisfied;
    VisitGrows(w, root, root, map[], 0);
  }

  /** The map holds exactly the packages reached from the root: a request is
      reached if and only if it is filed under its key with that very name,
      revision and branch. */
  lemma ResolvedExactly(w: World, root: Path, r: Request)
    requires Resolution(w, root).Ok?
    ensures var m := Resolution(w, root).value; Reaches(w, root, r) <==> r.key in m && Agrees(m[r.key], r)
  {
    hide Resolution, Reaches, Chain, Declares, Satisfied, Wants, DirOf, Inv;
    ResolutionGrows(w, root);
    var m := Resolution(w, root).value;
    if Reaches(w, root, r) {
      ReachedFiled(w, root, m, r);
    }
    if r.key in m && Agrees(m[r.key], r) {
      assert RequestOf(r.key, m[r.key]) == r;
    }
  }

  lemma ReachedFiled(w: World, root: Path, m: Resolved, r: Request)
    requires Satisfied(w, root, m) && Reaches(w, root, r)
    requires forall k :: k in m ==> Satisfied(w, DirOf(w, RequestOf(k, m[k])), m)
    ensures r.key in m && Agrees(m[r.key], r)
  {
    hide Chain, Declares, Satisfied, DirOf;
    var rs :| Chain(w, root, rs) && |rs| > 0 && rs[|rs| - 1] == r;
    var good := iset r: Request | r.key in m && Agrees(m[r.key], r);
    forall s | Declares(w, root, s) ensures s in good {
      DeclaredFiled(w, root, m, s);
    }
    forall s, t | s in good && Declares(w, DirOf(w, s), t) ensures t in good {
      assert RequestOf(s.key, m[s.key]) == s;
      DeclaredFiled(w, DirOf(w, s), m, t);
    }
    AlongChain(w, root, rs, good);
  }

  lemma DeclaredFiled(w: World, dir: Path, m: Resolved, r: Request)
    requires Satisfied(w, dir, m) && Declares(w, dir, r)
    ensures r.key in m && Agrees(m[r.key], r)
  {
    hide Wants, Load;
    var i :| 0 <= i < |Deps(w, dir)| && Wants(w, dir, Deps(w, dir)[i]) == Needs(r);
    assert Met(w, dir, Deps(w, dir)[i], m);
  }

  /** No two filed packages share a name. */
  lemma NamesDistinct(w: World, root: Path, j: Key, k: Key)
    requires Resolution(w, root).Ok?
    ensures var m := Resolution(w, root).value; j in m && k in m && m[j].name == m[k].name ==> j == k
  {
    hide Resolution, Filed;
    ResolutionGrows(w, root);
  }

  /** A git package is requested at a revision. */
  lemma GitHasRevision(w: World, root: Path, r: Request)
    requires Reaches(w, root, r) && r.key.GitKey?
    ensures r.rev.Some?
  {
    hide Chain, Declares;
    var rs :| Chain(w, root, rs) && |rs| > 0 && rs[|rs| - 1] == r;
    var good := iset q: Request | q.key.GitKey? ==> q.rev.Some?;
    forall dir, q | Declares(w, dir, q) ensures q in good {
      RequestedRevision(w, dir, q);
    }
    AlongChain(w, root, rs, good);
  }

  lemma RequestedRevision(w: World, dir: Path, r: Request)
    requires Declares(w, dir, r)
    ensures r.key.GitKey? ==> r.rev.Some?
  {
    hide Deps, Normalize;
    var i :| 0 <= i < |Deps(w, dir)| && Wants(w, dir, Deps(w, dir)[i]) == Needs(r);
  }
}
