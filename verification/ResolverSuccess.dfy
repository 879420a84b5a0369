/** Resolution succeeds on exactly the consistent graphs, as long as no more
    packages are reached than the depth limit allows. */
module ResolverSuccess {
  import opened Options
  import opened Paths
  import opened Packages
  import opened Resolver
  import opened ResolverLaws

  ghost predicate BranchesKnown(w: World, dir: Path) {
    forall i :: 0 <= i < |Deps(w, dir)| ==> Wants(w, dir, Deps(w, dir)[i]) != NoRevision
  }

  /** The root loads, every package reached can be prepared, every branch
      exists, and no two edges reached disagree: the same source or the same
      name means the same name, source, revision and branch. */
  ghost predicate Consistent(w: World, root: Path) {
    && Load(w, root).Some?
    && BranchesKnown(w, root)
    && (forall r :: Reaches(w, root, r) ==> Prepare(w, r) == None && BranchesKnown(w, DirOf(w, r)))
    && (forall r, s :: Reaches(w, root, r) && Reaches(w, root, s) && (r.key == s.key || r.name == s.name) ==> r == s)
  }

  /** The keys reached from the root. */
  ghost predicate Covers(w: World, root: Path, keys: set<Key>) {
    forall r :: Reaches(w, root, r) ==> r.key in keys
  }

  /** The walk is at the root or at a package reached from it. */
  ghost predicate AtPackage(w: World, root: Path, dir: Path) {
    dir == root || exists r :: Reaches(w, root, r) && DirOf(w, r) == dir
  }

  ghost predicate AllReached(w: World, root: Path, m: Resolved) {
    forall k :: k in m ==> Reaches(w, root, RequestOf(k, m[k]))
  }

  /** Where the walk may stand: no deeper than there are packages filed. */
  ghost predicate Standing(w: World, root: Path, dir: Path, m: Resolved, depth: nat, keys: set<Key>) {
    && AtPackage(w, root, dir)
    && Inv(w, root, m) && AllReached(w, root, m)
    && depth <= |m|
    && Covers(w, root, keys) && |keys| <= DEPTH_LIMIT
  }

  lemma ReachedFromHere(w: World, root: Path, dir: Path, r: Request)
    requires AtPackage(w, root, dir) && Reaches(w, dir, r)
    ensures Reaches(w, root, r)
  {
    hide Reaches, DirOf;
    if dir != root {
      var s :| Reaches(w, root, s) && DirOf(w, s) == dir;
      ReachesOnward(w, root, s, r);
    }
  }

  lemma LoadsHere(w: World, root: Path, dir: Path)
    requires Consistent(w, root) && AtPackage(w, root, dir)
    ensures Load(w, dir).Some? && BranchesKnown(w, dir)
  {
    hide Reaches, DirOf, BranchesKnown, Load;
    if dir != root {
      var s :| Reaches(w, root, s) && DirOf(w, s) == dir;
      PreparedLoads(w, s);
    }
  }

  lemma PreparedLoads(w: World, r: Request)
    requires Prepare(w, r) == None
    ensures Load(w, DirOf(w, r)).Some?
  {
  }

  lemma FewFiled(w: World, root: Path, m: Resolved, keys: set<Key>)
    requires AllReached(w, root, m) && Covers(w, root, keys)
    ensures |m| <= |keys|
  {
    hide Reaches;
    forall k | k in m.Keys ensures k in keys {
      assert RequestOf(k, m[k]).key == k;
    }
    assert m.Keys <= keys;
    Smaller(m.Keys, keys);
    assert |m| == |m.Keys|;
  }

  lemma {:induction false} Smaller(a: set<Key>, b: set<Key>)
    requires a <= b
    ensures |a| <= |b|
    decreases |a|
  {
    if a != {} {
      var k :| k in a;
      Smaller(a - {k}, b - {k});
    }
  }

  /** The walk goes on from a larger map. */
  lemma StandingOn(w: World, root: Path, dir: Path, m: Resolved, m1: Resolved, depth: nat, keys: set<Key>)
    requires Standing(w, root, dir, m, depth, keys) && Grown(w, root, dir, m, m1)
    ensures Standing(w, root, dir, m1, depth, keys)
  {
    hide Reaches, Inv, AtPackage, Satisfied, DirOf;
    forall k | k in m1 ensures Reaches(w, root, RequestOf(k, m1[k])) {
      if k !in m {
        ReachedFromHere(w, root, dir, RequestOf(k, m1[k]));
      }
    }
    assert m.Keys <= m1.Keys;
    Smaller(m.Keys, m1.Keys);
    assert |m| == |m.Keys| && |m1| == |m1.Keys|;
  }

  lemma {:induction false} VisitSucceeds(w: World, root: Path, dir: Path, m: Resolved, depth: nat, keys: set<Key>)
    requires Consistent(w, root) && Standing(w, root, dir, m, depth, keys)
    ensures Visit(w, root, dir, m, depth).Ok?
    decreases Left(depth), 2, 0
  {
    hide Consistent, Covers, AllReached, Inv, AtPackage;
    FewFiled(w, root, m, keys);
    LoadsHere(w, root, dir);
    VisitDepsSucceeds(w, root, dir, Deps(w, dir), m, depth, keys);
  }

  lemma {:induction false} VisitDepsSucceeds(w: World, root: Path, dir: Path, deps: seq<(string, Dependency)>,
      m: Resolved, depth: nat, keys: set<Key>)
    requires depth <= DEPTH_LIMIT && Consistent(w, root) && Standing(w, root, dir, m, depth, keys)
    requires forall d :: d in deps ==> d in Deps(w, dir)
    ensures VisitDeps(w, root, dir, deps, m, depth).Ok?
    decreases Left(depth), 1, |deps|
  {
    hide Consistent, Covers, AllReached, AtPackage, VisitDep, Deps, Grown, Filed;
    if |deps| > 0 {
      VisitDepSucceeds(w, root, dir, deps[0], m, depth, keys);
      VisitDepGrows(w, root, dir, deps[0], m, depth);
      var m1 := VisitDep(w, root, dir, deps[0], m, depth).value;
      StandingOn(w, root, dir, m, m1, depth, keys);
      VisitDepsSucceeds(w, root, dir, deps[1..], m1, depth, keys);
    }
  }

  lemma {:induction false} VisitDepSucceeds(w: World, root: Path, dir: Path, d: (string, Dependency), m: Resolved,
      depth: nat, keys: set<Key>)
    requires depth <= DEPTH_LIMIT && Consistent(w, root) && Standing(w, root, dir, m, depth, keys)
    requires d in Deps(w, dir)
    ensures VisitDep(w, root, dir, d, m, depth).Ok?
    decreases Left(depth), 0, 0
  {
    hide Consistent, Standing, Wants, Deps, Visit, Refusal, Disagreement, NewPackage, DirOf;
    BranchKnown(w, root, dir, d, m, depth, keys);
    WantedPath(w, dir, d);
    var want := Wants(w, dir, d);
    if want.Needs? {
      var r := want.request;
      DeclaredBy(w, dir, d, r);
      if r.key in m {
        NoDisagreement(w, root, dir, r, m, depth, keys);
      } else {
        NoRefusal(w, root, dir, r, m, depth, keys);
        var m1 := m[r.key := NewPackage(w, root, r)];
        StandingBelow(w, root, dir, r, m, depth, keys);
        VisitSucceeds(w, root, DirOf(w, r), m1, depth + 1, keys);
      }
    }
  }

  lemma BranchKnown(w: World, root: Path, dir: Path, d: (string, Dependency), m: Resolved, depth: nat, keys: set<Key>)
    requires Consistent(w, root) && Standing(w, root, dir, m, depth, keys) && d in Deps(w, dir)
    ensures Wants(w, dir, d) != NoRevision
  {
    hide Consistent, Wants, Deps, Covers, AllReached, Inv, AtPackage;
    LoadsHere(w, root, dir);
    var i :| 0 <= i < |Deps(w, dir)| && Deps(w, dir)[i] == d;
  }

  lemma NoDisagreement(w: World, root: Path, dir: Path, r: Request, m: Resolved, depth: nat, keys: set<Key>)
    requires Consistent(w, root) && Standing(w, root, dir, m, depth, keys) && Reaches(w, dir, r)
    requires r.key in m
    ensures Disagreement(m[r.key], r) == None
  {
    hide Reaches, Inv, AtPackage, BranchesKnown, Covers, Prepare;
    ReachedFromHere(w, root, dir, r);
    assert Reaches(w, root, RequestOf(r.key, m[r.key]));
    assert RequestOf(r.key, m[r.key]).key == r.key;
  }

  lemma NoRefusal(w: World, root: Path, dir: Path, r: Request, m: Resolved, depth: nat, keys: set<Key>)
    requires Consistent(w, root) && Standing(w, root, dir, m, depth, keys) && Reaches(w, dir, r)
    requires r.key !in m
    ensures Refusal(w, root, m, r) == None
  {
    hide Reaches, Inv, AtPackage, BranchesKnown, Covers, Prepare;
    ReachedFromHere(w, root, dir, r);
    forall k | k in m ensures m[k].name != r.name {
      assert RequestOf(k, m[k]).key == k && RequestOf(k, m[k]).name == m[k].name;
    }
  }

  lemma StandingBelow(w: World, root: Path, dir: Path, r: Request, m: Resolved, depth: nat, keys: set<Key>)
    requires Standing(w, root, dir, m, depth, keys) && Reaches(w, dir, r)
    requires r.key !in m && Refusal(w, root, m, r) == None
    requires r.key.PathKey? ==> r.rev == None && r.branch == None
    ensures Standing(w, root, DirOf(w, r), m[r.key := NewPackage(w, root, r)], depth + 1, keys)
  {
    hide Reaches, Inv, Refusal, NewPackage, Covers, DirOf;
    ReachedFromHere(w, root, dir, r);
    FiledFirst(w, root, m, r);
    NewNamed(w, root, r);
    var m1 := m[r.key := NewPackage(w, root, r)];
    assert m1.Keys == m.Keys + {r.key};
    assert |m| == |m.Keys| && |m1| == |m1.Keys|;
    forall k | k in m1 ensures Reaches(w, root, RequestOf(k, m1[k])) {
      if k != r.key {
        assert m1[k] == m[k];
      }
    }
  }

  /** When at most 32 packages are reached, resolution succeeds exactly on a
      consistent graph; cycles are no obstacle. */
  lemma ResolvesConsistent(w: World, root: Path, keys: set<Key>)
    requires Covers(w, root, keys) && |keys| <= DEPTH_LIMIT
    ensures Resolution(w, root).Ok? <==> Consistent(w, root)
  {
    hide Visit, Consistent, Covers;
    if Consistent(w, root) {
      assert Standing(w, root, root, map[], 0, keys);
      VisitSucceeds(w, root, root, map[], 0, keys);
    }
    if Resolution(w, root).Ok? {
      ResolvedConsistent(w, root);
    }
  }

  /** Whatever resolves is consistent, however many packages there are. */
  lemma ResolvedConsistent(w: World, root: Path)
    requires Resolution(w, root).Ok?
    ensures Consistent(w, root)
  {
    hide Resolution, Reaches, Prepare, Satisfied, DirOf, BranchesKnown;
    ResolutionGrows(w, root);
    var m := Resolution(w, root).value;
    SatisfiedBranches(w, root, m);
    forall r | Reaches(w, root, r)
      ensures r.key in m && RequestOf(r.key, m[r.key]) == r
      ensures Prepare(w, r) == None && BranchesKnown(w, DirOf(w, r))
    {
      ResolvedExactly(w, root, r);
      assert RequestOf(r.key, m[r.key]) == r;
      FiledPrepared(w, root, r.key, m[r.key]);
      SatisfiedBranches(w, DirOf(w, r), m);
    }
  }

  lemma FiledPrepared(w: World, root: Path, k: Key, p: Package)
    requires Filed(w, root, k, p)
    ensures Prepare(w, RequestOf(k, p)) == None
  {
  }

  lemma SatisfiedBranches(w: World, dir: Path, m: Resolved)
    requires Satisfied(w, dir, m)
    ensures Load(w, dir).Some? && BranchesKnown(w, dir)
  {
    hide Wants, Load;
    forall i | 0 <= i < |Deps(w, dir)| ensures Wants(w, dir, Deps(w, dir)[i]) != NoRevision {
      assert Met(w, dir, Deps(w, dir)[i], m);
    }
  }
}
