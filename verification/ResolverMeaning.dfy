/** What resolution means in terms of the files it read: what a filed package
    is, what a manifest's dependencies make it file, and what an error says. */
module ResolverMeaning {
  import opened Options
  import opened Paths
  import opened Packages
  import opened Resolver
  import opened ResolverLaws
  import opened ResolverSuccess

  // ----- packages

  /** The directory is the root of an importable package with this manifest. */
  predicate IsPackage(w: World, dir: Path, mf: Manifest) {
    w.file(Normalize(dir)) == Loaded(mf) && w.rootModule(Normalize(dir)) == LibModule
  }

  /** Where a filed package lives. */
  function HomeOf(w: World, k: Key, p: Package): Path {
    match k
    case PathKey(dir) => dir
    case GitKey(url) => w.cacheDir(p.name, GitSource(url), if p.rev.Some? then p.rev.value else "")
  }

  /** A filed package: a package of that name and version stands in its home;
      a path package has no revision, a git package one that was fetched. */
  ghost predicate Sound(w: World, root: Path, k: Key, p: Package) {
    && (exists mf :: IsPackage(w, HomeOf(w, k, p), mf) && mf.name == p.name && p.version == Some(mf.version))
    && match k
       case PathKey(dir) => p.source == PathSource(RelativeTo(dir, root)) && p.rev == None && p.branch == None
       case GitKey(url) => p.source == GitSource(url) && p.rev.Some? && w.fetch(p.name, url, p.rev.value)
  }

  lemma CheckedPackage(w: World, name: string, dir: Path)
    ensures CheckRoot(w, name, dir) == None <==> exists mf :: IsPackage(w, dir, mf) && mf.name == name
    ensures CheckRoot(w, name, dir) == None ==>
      exists mf :: IsPackage(w, dir, mf) && mf.name == name && VersionOf(w, dir) == Some(mf.version)
  {
    hide Normalize;
    if CheckRoot(w, name, dir) == None {
      assert IsPackage(w, dir, Load(w, dir).value);
    }
  }

  /** After success every filed package is sound. */
  lemma FiledSound(w: World, root: Path, k: Key)
    requires Resolution(w, root).Ok? && k in Resolution(w, root).value
    ensures Sound(w, root, k, Resolution(w, root).value[k])
  {
    hide Resolution, Reaches, Satisfied, CheckRoot, IsPackage, VersionOf, RelativeTo;
    ResolutionGrows(w, root);
    var p := Resolution(w, root).value[k];
    assert Filed(w, root, k, p);
    CheckedPackage(w, p.name, DirOf(w, RequestOf(k, p)));
    if k.GitKey? {
      GitHasRevision(w, root, RequestOf(k, p));
    }
  }

  // ----- dependencies

  /** What a declared dependency asks for: by path, the package in the directory
      it leads to; by git, the one at the revision named or at the one its
      branch points to. */
  ghost predicate Asks(w: World, dir: Path, d: (string, Dependency), r: Request) {
    && r.name == d.0
    && (d.1.path.Some? ==> r.key == PathKey(Normalize(Join(dir, d.1.path.value))) && r.rev == None && r.branch == None)
    && (d.1.path.None? ==>
          && d.1.git.Some? && r.key == GitKey(d.1.git.value) && r.rev.Some?
          && (d.1.rev.Some? ==> r.rev == d.1.rev && r.branch == None)
          && (d.1.rev.None? ==>
                d.1.branch.Some? && r.rev == w.revision(d.1.git.value, d.1.branch.value) && r.branch == d.1.branch))
  }

  ghost predicate CallsFor(w: World, dir: Path, d: (string, Dependency), k: Key, p: Package) {
    Asks(w, dir, d, Request(p.name, k, p.rev, p.branch))
  }

  /** A manifest at the root, or in the home of a filed package. */
  ghost predicate ManifestAt(w: World, root: Path, m: Resolved, dir: Path, mf: Manifest) {
    w.file(Normalize(dir)) == Loaded(mf) && (dir == root || exists j :: j in m && HomeOf(w, j, m[j]) == dir)
  }

  lemma WantsCalls(w: World, dir: Path, d: (string, Dependency), r: Request, p: Package)
    requires Validated(d.1) && Wants(w, dir, d) == Needs(r)
    ensures Asks(w, dir, d, r) && (Agrees(p, r) <==> CallsFor(w, dir, d, r.key, p))
  {
    hide Normalize, Join;
  }

  lemma AsksWants(w: World, dir: Path, d: (string, Dependency), r: Request)
    requires Validated(d.1) && Asks(w, dir, d, r)
    ensures Wants(w, dir, d) == Needs(r)
  {
    hide Normalize, Join;
  }

  /** The edges of the graph are what the manifests ask for. */
  lemma DeclaresMeans(w: World, dir: Path, r: Request)
    requires Lawful(w)
    ensures Declares(w, dir, r) <==>
      exists mf, i: nat :: w.file(Normalize(dir)) == Loaded(mf) && i < |mf.deps| && Asks(w, dir, mf.deps[i], r)
  {
    hide Asks, Wants, Validated, Normalize, Load;
    if Declares(w, dir, r) {
      var i := DeclaredAt(w, dir, r);
      LoadedFile(w, dir);
      ManifestDeps(w, dir, Load(w, dir).value);
      ValidatedDep(w, dir, i);
      WantsCalls(w, dir, Deps(w, dir)[i], r, Package(r.name, OtherSource(""), r.rev, r.branch, None));
    }
    forall mf, i: nat | w.file(Normalize(dir)) == Loaded(mf) && i < |mf.deps| && Asks(w, dir, mf.deps[i], r)
      ensures Declares(w, dir, r)
    {
      ManifestDeps(w, dir, mf);
      ValidatedDep(w, dir, i);
      AsksWants(w, dir, mf.deps[i], r);
    }
  }

  /** Every branch that a manifest follows exists. */
  lemma BranchesKnownMeans(w: World, dir: Path)
    requires Lawful(w)
    ensures BranchesKnown(w, dir) <==>
      forall i :: 0 <= i < |Deps(w, dir)| && Deps(w, dir)[i].1.git.Some? && Deps(w, dir)[i].1.branch.Some? ==>
        w.revision(Deps(w, dir)[i].1.git.value, Deps(w, dir)[i].1.branch.value).Some?
  {
    hide Normalize, Join, Load, Deps;
    forall i | 0 <= i < |Deps(w, dir)| ensures Validated(Deps(w, dir)[i].1) {
      ValidatedDep(w, dir, i);
    }
  }

  lemma WantsSomething(w: World, dir: Path, d: (string, Dependency))
    requires Validated(d.1)
    ensures Wants(w, dir, d) != Nothing
  {
    hide Normalize, Join;
  }

  lemma ManifestDeps(w: World, dir: Path, mf: Manifest)
    requires w.file(Normalize(dir)) == Loaded(mf)
    ensures Deps(w, dir) == mf.deps
  {
    hide Normalize;
  }

  lemma HomeIsDir(w: World, k: Key, p: Package)
    ensures HomeOf(w, k, p) == DirOf(w, RequestOf(k, p))
  {
  }

  /** After success the dependencies of the root and of every filed package are
      filed, each as its manifest declares it. */
  lemma DependenciesFiled(w: World, root: Path, dir: Path, mf: Manifest, i: nat)
    requires Lawful(w) && Resolution(w, root).Ok? && i < |mf.deps|
    requires ManifestAt(w, root, Resolution(w, root).value, dir, mf)
    ensures var m := Resolution(w, root).value; exists k :: k in m && CallsFor(w, dir, mf.deps[i], k, m[k])
  {
    hide Resolution, Reaches, Inv, HomeOf, DirOf, CallsFor, Wants, Validated, Normalize, Load;
    ResolutionGrows(w, root);
    var m := Resolution(w, root).value;
    if dir != root {
      var j :| j in m && HomeOf(w, j, m[j]) == dir;
      HomeIsDir(w, j, m[j]);
    }
    assert Satisfied(w, dir, m);
    ManifestDeps(w, dir, mf);
    ValidatedDep(w, dir, i);
    WantsSomething(w, dir, mf.deps[i]);
    assert Met(w, dir, Deps(w, dir)[i], m);
    var r := Wants(w, dir, mf.deps[i]).request;
    WantsCalls(w, dir, mf.deps[i], r, m[r.key]);
  }

  /** And every filed package is called for by one of them. */
  lemma FiledCalledFor(w: World, root: Path, k: Key)
    requires Lawful(w) && Resolution(w, root).Ok? && k in Resolution(w, root).value
    ensures var m := Resolution(w, root).value;
      exists dir, mf, i: nat ::
        ManifestAt(w, root, m, dir, mf) && i < |mf.deps| && CallsFor(w, dir, mf.deps[i], k, m[k])
  {
    hide Resolution, Satisfied, Inv, HomeOf, DirOf, CallsFor, Wants, Validated, Normalize, Load, Declares, Chain;
    ResolutionGrows(w, root);
    var m := Resolution(w, root).value;
    var r := RequestOf(k, m[k]);
    var dir := LastDeclares(w, root, r);
    if dir != root {
      var s :| Reaches(w, root, s) && DirOf(w, s) == dir;
      ResolvedExactly(w, root, s);
      HomeIsDir(w, s.key, m[s.key]);
      assert RequestOf(s.key, m[s.key]) == s;
    }
    var i := DeclaredAt(w, dir, r);
    var mf := Load(w, dir).value;
    LoadedFile(w, dir);
    ManifestDeps(w, dir, mf);
    ValidatedDep(w, dir, i);
    WantsCalls(w, dir, mf.deps[i], r, m[k]);
    assert ManifestAt(w, root, m, dir, mf);
  }

  lemma LoadedFile(w: World, dir: Path)
    requires Load(w, dir).Some?
    ensures w.file(Normalize(dir)) == Loaded(Load(w, dir).value)
  {
    hide Normalize;
  }

  lemma DeclaredAt(w: World, dir: Path, r: Request) returns (i: nat)
    requires Declares(w, dir, r)
    ensures i < |Deps(w, dir)| && Wants(w, dir, Deps(w, dir)[i]) == Needs(r) && Load(w, dir).Some?
  {
    hide Wants, Normalize;
    i :| i < |Deps(w, dir)| && Wants(w, dir, Deps(w, dir)[i]) == Needs(r);
  }

  /** The last package on the way to `r`. */
  lemma LastDeclares(w: World, root: Path, r: Request) returns (dir: Path)
    requires Reaches(w, root, r)
    ensures Declares(w, dir, r) && AtPackage(w, root, dir)
  {
    hide Declares, DirOf, Chain;
    var rs :| Chain(w, root, rs) && |rs| > 0 && rs[|rs| - 1] == r;
    dir := LastLink(w, root, rs);
  }

  lemma {:induction false} LastLink(w: World, dir: Path, rs: seq<Request>) returns (last: Path)
    requires Chain(w, dir, rs) && |rs| > 0
    ensures Declares(w, last, rs[|rs| - 1])
    ensures last == dir || exists s :: Reaches(w, dir, s) && DirOf(w, s) == last
    decreases |rs|
  {
    hide Declares, DirOf;
    last := dir;
    if |rs| > 1 {
      last := LastLink(w, DirOf(w, rs[0]), rs[1..]);
      ReachesDeclared(w, dir, rs[0]);
      if last != DirOf(w, rs[0]) {
        var s :| Reaches(w, DirOf(w, rs[0]), s) && DirOf(w, s) == last;
        ReachesOnward(w, dir, rs[0], s);
      }
    }
  }

  // ----- the condition of success

  /** What a request needs to be prepared: a package of its name in its home,
      and for git a revision that can be had. */
  ghost predicate Ready(w: World, r: Request) {
    && (r.key.GitKey? ==> w.fetch(r.name, r.key.url, if r.rev.Some? then r.rev.value else ""))
    && exists mf :: IsPackage(w, DirOf(w, r), mf) && mf.name == r.name
  }

  lemma PreparedReady(w: World, r: Request)
    ensures Prepare(w, r) == None <==> Ready(w, r)
  {
    hide CheckRoot, IsPackage, DirOf;
    CheckedPackage(w, r.name, DirOf(w, r));
  }

  /** With at most 32 packages reached, resolution succeeds exactly if the root
      has a manifest, every request reached is ready, no branch is missing, and
      no two requests reached share a source or a name without being the same. */
  lemma ResolvesReady(w: World, root: Path, keys: set<Key>)
    requires Covers(w, root, keys) && |keys| <= 32
    ensures Resolution(w, root).Ok? <==>
      && w.file(Normalize(root)).Loaded?
      && BranchesKnown(w, root)
      && (forall r :: Reaches(w, root, r) ==> Ready(w, r) && BranchesKnown(w, DirOf(w, r)))
      && (forall r, s :: Reaches(w, root, r) && Reaches(w, root, s) && (r.key == s.key || r.name == s.name) ==> r == s)
  {
    hide Resolution, Covers, Reaches, Ready, Prepare, BranchesKnown, DirOf, Normalize;
    ResolvesConsistent(w, root, keys);
    forall r ensures Prepare(w, r) == None <==> Ready(w, r) {
      PreparedReady(w, r);
    }
  }
}
