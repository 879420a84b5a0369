/** Manifests, the edges they declare and the packages those edges reach. The
    file system, the git remotes and the cache are one fixed `World`. */
module Packages {
  import opened Options
  import opened Paths

  /** One entry of `[dependencies]`. */
  datatype Dependency = Dependency(path: Option<Path>, git: Option<string>, rev: Option<string>, branch: Option<string>)

  /** The dependencies stand in the order of their keys. */
  datatype Manifest = Manifest(name: string, version: string, deps: seq<(string, Dependency)>)

  datatype ManifestFile = Missing | Malformed | Loaded(manifest: Manifest)

  /** The file `src/<name>.ty` of a package. */
  datatype RootModule = NoModule | BinModule | LibModule

  /** What a lockfile records as a package's source; text that neither form
      covers is kept as it is. */
  datatype Source = PathSource(rel: Path) | GitSource(url: string) | OtherSource(text: string)

  /** Everything outside the program. A path is looked up by its normal form;
      `revision` is `git ls-remote` for a branch, `fetch` says that a revision
      is cached or can be cloned, `cacheDir` is `cache_dir_for`, and `stray` is
      where a source that is no path leads when joined to the project root. */
  datatype World = World(
    file: Path -> ManifestFile,
    rootModule: Path -> RootModule,
    revision: (string, string) -> Option<string>,
    fetch: (string, string, string) -> bool,
    cacheDir: (string, Source, string) -> Path,
    stray: Source -> Path)

  datatype PkgError =
    | DepthExceeded
    | BadManifest(dir: Path)
    | NameMismatch(key: string, package: string)
    | MissingRootModule(name: string)
    | BinDepNotImportable(name: string)
    | BranchNotFound(name: string)
    | FetchFailed(name: string)
    | DepNameCollision(name: string, added: Source)
    | DepConflict(name: string, url: string)
    | LockfileNotFound
    | OutOfSync(name: string)
    | PathsOutOfSync(source: Source)
    | NotCached(name: string)

  datatype Outcome<+T> = Ok(value: T) | Err(error: PkgError)

  /** A resolved package, and equally a locked one. */
  datatype Package = Package(name: string, source: Source, rev: Option<string>, branch: Option<string>,
    version: Option<string>)

  /** What the resolver files a package under. */
  datatype Key = PathKey(dir: Path) | GitKey(url: string)

  /** What a declared dependency asks for, its branch looked up. */
  datatype Request = Request(name: string, key: Key, rev: Option<string>, branch: Option<string>)

  datatype Want = Nothing | NoRevision | Needs(request: Request)

  // ----- manifests

  function Load(w: World, dir: Path): Option<Manifest> {
    match w.file(Normalize(dir))
    case Loaded(m) => Some(m)
    case _ => None
  }

  function Deps(w: World, dir: Path): seq<(string, Dependency)> {
    match Load(w, dir)
    case Some(m) => m.deps
    case None => []
  }

  /** `load_manifest` rejects a dependency without a source or with two, and a
      git dependency without exactly one of revision and branch. */
  predicate Validated(d: Dependency) {
    && d.path.Some? != d.git.Some?
    && (d.git.Some? ==> d.rev.Some? != d.branch.Some?)
  }

  ghost predicate Lawful(w: World) {
    && (forall p :: w.file(p).Loaded? ==> forall d :: d in w.file(p).manifest.deps ==> Validated(d.1))
    && (forall name, source, rev :: Absolute(w.cacheDir(name, source, rev)))
  }

  lemma ValidatedDep(w: World, dir: Path, i: nat)
    requires Lawful(w) && i < |Deps(w, dir)|
    ensures Validated(Deps(w, dir)[i].1)
  {
    hide Validated;
    assert Deps(w, dir)[i] in w.file(Normalize(dir)).manifest.deps;
  }

  /** `validate_dep_root`. */
  function CheckRoot(w: World, name: string, dir: Path): Option<PkgError> {
    match Load(w, dir)
    case None => Some(BadManifest(dir))
    case Some(m) =>
      if m.name != name then Some(NameMismatch(name, m.name))
      else match w.rootModule(Normalize(dir))
        case NoModule => Some(MissingRootModule(name))
        case BinModule => Some(BinDepNotImportable(name))
        case LibModule => None
  }

  function VersionOf(w: World, dir: Path): Option<string> {
    match Load(w, dir)
    case Some(m) => Some(m.version)
    case None => None
  }

  // ----- edges

  function Wants(w: World, dir: Path, d: (string, Dependency)): Want {
    match d.1.path
    case Some(rel) => Needs(Request(d.0, PathKey(Normalize(Join(dir, rel))), None, None))
    case None =>
      match d.1.git
      case None => Nothing
      case Some(url) =>
        if d.1.rev.Some? then Needs(Request(d.0, GitKey(url), d.1.rev, None))
        else if d.1.branch.Some? then
          match w.revision(url, d.1.branch.value)
          case None => NoRevision
          case Some(sha) => Needs(Request(d.0, GitKey(url), Some(sha), d.1.branch))
        else Nothing
  }

  /** Where the requested package lives. */
  function DirOf(w: World, r: Request): Path {
    match r.key
    case PathKey(dir) => dir
    case GitKey(url) => w.cacheDir(r.name, GitSource(url), if r.rev.Some? then r.rev.value else "")
  }

  /** The package in `dir` declares a dependency on `r`. */
  ghost predicate Declares(w: World, dir: Path, r: Request) {
    exists i :: 0 <= i < |Deps(w, dir)| && Wants(w, dir, Deps(w, dir)[i]) == Needs(r)
  }

  ghost predicate Chain(w: World, dir: Path, rs: seq<Request>)
    decreases |rs|
  {
    |rs| > 0 ==> Declares(w, dir, rs[0]) && Chain(w, DirOf(w, rs[0]), rs[1..])
  }

  /** A chain of declarations leads from the package in `dir` to `r`. */
  ghost predicate Reaches(w: World, dir: Path, r: Request) {
    exists rs :: Chain(w, dir, rs) && |rs| > 0 && rs[|rs| - 1] == r
  }

  lemma {:induction false} ChainJoin(w: World, dir: Path, a: seq<Request>, b: seq<Request>)
    requires Chain(w, dir, a) && Chain(w, if |a| == 0 then dir else DirOf(w, a[|a| - 1]), b)
    ensures Chain(w, dir, a + b)
    decreases |a|
  {
    hide Declares, DirOf;
    if |a| == 0 {
      assert a + b == b;
    } else {
      ChainJoin(w, DirOf(w, a[0]), a[1..], b);
      assert (a + b)[1..] == a[1..] + b && (a + b)[0] == a[0];
    }
  }

  lemma ReachesDeclared(w: World, dir: Path, r: Request)
    requires Declares(w, dir, r)
    ensures Reaches(w, dir, r)
  {
    assert Chain(w, DirOf(w, r), []);
    assert [r][1..] == [];
    assert Chain(w, dir, [r]);
  }

  lemma ReachesOnward(w: World, dir: Path, r: Request, s: Request)
    requires Reaches(w, dir, r) && Reaches(w, DirOf(w, r), s)
    ensures Reaches(w, dir, s)
  {
    hide DirOf, Chain;
    var a :| Chain(w, dir, a) && |a| > 0 && a[|a| - 1] == r;
    var b :| Chain(w, DirOf(w, r), b) && |b| > 0 && b[|b| - 1] == s;
    ChainJoin(w, dir, a, b);
    assert (a + b)[|a + b| - 1] == s;
  }

  /** `P` holds of what the root declares, and passes along declarations. */
  lemma {:induction false} AlongChain(w: World, dir: Path, rs: seq<Request>, good: iset<Request>)
    requires Chain(w, dir, rs) && |rs| > 0
    requires forall r :: Declares(w, dir, r) ==> r in good
    requires forall r, s :: r in good && Declares(w, DirOf(w, r), s) ==> s in good
    ensures rs[|rs| - 1] in good
    decreases |rs|
  {
    hide Declares, DirOf;
    if |rs| > 1 {
      AlongChain(w, DirOf(w, rs[0]), rs[1..], good);
    }
  }
}
