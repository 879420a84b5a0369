/** The transitive resolver: a depth-first walk that files each package once
    and rejects edges that disagree with what is filed. */
module Resolver {
  import opened Options
  import opened Paths
  import opened Packages

  const DEPTH_LIMIT := 32

  type Resolved = map<Key, Package>

  function SourceOf(key: Key, root: Path): Source {
    match key
    case PathKey(dir) => PathSource(RelativeTo(dir, root))
    case GitKey(url) => GitSource(url)
  }

  predicate NameTaken(m: Resolved, name: string) {
    exists k :: k in m && m[k].name == name
  }

  /** The filed package and the request agree. */
  predicate Agrees(p: Package, r: Request) {
    p.name == r.name && p.rev == r.rev && p.branch == r.branch
  }

  function NewPackage(w: World, root: Path, r: Request): Package {
    Package(r.name, SourceOf(r.key, root), r.rev, r.branch, VersionOf(w, DirOf(w, r)))
  }

  /** A fetch, or for a path nothing, and the checks on the package's root. */
  function Prepare(w: World, r: Request): Option<PkgError> {
    if r.key.GitKey? && !w.fetch(r.name, r.key.url, if r.rev.Some? then r.rev.value else "")
      then Some(FetchFailed(r.name))
    else CheckRoot(w, r.name, DirOf(w, r))
  }

  function Left(depth: nat): nat {
    if depth > DEPTH_LIMIT then 0 else DEPTH_LIMIT + 1 - depth
  }

  // ----- the walk as a function of the map so far

  function Visit(w: World, root: Path, dir: Path, m: Resolved, depth: nat): Outcome<Resolved>
    decreases Left(depth), 2, 0
  {
    if depth > DEPTH_LIMIT then Err(DepthExceeded)
    else match Load(w, dir)
      case None => Err(BadManifest(dir))
      case Some(mf) => VisitDeps(w, root, dir, mf.deps, m, depth)
  }

  function VisitDeps(w: World, root: Path, dir: Path, deps: seq<(string, Dependency)>, m: Resolved,
      depth: nat): Outcome<Resolved>
    requires depth <= DEPTH_LIMIT
    decreases Left(depth), 1, |deps|
  {
    if |deps| == 0 then Ok(m)
    else match VisitDep(w, root, dir, deps[0], m, depth)
      case Err(e) => Err(e)
      case Ok(m1) => VisitDeps(w, root, dir, deps[1..], m1, depth)
  }

  function VisitDep(w: World, root: Path, dir: Path, d: (string, Dependency), m: Resolved,
      depth: nat): Outcome<Resolved>
    requires depth <= DEPTH_LIMIT
    decreases Left(depth), 0, 0
  {
    match Wants(w, dir, d)
    case Nothing => Ok(m)
    case NoRevision => Err(BranchNotFound(d.0))
    case Needs(r) =>
      if r.key in m then
        (match Disagreement(m[r.key], r) case Some(e) => Err(e) case None => Ok(m))
      else match Refusal(w, root, m, r)
        case Some(e) => Err(e)
        case None => Visit(w, root, DirOf(w, r), m[r.key := NewPackage(w, root, r)], depth + 1)
  }

  /** How a request clashes with the package already filed under its key. */
  function Disagreement(p: Package, r: Request): Option<PkgError> {
    if p.name != r.name then Some(NameMismatch(r.name, p.name))
    else match r.key
      case PathKey(_) => None
      case GitKey(url) => if p.rev != r.rev || p.branch != r.branch then Some(DepConflict(r.name, url)) else None
  }

  /** Why a request for a new package is refused. A path package's name is
      looked up before its root is checked, a git package's after. */
  function Refusal(w: World, root: Path, m: Resolved, r: Request): Option<PkgError> {
    if r.key.PathKey? && NameTaken(m, r.name) then Some(DepNameCollision(r.name, SourceOf(r.key, root)))
    else if Prepare(w, r).Some? then Prepare(w, r)
    else if NameTaken(m, r.name) then Some(DepNameCollision(r.name, SourceOf(r.key, root)))
    else None
  }

  // ----- the walk over a shared map

  class Walker {
    const w: World
    const root: Path
    var resolved: Resolved

    constructor (w: World, root: Path)
      ensures this.w == w && this.root == root && resolved == map[]
    {
      this.w, this.root, resolved := w, root, map[];
    }

    /** The map or the error is the one the function computes. */
    ghost predicate Ends(want: Outcome<Resolved>, failure: Option<PkgError>)
      reads this
    {
      match want
      case Ok(m) => failure == None && resolved == m
      case Err(e) => failure == Some(e)
    }

    /** `resolve_transitive_impl`. */
    method Resolve(dir: Path, depth: nat) returns (failure: Option<PkgError>)
      modifies this
      ensures Ends(Visit(w, root, dir, old(resolved), depth), failure)
      decreases Left(depth), 1
    {
      hide VisitDep, Load;
      if depth > DEPTH_LIMIT {
        return Some(DepthExceeded);
      }
      var manifest := Load(w, dir);
      if manifest.None? {
        return Some(BadManifest(dir));
      }
      var deps := manifest.value.deps;
      assert deps[0..] == deps;
      for i := 0 to |deps|
        invariant VisitDeps(w, root, dir, deps[i..], resolved, depth) ==
          VisitDeps(w, root, dir, deps, old(resolved), depth)
      {
        assert deps[i..][0] == deps[i] && deps[i..][1..] == deps[i + 1..];
        NothingWanted(w, root, dir, deps[i], resolved, depth);
        if deps[i].1.path.Some? {
          failure := ResolvePath(dir, deps[i], depth);
          if failure.Some? {
            return failure;
          }
        } else if deps[i].1.git.Some? {
          failure := ResolveGit(dir, deps[i], depth);
          if failure.Some? {
            return failure;
          }
        }
      }
      failure := None;
    }

    method ResolvePath(dir: Path, d: (string, Dependency), depth: nat) returns (failure: Option<PkgError>)
      requires depth <= DEPTH_LIMIT && d.1.path.Some?
      modifies this
      ensures Ends(VisitDep(w, root, dir, d, old(resolved), depth), failure)
      decreases Left(depth), 0
    {
      hide Visit, CheckRoot, Normalize, VersionOf, RelativeTo;
      var depRoot := NormalizePath(Join(dir, d.1.path.value));
      var key := PathKey(depRoot);
      if key !in resolved {
        var relative := PathRelativeTo(depRoot, root);
        var source := PathSource(relative);
        if NameTaken(resolved, d.0) {
          return Some(DepNameCollision(d.0, source));
        }
        var invalid := CheckRoot(w, d.0, depRoot);
        if invalid.Some? {
          return invalid;
        }
        resolved := resolved[key := Package(d.0, source, None, None, VersionOf(w, depRoot))];
        failure := Resolve(depRoot, depth + 1);
      } else if resolved[key].name != d.0 {
        failure := Some(NameMismatch(d.0, resolved[key].name));
      } else {
        failure := None;
      }
    }

    method ResolveGit(dir: Path, d: (string, Dependency), depth: nat) returns (failure: Option<PkgError>)
      requires depth <= DEPTH_LIMIT && d.1.path.None? && d.1.git.Some?
      modifies this
      ensures Ends(VisitDep(w, root, dir, d, old(resolved), depth), failure)
      decreases Left(depth), 0
    {
      hide Visit, CheckRoot, VersionOf;
      var url := d.1.git.value;
      var rev, branch;
      if d.1.rev.Some? {
        rev, branch := d.1.rev.value, None;
      } else if d.1.branch.Some? {
        var sha := w.revision(url, d.1.branch.value);
        if sha.None? {
          return Some(BranchNotFound(d.0));
        }
        rev, branch := sha.value, d.1.branch;
      } else {
        return None;
      }
      if GitKey(url) in resolved {
        var existing := resolved[GitKey(url)];
        if existing.name != d.0 {
          return Some(NameMismatch(d.0, existing.name));
        }
        if existing.rev != Some(rev) || existing.branch != branch {
          return Some(DepConflict(d.0, url));
        }
        return None;
      }
      if !w.fetch(d.0, url, rev) {
        return Some(FetchFailed(d.0));
      }
      var cached := w.cacheDir(d.0, GitSource(url), rev);
      var invalid := CheckRoot(w, d.0, cached);
      if invalid.Some? {
        return invalid;
      }
      if NameTaken(resolved, d.0) {
        return Some(DepNameCollision(d.0, GitSource(url)));
      }
      resolved := resolved[GitKey(url) := Package(d.0, GitSource(url), Some(rev), branch, VersionOf(w, cached))];
      failure := Resolve(cached, depth + 1);
    }
  }

  lemma NothingWanted(w: World, root: Path, dir: Path, d: (string, Dependency), m: Resolved, depth: nat)
    requires depth <= DEPTH_LIMIT
    ensures d.1.path.None? && d.1.git.None? ==> VisitDep(w, root, dir, d, m, depth) == Ok(m)
  {
  }
}
