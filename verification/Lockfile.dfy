/** The lockfile: written after a resolution, and checked against the manifests
    by a walk of its own. */
module Lockfile {
  import opened Options
  import opened Paths
  import opened Packages
  import opened Resolver

  // ----- the walk over path dependencies

  /** The sources so far, grown by those reached over path edges; a walk below
      the depth limit stops without an error. */
  function Collect(w: World, root: Path, dir: Path, out: set<Source>, depth: nat): Outcome<set<Source>>
    decreases Left(depth), 2, 0
  {
    if depth > DEPTH_LIMIT then Ok(out)
    else match Load(w, dir)
      case None => Err(BadManifest(dir))
      case Some(mf) => CollectDeps(w, root, dir, mf.deps, out, depth)
  }

  function CollectDeps(w: World, root: Path, dir: Path, deps: seq<(string, Dependency)>, out: set<Source>,
      depth: nat): Outcome<set<Source>>
    requires depth <= DEPTH_LIMIT
    decreases Left(depth), 1, |deps|
  {
    if |deps| == 0 then Ok(out)
    else match CollectDep(w, root, dir, deps[0].1, out, depth)
      case Err(e) => Err(e)
      case Ok(more) => CollectDeps(w, root, dir, deps[1..], more, depth)
  }

  function CollectDep(w: World, root: Path, dir: Path, d: Dependency, out: set<Source>,
      depth: nat): Outcome<set<Source>>
    requires depth <= DEPTH_LIMIT
    decreases Left(depth), 0, 0
  {
    match d.path
    case None => Ok(out)
    case Some(rel) =>
      var child := Normalize(Join(dir, rel));
      if SourceOf(PathKey(child), root) in out then Ok(out)
      else Collect(w, root, child, out + {SourceOf(PathKey(child), root)}, depth + 1)
  }

  class Collector {
    const w: World
    const root: Path
    var out: set<Source>

    constructor (w: World, root: Path)
      ensures this.w == w && this.root == root && out == {}
    {
      this.w, this.root, out := w, root, {};
    }

    ghost predicate Ends(want: Outcome<set<Source>>, failure: Option<PkgError>)
      reads this
    {
      match want
      case Ok(s) => failure == None && out == s
      case Err(e) => failure == Some(e)
    }

    /** `collect_path_dep_sources`. */
    method CollectFrom(dir: Path, depth: nat) returns (failure: Option<PkgError>)
      modifies this
      ensures Ends(Collect(w, root, dir, old(out), depth), failure)
      decreases Left(depth)
    {
      hide Load, Normalize, RelativeTo;
      if depth > DEPTH_LIMIT {
        return None;
      }
      var manifest := Load(w, dir);
      if manifest.None? {
        return Some(BadManifest(dir));
      }
      var deps := manifest.value.deps;
      assert deps[0..] == deps;
      for i := 0 to |deps|
        invariant CollectDeps(w, root, dir, deps[i..], out, depth) == CollectDeps(w, root, dir, deps, old(out), depth)
      {
        assert deps[i..][0] == deps[i] && deps[i..][1..] == deps[i + 1..];
        if deps[i].1.path.Some? {
          var child := NormalizePath(Join(dir, deps[i].1.path.value));
          var relative := PathRelativeTo(child, root);
          if PathSource(relative) !in out {
            out := out + {PathSource(relative)};
            failure := CollectFrom(child, depth + 1);
            if failure.Some? {
              return failure;
            }
          }
        }
      }
      failure := None;
    }
  }

  // ----- writing

  /** The packages of `m`, in the order of their names. */
  ghost predicate Records(m: Resolved, lf: seq<Package>) {
    && (forall i :: 0 <= i < |lf| ==> exists k :: k in m && m[k] == lf[i])
    && (forall k :: k in m ==> m[k] in lf)
    && (forall i, j :: 0 <= i < j < |lf| ==> Before(lf[i].name, lf[j].name))
  }

  /** Strings compare by their first difference. */
  predicate Before(a: string, b: string) {
    if |b| == 0 then false
    else if |a| == 0 then true
    else if a[0] != b[0] then a[0] < b[0]
    else Before(a[1..], b[1..])
  }

  lemma {:induction false} BeforeOrder(a: string, b: string)
    ensures !Before(a, a)
    ensures a != b ==> (Before(a, b) <==> !Before(b, a))
    decreases |a|
  {
    if |a| > 0 {
      BeforeOrder(a[1..], if |b| > 0 then b[1..] else b);
      if |b| > 0 && a[0] == b[0] && a[1..] == b[1..] {
        assert a == [a[0]] + a[1..] && b == [b[0]] + b[1..];
      }
    }
  }

  lemma {:induction false} BeforeChain(a: string, b: string, c: string)
    requires Before(a, b) && Before(b, c)
    ensures Before(a, c)
    decreases |a|
  {
    if |a| > 0 && a[0] == b[0] == c[0] {
      BeforeChain(a[1..], b[1..], c[1..]);
    }
  }

  /** Up to `i` the names are alike; there `a` ends, or has the smaller unit. */
  predicate ComesFirstAt(a: string, b: string, i: nat) {
    i <= |a| && i < |b| && a[..i] == b[..i] && (i == |a| || a[i] < b[i])
  }

  lemma AlikeFrom(a: string, b: string, i: nat)
    requires i > 0 && ComesFirstAt(a, b, i)
    ensures a[0] == b[0] && ComesFirstAt(a[1..], b[1..], i - 1)
  {
    assert a[0] == a[..i][0] && b[0] == b[..i][0];
    assert a[1..][..i - 1] == a[..i][1..] && b[1..][..i - 1] == b[..i][1..];
  }

  /** The order of names: a proper prefix comes first, and otherwise the first
      difference decides. */
  lemma {:induction false} BeforeIs(a: string, b: string)
    ensures Before(a, b) <==> exists i: nat :: ComesFirstAt(a, b, i)
    decreases |a|
  {
    forall i: nat | ComesFirstAt(a, b, i) ensures Before(a, b) {
      if i > 0 {
        AlikeFrom(a, b, i);
        BeforeIs(a[1..], b[1..]);
      }
    }
    if Before(a, b) {
      if |a| > 0 && a[0] == b[0] {
        BeforeIs(a[1..], b[1..]);
        var i: nat :| ComesFirstAt(a[1..], b[1..], i);
        assert a[..i + 1] == [a[0]] + a[1..][..i] && b[..i + 1] == [b[0]] + b[1..][..i];
        assert ComesFirstAt(a, b, i + 1);
      } else {
        assert ComesFirstAt(a, b, 0);
      }
    }
  }

  ghost predicate SortedByName(lf: seq<Package>) {
    forall i, j :: 0 <= i < j < |lf| ==> Before(lf[i].name, lf[j].name)
  }

  /** `build_and_write` of the resolved packages. */
  method WriteLock(m: Resolved) returns (lf: seq<Package>)
    requires forall j, k :: j in m && k in m && m[j].name == m[k].name ==> j == k
    ensures Records(m, lf)
  {
    hide Before;
    var rest := m.Keys;
    lf := [];
    while rest != {}
      invariant rest <= m.Keys
      invariant forall p :: p in lf ==> exists k :: k in m && k !in rest && m[k] == p
      invariant forall k :: k in m && k !in rest ==> m[k] in lf
      invariant SortedByName(lf)
      decreases |rest|
    {
      var k :| k in rest;
      lf := InsertByName(lf, m[k]);
      rest := rest - {k};
    }
    assert forall i :: 0 <= i < |lf| ==> lf[i] in lf;
  }

  method InsertByName(lf: seq<Package>, p: Package) returns (r: seq<Package>)
    requires SortedByName(lf) && forall q :: q in lf ==> q.name != p.name
    ensures SortedByName(r) && forall q :: q in r <==> q == p || q in lf
  {
    hide Before;
    var i := 0;
    while i < |lf| && Before(lf[i].name, p.name)
      invariant i <= |lf| && forall j :: 0 <= j < i ==> Before(lf[j].name, p.name)
    {
      i := i + 1;
    }
    forall j | i <= j < |lf| ensures Before(p.name, lf[j].name) {
      assert lf[i] in lf;
      BeforeOrder(p.name, lf[i].name);
      if i < j {
        BeforeChain(p.name, lf[i].name, lf[j].name);
      }
    }
    r := lf[..i] + [p] + lf[i..];
  }

  // ----- checking

  /** The source a direct dependency should be locked with. */
  function Expected(root: Path, d: Dependency): Option<Source> {
    if d.path.Some? then Some(SourceOf(PathKey(Normalize(Join(root, d.path.value))), root))
    else if d.git.Some? then Some(GitSource(d.git.value))
    else None
  }

  ghost predicate FirstAt(lf: seq<Package>, s: Source, i: nat) {
    i < |lf| && lf[i].source == s && forall j :: 0 <= j < i ==> lf[j].source != s
  }

  /** The package locked for a direct dependency still fits it. */
  predicate Fits(w: World, root: Path, p: Package, d: (string, Dependency)) {
    && (d.1.rev.Some? ==> p.rev == d.1.rev)
    && (d.1.branch.Some? ==> p.branch == d.1.branch)
    && !(d.1.rev.Some? && d.1.branch.None? && p.branch.Some?)
    && !(d.1.branch.Some? && d.1.rev.None? && p.branch.None?)
    && d.0 == p.name
    && (d.1.path.Some? ==> CheckRoot(w, d.0, Normalize(Join(root, d.1.path.value))) == None)
  }

  ghost predicate DirectOk(w: World, root: Path, lf: seq<Package>, d: (string, Dependency)) {
    Expected(root, d.1).Some? ==> exists i: nat :: FirstAt(lf, Expected(root, d.1).value, i) && Fits(w, root, lf[i], d)
  }

  function LockedPaths(lf: seq<Package>): set<Source> {
    set p | p in lf && p.source.PathSource? :: p.source
  }

  /** A locked package is in the cache, or its directory is a package root. */
  predicate PresentOk(w: World, root: Path, p: Package) {
    match p.rev
    case Some(rev) => w.file(Normalize(w.cacheDir(p.name, p.source, rev))) != Missing
    case None => CheckRoot(w, p.name, LocatedAt(w, root, p.source)) == None
  }

  function LocatedAt(w: World, root: Path, s: Source): Path {
    match s
    case PathSource(rel) => Join(root, rel)
    case _ => w.stray(s)
  }

  /** What `run_sync_locked` accepts. */
  ghost predicate Accepts(w: World, root: Path, lf: seq<Package>) {
    && Load(w, root).Some?
    && (forall i :: 0 <= i < |Deps(w, root)| ==> DirectOk(w, root, lf, Deps(w, root)[i]))
    && Collect(w, root, root, {}, 0) == Ok(LockedPaths(lf))
    && (forall i :: 0 <= i < |lf| ==> PresentOk(w, root, lf[i]))
  }

  /** What a refusal says: there is no lockfile, a direct dependency does not
      fit, the two sets of path sources differ, a locked revision is not in the
      cache, or a manifest or package root that was read is at fault. */
  ghost predicate Blames(w: World, root: Path, file: Option<seq<Package>>, e: PkgError) {
    if file.None? then e == LockfileNotFound
    else
      var lf := file.value;
      match e
      case LockfileNotFound => false
      case OutOfSync(name) =>
        exists i :: 0 <= i < |Deps(w, root)| && Deps(w, root)[i].0 == name && !DirectOk(w, root, lf, Deps(w, root)[i])
      case PathsOutOfSync(s) =>
        var live := Collect(w, root, root, {}, 0); live.Ok? && (s in live.value <==> s !in LockedPaths(lf))
      case NotCached(name) =>
        exists p :: p in lf && p.name == name && p.rev.Some? && !PresentOk(w, root, p)
      case _ =>
        || (e == BadManifest(root) && Load(w, root).None?)
        || (exists i :: 0 <= i < |Deps(w, root)| && PathAtFault(w, root, Deps(w, root)[i], e))
        || Collect(w, root, root, {}, 0) == Err(e)
        || (exists p :: p in lf && p.rev.None? && CheckRoot(w, p.name, LocatedAt(w, root, p.source)) == Some(e))
  }

  predicate PathAtFault(w: World, root: Path, d: (string, Dependency), e: PkgError) {
    d.1.path.Some? && CheckRoot(w, d.0, Normalize(Join(root, d.1.path.value))) == Some(e)
  }

  method CheckDirect(w: World, root: Path, lf: seq<Package>, d: (string, Dependency))
      returns (failure: Option<PkgError>)
    ensures failure == None <==> DirectOk(w, root, lf, d)
    ensures failure.Some? ==> failure == Some(OutOfSync(d.0)) || PathAtFault(w, root, d, failure.value)
  {
    hide CheckRoot, Normalize, RelativeTo;
    var expected;
    if d.1.path.Some? {
      var abs := NormalizePath(Join(root, d.1.path.value));
      var relative := PathRelativeTo(abs, root);
      expected := PathSource(relative);
    } else if d.1.git.Some? {
      expected := GitSource(d.1.git.value);
    } else {
      return None;
    }
    var i := 0;
    while i < |lf| && lf[i].source != expected
      invariant i <= |lf| && forall j :: 0 <= j < i ==> lf[j].source != expected
    {
      i := i + 1;
    }
    if i == |lf| {
      return Some(OutOfSync(d.0));
    }
    var pkg := lf[i];
    assert FirstAt(lf, expected, i);
    if d.1.rev.Some? && pkg.rev != d.1.rev {
      return Some(OutOfSync(d.0));
    }
    if d.1.branch.Some? && pkg.branch != d.1.branch {
      return Some(OutOfSync(d.0));
    }
    if d.1.rev.Some? && d.1.branch.None? && pkg.branch.Some? {
      return Some(OutOfSync(d.0));
    }
    if d.1.branch.Some? && d.1.rev.None? && pkg.branch.None? {
      return Some(OutOfSync(d.0));
    }
    if d.0 != pkg.name {
      return Some(OutOfSync(d.0));
    }
    if d.1.path.Some? {
      var depRoot := NormalizePath(Join(root, d.1.path.value));
      return CheckRoot(w, d.0, depRoot);
    }
    failure := None;
  }

  /** The names of the packages locked at a revision, or of those that are not. */
  function NamesOf(lf: seq<Package>, revised: bool): seq<string> {
    if |lf| == 0 then []
    else
      var p := lf[|lf| - 1];
      NamesOf(lf[..|lf| - 1], revised) + if p.rev.Some? == revised then [p.name] else []
  }

  /** Each package is named once in one of the two lists, in the lockfile's
      order. */
  lemma {:induction false} NamesAre(lf: seq<Package>, revised: bool, name: string)
    ensures name in NamesOf(lf, revised) <==> exists p :: p in lf && p.rev.Some? == revised && p.name == name
    ensures |NamesOf(lf, true)| + |NamesOf(lf, false)| == |lf|
    decreases |lf|
  {
    if |lf| > 0 {
      var n := |lf| - 1;
      NamesAre(lf[..n], revised, name);
      assert lf == lf[..n] + [lf[n]];
    }
  }

  /** The check of a package root and the walk have errors of their own. */
  predicate OwnError(e: PkgError) {
    e.BadManifest? || e.NameMismatch? || e.MissingRootModule? || e.BinDepNotImportable?
  }

  lemma CheckErrors(w: World)
    ensures forall name, dir :: CheckRoot(w, name, dir).Some? ==> OwnError(CheckRoot(w, name, dir).value)
  {
  }

  lemma {:induction false} CollectErrors(w: World, root: Path, dir: Path, out: set<Source>, depth: nat)
    ensures var o := Collect(w, root, dir, out, depth); o.Err? ==> OwnError(o.error)
    decreases Left(depth), 2, 0
  {
    hide Normalize, Join, SourceOf;
    if depth <= DEPTH_LIMIT && Load(w, dir).Some? {
      CollectDepsErrors(w, root, dir, Load(w, dir).value.deps, out, depth);
    }
  }

  lemma {:induction false} CollectDepsErrors(w: World, root: Path, dir: Path, deps: seq<(string, Dependency)>,
      out: set<Source>, depth: nat)
    requires depth <= DEPTH_LIMIT
    ensures var o := CollectDeps(w, root, dir, deps, out, depth); o.Err? ==> OwnError(o.error)
    decreases Left(depth), 1, |deps|
  {
    hide Normalize, Join, SourceOf;
    if |deps| > 0 {
      var d := deps[0].1;
      if d.path.Some? {
        var child := Normalize(Join(dir, d.path.value));
        CollectErrors(w, root, child, out + {SourceOf(PathKey(child), root)}, depth + 1);
      }
      var o := CollectDep(w, root, dir, d, out, depth);
      if o.Ok? {
        CollectDepsErrors(w, root, dir, deps[1..], o.value, depth);
      }
    }
  }

  /** `run_sync_locked`: the report lists the cached and the path packages. */
  method SyncLocked(w: World, root: Path, file: Option<seq<Package>>) returns (r: Outcome<(seq<string>, seq<string>)>)
    ensures r.Ok? <==> file.Some? && Accepts(w, root, file.value)
    ensures r.Ok? ==> r.value == (NamesOf(file.value, true), NamesOf(file.value, false))
    ensures r.Err? ==> Blames(w, root, file, r.error)
  {
    hide CheckRoot, Normalize, DirectOk, Collect, PresentOk, LocatedAt;
    CheckErrors(w);
    CollectErrors(w, root, root, {}, 0);
    if file.None? {
      return Err(LockfileNotFound);
    }
    var lf := file.value;
    var manifest := Load(w, root);
    if manifest.None? {
      return Err(BadManifest(root));
    }
    var deps := manifest.value.deps;
    for i := 0 to |deps|
      invariant forall j :: 0 <= j < i ==> DirectOk(w, root, lf, deps[j])
    {
      var failure := CheckDirect(w, root, lf, deps[i]);
      assert deps[i] == Deps(w, root)[i];
      if failure.Some? {
        return Err(failure.value);
      }
    }
    var live := new Collector(w, root);
    var failure := live.CollectFrom(root, 0);
    if failure.Some? {
      return Err(failure.value);
    }
    var locked := LockedPaths(lf);
    if s :| s in live.out && s !in locked {
      return Err(PathsOutOfSync(s));
    }
    if s :| s in locked && s !in live.out {
      return Err(PathsOutOfSync(s));
    }
    assert locked == live.out;
    r := CheckPresent(w, root, lf);
  }

  method CheckPresent(w: World, root: Path, lf: seq<Package>) returns (r: Outcome<(seq<string>, seq<string>)>)
    ensures r.Ok? <==> forall i :: 0 <= i < |lf| ==> PresentOk(w, root, lf[i])
    ensures r.Ok? ==> r.value == (NamesOf(lf, true), NamesOf(lf, false))
    ensures r.Err? ==>
      exists p :: p in lf && !PresentOk(w, root, p)
                  && if p.rev.Some? then r.error == NotCached(p.name)
                     else CheckRoot(w, p.name, LocatedAt(w, root, p.source)) == Some(r.error)
  {
    hide CheckRoot, Normalize;
    var cached, skipped := [], [];
    for i := 0 to |lf|
      invariant forall j :: 0 <= j < i ==> PresentOk(w, root, lf[j])
      invariant cached == NamesOf(lf[..i], true) && skipped == NamesOf(lf[..i], false)
    {
      assert lf[..i + 1][..i] == lf[..i];
      var pkg := lf[i];
      if pkg.rev.Some? {
        if w.file(Normalize(w.cacheDir(pkg.name, pkg.source, pkg.rev.value))) == Missing {
          return Err(NotCached(pkg.name));
        }
        cached := cached + [pkg.name];
      } else {
        var invalid := CheckRoot(w, pkg.name, LocatedAt(w, root, pkg.source));
        if invalid.Some? {
          return Err(invalid.value);
        }
        skipped := skipped + [pkg.name];
      }
    }
    assert lf[..|lf|] == lf;
    r := Ok((cached, skipped));
  }
}
