/** File paths as their components, and the two functions that relate them. */
module Paths {

  datatype Component = RootDir | CurDir | ParentDir | Normal(name: string)

  /** What `Path::components` yields: a root can only come first. */
  type Path = p: seq<Component> | forall i :: 0 < i < |p| ==> p[i] != RootDir

  predicate Absolute(p: Path) {
    |p| > 0 && p[0] == RootDir
  }

  /** `Path::join`. */
  function Join(base: Path, rel: Path): Path {
    if Absolute(rel) then rel else base + rel
  }

  // ----- normal form

  predicate EndsNormal(p: Path) {
    |p| > 0 && p[|p| - 1].Normal?
  }

  /** One turn of the loop in `normalize_path`. */
  function Apply(comps: Path, c: Component): Path
    requires c == RootDir ==> comps == []
  {
    if c == CurDir then comps
    else if c == ParentDir && EndsNormal(comps) then comps[..|comps| - 1]
    else comps + [c]
  }

  function Normalize(p: Path): Path {
    if |p| == 0 then []
    else
      Apply(Normalize(p[..|p| - 1]), p[|p| - 1])
  }

  lemma NormalizeStep(p: Path, c: Component)
    requires c != RootDir
    ensures Normalize(p + [c]) == Apply(Normalize(p), c)
  {
    assert (p + [c])[..|p|] == p;
  }

  method NormalizePath(path: Path) returns (comps: Path)
    ensures comps == Normalize(path)
  {
    comps := [];
    for i := 0 to |path|
      invariant comps == Normalize(path[..i])
    {
      assert path[..i + 1][..i] == path[..i];
      if path[i].CurDir? {
      } else if path[i].ParentDir? {
        if |comps| > 0 && comps[|comps| - 1].Normal? {
          comps := comps[..|comps| - 1];
        } else {
          comps := comps + [path[i]];
        }
      } else {
        comps := comps + [path[i]];
      }
    }
    assert path[..|path|] == path;
  }

  /** No `.`, and `..` only ahead of all names. */
  predicate IsNormal(p: Path) {
    && (forall i :: 0 <= i < |p| ==> p[i] != CurDir)
    && (forall i :: 0 < i < |p| && p[i] == ParentDir ==> !p[i - 1].Normal?)
  }

  lemma {:induction false} NormalizeNormal(p: Path)
    ensures IsNormal(Normalize(p))
    ensures Absolute(Normalize(p)) <==> Absolute(p)
  {
    if |p| > 0 {
      NormalizeNormal(p[..|p| - 1]);
    }
  }

  lemma {:induction false} NormalFixed(p: Path)
    requires IsNormal(p)
    ensures Normalize(p) == p
  {
    if |p| > 0 {
      NormalFixed(p[..|p| - 1]);
      assert p == p[..|p| - 1] + [p[|p| - 1]];
    }
  }

  lemma NormalizeIdempotent(p: Path)
    ensures Normalize(Normalize(p)) == Normalize(p)
  {
    NormalizeNormal(p);
    NormalFixed(Normalize(p));
  }

  // ----- the place a path leads to

  /** One step from the directory with the given names below the root. */
  function Step(at: seq<string>, c: Component): seq<string> {
    match c
    case RootDir => []
    case CurDir => at
    case ParentDir => if |at| == 0 then [] else at[..|at| - 1]
    case Normal(name) => at + [name]
  }

  function Walk(at: seq<string>, p: Path): seq<string> {
    if |p| == 0 then at else Step(Walk(at, p[..|p| - 1]), p[|p| - 1])
  }

  /** Normalizing keeps the place, wherever the walk starts. */
  lemma {:induction false} NormalizeKeepsPlace(at: seq<string>, p: Path)
    ensures Walk(at, Normalize(p)) == Walk(at, p)
  {
    if |p| > 0 {
      NormalizeKeepsPlace(at, p[..|p| - 1]);
      ApplySteps(at, Normalize(p[..|p| - 1]), p[|p| - 1]);
    }
  }

  lemma ApplySteps(at: seq<string>, comps: Path, c: Component)
    requires c == RootDir ==> comps == []
    ensures Walk(at, Apply(comps, c)) == Step(Walk(at, comps), c)
  {
    if c == ParentDir && EndsNormal(comps) {
      assert Walk(at, comps) == Walk(at, comps[..|comps| - 1]) + [comps[|comps| - 1].name];
    } else if c != CurDir {
      assert (comps + [c])[..|comps|] == comps;
    }
  }

  function Named(at: seq<string>): (p: Path)
    ensures |p| == |at| + 1 && p[0] == RootDir && forall i :: 0 <= i < |at| ==> p[i + 1] == Normal(at[i])
  {
    if |at| == 0 then [RootDir] else Named(at[..|at| - 1]) + [Normal(at[|at| - 1])]
  }

  /** An absolute path that does not climb above the root normalizes to the
      names of its place, so two of them normalize alike exactly when they lead
      to the same place. */
  lemma {:induction false} PlaceDecides(p: Path)
    requires Absolute(p) && ParentDir !in Normalize(p)
    ensures Normalize(p) == Named(Walk([], p))
  {
    NormalizeNormal(p);
    NormalizeKeepsPlace([], p);
    WalkNames(Normalize(p));
  }

  lemma {:induction false} WalkNames(p: Path)
    requires Absolute(p) && IsNormal(p) && ParentDir !in p
    ensures p == Named(Walk([], p))
  {
    assert p == p[..|p| - 1] + [p[|p| - 1]];
    if |p| > 1 {
      WalkNames(p[..|p| - 1]);
      assert Walk([], p)[..|p| - 2] == Walk([], p[..|p| - 1]);
    }
  }

  // ----- relative paths

  /** The length of the common prefix. */
  function Common(p: Path, b: Path): (n: nat)
    ensures n <= |p| && n <= |b| && p[..n] == b[..n]
    ensures n < |p| && n < |b| ==> p[n] != b[n]
  {
    if |p| == 0 || |b| == 0 then 0
    else if p[0] != b[0] then 0
    else
      var n := 1 + Common(p[1..], b[1..]);
      assert p[..n] == [p[0]] + p[1..][..n - 1] && b[..n] == [b[0]] + b[1..][..n - 1];
      n
  }

  function Ups(k: nat): (p: Path)
    ensures |p| == k && forall i :: 0 <= i < k ==> p[i] == ParentDir
  {
    if k == 0 then [] else Ups(k - 1) + [ParentDir]
  }

  /** `PathBuf::push`, component by component. */
  function PushAll(result: Path, p: Path): Path {
    if Absolute(p) then p else result + p
  }

  function RelativeTo(path: Path, base: Path): Path {
    var p, b := Normalize(path), Normalize(base);
    var n := Common(p, b);
    var result := PushAll(Ups(|b| - n), p[n..]);
    if result == [] then [CurDir] else result
  }

  method CountCommon(p: Path, b: Path) returns (common: nat)
    ensures common == Common(p, b)
  {
    common := 0;
    while common < |p| && common < |b| && p[common] == b[common]
      invariant common <= |p| && common <= |b| && p[..common] == b[..common]
    {
      assert p[..common + 1] == p[..common] + [p[common]];
      assert b[..common + 1] == b[..common] + [b[common]];
      common := common + 1;
    }
    CommonOnly(p, b, common);
  }

  lemma PrefixAt(p: Path, b: Path, n: nat, i: nat)
    requires i < n <= |p| && n <= |b| && p[..n] == b[..n]
    ensures p[i] == b[i]
  {
    assert p[..n][i] == b[..n][i];
  }

  lemma CommonOnly(p: Path, b: Path, n: nat)
    requires n <= |p| && n <= |b| && p[..n] == b[..n]
    requires n < |p| && n < |b| ==> p[n] != b[n]
    ensures n == Common(p, b)
  {
    hide Common;
    if n < Common(p, b) {
      PrefixAt(p, b, Common(p, b), n);
    } else if Common(p, b) < n {
      PrefixAt(p, b, n, Common(p, b));
    }
  }

  method PathRelativeTo(path: Path, base: Path) returns (result: Path)
    ensures result == RelativeTo(path, base)
  {
    hide Common, Normalize, Ups;
    var p := NormalizePath(path);
    var b := NormalizePath(base);
    var common := CountCommon(p, b);
    result := [];
    NoUps();
    for i := 0 to |b| - common
      invariant result == Ups(i)
    {
      OneUp(i + 1);
      result := result + [ParentDir];
    }
    result := PushSuffix(result, p, common);
    if result == [] {
      result := [CurDir];
    }
  }

  lemma NoUps()
    ensures Ups(0) == []
  {
  }

  lemma OneUp(k: nat)
    requires k > 0
    ensures Ups(k) == Ups(k - 1) + [ParentDir]
  {
  }

  method PushSuffix(prefix: Path, p: Path, common: nat) returns (result: Path)
    requires common <= |p|
    ensures result == PushAll(prefix, p[common..])
  {
    result := prefix;
    for i := common to |p|
      invariant result == if common == 0 < i && p[0] == RootDir then p[..i] else prefix + p[common..i]
    {
      ghost var was := result;
      if p[i] == RootDir {
        result := [RootDir];
      } else {
        result := result + [p[i]];
        assert p[common..i + 1] == p[common..i] + [p[i]];
      }
    }
    assert p[common..|p|] == p[common..] && p[..|p|] == p;
  }

  // ----- the round trip

  /** The loop of `normalize_path`, continued. */
  function Onto(comps: Path, q: Path): Path
    requires !Absolute(q)
  {
    if |q| == 0 then comps else Apply(Onto(comps, q[..|q| - 1]), q[|q| - 1])
  }

  lemma {:induction false} NormalizeJoined(a: Path, q: Path)
    requires !Absolute(q)
    ensures Normalize(a + q) == Onto(Normalize(a), q)
    decreases |q|
  {
    if |q| == 0 {
      assert a + q == a;
    } else {
      NormalizeJoined(a, q[..|q| - 1]);
      assert (a + q)[..|a + q| - 1] == a + q[..|q| - 1];
    }
  }

  lemma {:induction false} OntoTwice(comps: Path, q: Path, r: Path)
    requires !Absolute(q) && !Absolute(r)
    ensures Onto(comps, q + r) == Onto(Onto(comps, q), r)
    decreases |r|
  {
    if |r| == 0 {
      assert q + r == q;
    } else {
      OntoTwice(comps, q, r[..|r| - 1]);
      assert (q + r)[..|q + r| - 1] == q + r[..|r| - 1];
    }
  }

  /** Climbing over names only. */
  lemma {:induction false} ClimbNames(b: Path, k: nat)
    requires k <= |b| && forall i :: |b| - k <= i < |b| ==> b[i].Normal?
    ensures Onto(b, Ups(k)) == b[..|b| - k]
    decreases k
  {
    if k > 0 {
      assert Ups(k)[..k - 1] == Ups(k - 1);
      ClimbNames(b, k - 1);
    }
  }

  /** A `..` in place is never climbed over. */
  lemma {:induction false} ClimbStops(b: Path, q: Path, i: nat)
    requires i < |b| && b[i] == ParentDir && !Absolute(q)
    ensures i < |Onto(b, q)| && Onto(b, q)[i] == ParentDir
    decreases |q|
  {
    if |q| > 0 {
      ClimbStops(b, q[..|q| - 1], i);
    }
  }

  lemma {:induction false} NormalOnto(p: Path, n: nat, m: nat)
    requires IsNormal(p) && 0 < n <= m <= |p|
    ensures Onto(p[..n], p[n..m]) == p[..m]
    decreases m
  {
    if n < m {
      NormalOnto(p, n, m - 1);
      assert p[n..m][..m - 1 - n] == p[n..m - 1];
      assert p[..m] == p[..m - 1] + [p[m - 1]];
    } else {
      assert p[n..m] == [];
    }
  }

  /** In a normal absolute path a later `..` means one at every place after the
      root. */
  lemma {:induction false} ParentsLead(b: Path, n: nat, i: nat)
    requires IsNormal(b) && Absolute(b) && 0 < n <= i < |b| && b[i] == ParentDir
    ensures b[n] == ParentDir
    decreases i
  {
    if n < i {
      ParentsLead(b, n, i - 1);
    }
  }

  /** Joining a base with a path made relative to it leads back to the path,
      exactly when the base does not climb above the root beyond the prefix it
      shares with the path. */
  lemma RelativeRoundTrip(path: Path, base: Path)
    requires Absolute(path) && Absolute(base)
    ensures var p, b := Normalize(path), Normalize(base);
      Normalize(Join(base, RelativeTo(path, base))) == p <==> ParentDir !in b[Common(p, b)..]
  {
    hide Normalize, IsNormal, Common, Ups, Onto, RelativeTo, Join;
    var p, b := Normalize(path), Normalize(base);
    NormalizeNormal(path);
    NormalizeNormal(base);
    var n := Common(p, b);
    var k := |b| - n;
    SharedRoot(p, b);
    JoinedRelative(path, base);
    if ParentDir in b[n..] {
      var i :| n <= i < |b| && b[i] == ParentDir;
      ParentsLead(b, n, i);
      ClimbStops(b, Ups(k) + p[n..], n);
    } else {
      NamesOnly(b, n);
      ClimbNames(b, k);
      OntoTwice(b, Ups(k), p[n..]);
      NormalOnto(p, n, |p|);
      assert p[n..|p|] == p[n..] && p[..|p|] == p;
    }
  }

  /** From `/..`, the path made for `/a` does not lead back. */
  lemma ClimbingBaseLost()
    ensures var path: Path, base: Path := [RootDir, Normal("a")], [RootDir, ParentDir];
      Normalize(Join(base, RelativeTo(path, base))) != Normalize(path)
  {
    var path: Path, base: Path := [RootDir, Normal("a")], [RootDir, ParentDir];
    assert path[..1] == base[..1] == [RootDir] && base[..0] == [];
    assert Normalize(base) == base && Normalize(path) == path;
    assert Common(path, base) == 1;
    assert base[1..][0] == ParentDir;
    RelativeRoundTrip(path, base);
  }

  lemma NamesOnly(b: Path, n: nat)
    requires IsNormal(b) && 0 < n <= |b| && ParentDir !in b[n..]
    ensures forall i :: n <= i < |b| ==> b[i].Normal?
  {
    forall i | n <= i < |b| ensures b[i].Normal? {
      assert b[i] in b[n..];
    }
  }

  lemma OntoHere(b: Path)
    ensures Onto(b, [CurDir]) == Onto(b, []) == b
  {
  }

  lemma SharedRoot(p: Path, b: Path)
    requires Absolute(p) && Absolute(b)
    ensures Common(p, b) > 0
  {
  }

  /** What follows the shared prefix, after climbing to it. */
  function Suffix(p: Path, b: Path): (q: Path)
    requires Absolute(p) && Absolute(b)
    ensures !Absolute(q)
  {
    hide Common, Ups;
    SharedRoot(p, b);
    Ups(|b| - Common(p, b)) + p[Common(p, b)..]
  }

  lemma RelativeForm(path: Path, base: Path)
    requires Absolute(Normalize(path)) && Absolute(Normalize(base))
    ensures var q := Suffix(Normalize(path), Normalize(base)); RelativeTo(path, base) == if q == [] then [CurDir] else q
  {
    hide Normalize, Common, Ups;
    SharedRoot(Normalize(path), Normalize(base));
  }

  lemma JoinedRelative(path: Path, base: Path)
    requires Absolute(path) && Absolute(base) && Absolute(Normalize(path)) && Absolute(Normalize(base))
    ensures var b := Normalize(base);
      Normalize(Join(base, RelativeTo(path, base))) == Onto(b, Suffix(Normalize(path), b))
  {
    hide Normalize, RelativeTo, Onto, Suffix;
    var b := Normalize(base);
    var q := Suffix(Normalize(path), b);
    RelativeForm(path, base);
    OntoHere(b);
    NormalizeJoined(base, [CurDir]);
    NormalizeJoined(base, q);
  }

  /** So from a root that does not climb, distinct paths have distinct relative
      forms. */
  lemma RelativeInjective(p: Path, q: Path, root: Path)
    requires Absolute(p) && Absolute(q) && Absolute(root) && ParentDir !in Normalize(root)
    requires RelativeTo(p, root) == RelativeTo(q, root)
    ensures Normalize(p) == Normalize(q)
  {
    hide Normalize, RelativeTo;
    RelativeRoundTrip(p, root);
    RelativeRoundTrip(q, root);
  }

  // ----- the shortest way

  lemma CommonAtLeast(p: Path, b: Path, k: nat)
    requires k <= |p| && k <= |b| && p[..k] == b[..k]
    ensures Common(p, b) >= k
  {
    hide Common;
    if Common(p, b) < k {
      PrefixAt(p, b, k, Common(p, b));
    }
  }

  /** One component takes a path at most one directory further away. */
  lemma OneStepAway(b: Path, c: Path, x: Component)
    requires x != RootDir
    ensures |Apply(c, x)| - 2 * Common(Apply(c, x), b) <= |c| - 2 * Common(c, b) + 1
  {
    hide Common;
    var d, n := Apply(c, x), Common(c, b);
    if x == ParentDir && EndsNormal(c) {
      var k := if n == |c| then n - 1 else n;
      assert d[..k] == c[..n][..k] && b[..k] == b[..n][..k];
      CommonAtLeast(d, b, k);
    } else if x != CurDir {
      assert d[..n] == c[..n];
      CommonAtLeast(d, b, n);
    }
  }

  lemma {:induction false} StepsAway(b: Path, q: Path)
    requires !Absolute(q)
    ensures |b| + |Onto(b, q)| - 2 * Common(Onto(b, q), b) <= |q|
    decreases |q|
  {
    hide Common, Apply;
    if |q| == 0 {
      CommonAtLeast(b, b, |b|);
    } else {
      StepsAway(b, q[..|q| - 1]);
      OneStepAway(b, Onto(b, q[..|q| - 1]), q[|q| - 1]);
    }
  }

  /** No other relative path that leads from the base to the same normal path
      has fewer components. */
  lemma RelativeShortest(path: Path, base: Path, q: Path)
    requires Absolute(path) && Absolute(base) && |q| > 0 && !Absolute(q)
    requires Normalize(Join(base, q)) == Normalize(path)
    ensures |RelativeTo(path, base)| <= |q|
  {
    hide Normalize, Onto, RelativeTo, Common;
    NormalizeNormal(path);
    NormalizeNormal(base);
    RelativeForm(path, base);
    NormalizeJoined(base, q);
    StepsAway(Normalize(base), q);
  }
}
