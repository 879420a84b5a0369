/** Numbering the source lines of a program for the coverage counters. */
module CoverageMap {
  import opened Options

  /** A source line; line 0 marks a location the compiler made up. */
  datatype Loc = Loc(file: nat, line: nat)

  datatype Stmt = Stmt(isLabel: bool, loc: Loc)

  datatype Func = Func(name: string, body: seq<Stmt>)

  datatype CovEntry = CovEntry(idx: nat, loc: Loc, fnName: Option<string>)

  /** A place that gets a counter; a function's entry carries its name. */
  datatype Site = Site(loc: Loc, fnName: Option<string>)

  predicate IsDummy(l: Loc) {
    l.line == 0
  }

  // ----- the places of a program

  /** The first real location at or after the start. */
  function FirstLoc(body: seq<Stmt>): Option<Loc> {
    if |body| == 0 then None
    else if !IsDummy(body[0].loc) then Some(body[0].loc)
    else FirstLoc(body[1..])
  }

  /** The places of the labels from statement `from` on. */
  function LabelSites(body: seq<Stmt>, from: nat): seq<Site>
    requires from <= |body|
    decreases |body| - from
  {
    if from == |body| then []
    else (if body[from].isLabel && FirstLoc(body[from..]).Some? then [Site(FirstLoc(body[from..]).value, None)] else [])
         + LabelSites(body, from + 1)
  }

  function EntrySites(f: Func): seq<Site> {
    match FirstLoc(f.body)
    case Some(l) => [Site(l, Some(f.name))]
    case None => []
  }

  function Sites(program: seq<Func>): seq<Site> {
    if |program| == 0 then []
    else
      Sites(program[..|program| - 1]) + EntrySites(program[|program| - 1]) +
      LabelSites(program[|program| - 1].body, 0)
  }

  /** A block starts at statement `i` of `f`, and `l` is where it is. */
  ghost predicate BlockAt(f: Func, i: nat, l: Loc) {
    i < |f.body| && (i == 0 || f.body[i].isLabel) && FirstLoc(f.body[i..]) == Some(l)
  }

  lemma {:induction false} LabelSitesAre(f: Func, from: nat, l: Loc)
    requires from <= |f.body|
    ensures (exists s :: s in LabelSites(f.body, from) && s.loc == l) <==>
      exists i: nat :: from <= i < |f.body| && f.body[i].isLabel && FirstLoc(f.body[i..]) == Some(l)
    decreases |f.body| - from
  {
    if from < |f.body| {
      LabelSitesAre(f, from + 1, l);
      var here := if f.body[from].isLabel && FirstLoc(f.body[from..]).Some?
        then [Site(FirstLoc(f.body[from..]).value, None)] else [];
      assert LabelSites(f.body, from) == here + LabelSites(f.body, from + 1);
      if f.body[from].isLabel && FirstLoc(f.body[from..]) == Some(l) {
        assert Site(l, None) in here;
      }
    }
  }

  ghost predicate HasSite(sites: seq<Site>, l: Loc) {
    exists s :: s in sites && s.loc == l
  }

  ghost predicate HasBlock(f: Func, l: Loc) {
    exists i: nat :: BlockAt(f, i, l)
  }

  lemma SiteOfEither(a: seq<Site>, b: seq<Site>, l: Loc)
    ensures HasSite(a + b, l) <==> HasSite(a, l) || HasSite(b, l)
  {
  }

  /** Every function entry and every label that has a location has a counter,
      and nothing else has. */
  lemma {:induction false} SitesAreBlocks(program: seq<Func>, l: Loc)
    ensures HasSite(Sites(program), l) <==> exists f :: f in program && HasBlock(f, l)
    decreases |program|
  {
    hide HasBlock, HasSite, EntrySites, LabelSites;
    if |program| > 0 {
      var n := |program| - 1;
      SitesAreBlocks(program[..n], l);
      BlocksOf(program[n], l);
      SiteOfEither(Sites(program[..n]), EntrySites(program[n]), l);
      SiteOfEither(EntrySites(program[n]), LabelSites(program[n].body, 0), l);
      SiteOfEither(Sites(program[..n]) + EntrySites(program[n]), LabelSites(program[n].body, 0), l);
      assert program == program[..n] + [program[n]];
    } else {
      NoSite(l);
    }
  }

  lemma NoSite(l: Loc)
    ensures !HasSite([], l)
  {
  }

  lemma BlocksOf(f: Func, l: Loc)
    ensures HasSite(EntrySites(f) + LabelSites(f.body, 0), l) <==> HasBlock(f, l)
  {
    LabelSitesAre(f, 0, l);
    assert f.body[0..] == f.body;
    SiteOfEither(EntrySites(f), LabelSites(f.body, 0), l);
    if FirstLoc(f.body) == Some(l) {
      assert BlockAt(f, 0, l);
      assert Site(l, Some(f.name)) in EntrySites(f);
    }
    forall i: nat | 0 <= i < |f.body| && f.body[i].isLabel && FirstLoc(f.body[i..]) == Some(l) ensures HasBlock(f, l) {
      assert BlockAt(f, i, l);
    }
  }

  // ----- the numbering

  /** The distinct locations, in the order they are first seen. */
  function Seen(sites: seq<Site>): (ls: seq<Loc>)
    ensures forall l :: l in ls <==> exists s :: s in sites && s.loc == l
    ensures forall i, j :: 0 <= i < j < |ls| ==> ls[i] != ls[j]
  {
    if |sites| == 0 then []
    else
      var before := Seen(sites[..|sites| - 1]);
      var l := sites[|sites| - 1].loc;
      assert forall s :: s in sites <==> s in sites[..|sites| - 1] || s == sites[|sites| - 1];
      if l in before then before else before + [l]
  }

  /** The first function that enters at `l`. */
  function NameAt(sites: seq<Site>, l: Loc): Option<string> {
    if |sites| == 0 then None
    else
      var before := NameAt(sites[..|sites| - 1], l);
      if before.None? && sites[|sites| - 1].loc == l then sites[|sites| - 1].fnName else before
  }

  /** The entry location of the last function with that name. */
  function EntryOf(program: seq<Func>, name: string): Option<Loc> {
    if |program| == 0 then None
    else
      var f := program[|program| - 1];
      if f.name == name && FirstLoc(f.body).Some? then FirstLoc(f.body) else EntryOf(program[..|program| - 1], name)
  }

  /** The counters are dense, one for each location of `sites`: entry `i` has
      counter `i` and is the `i`-th location seen. */
  ghost predicate Numbered(sites: seq<Site>, n: nat, counterFor: map<Loc, nat>, entries: seq<CovEntry>) {
    && n == |entries| == |Seen(sites)|
    && (forall l :: l in counterFor <==> l in Seen(sites))
    && (forall i :: 0 <= i < n ==> counterFor[Seen(sites)[i]] == i)
    && (forall i :: 0 <= i < n ==> entries[i] == CovEntry(i, Seen(sites)[i], NameAt(sites, Seen(sites)[i])))
  }

  class CovMap {
    var n: nat
    var counterFor: map<Loc, nat>
    var fnEntryCtr: map<string, nat>
    var entries: seq<CovEntry>

    constructor ()
      ensures Numbers([]) && fnEntryCtr == map[]
    {
      n, counterFor, fnEntryCtr, entries := 0, map[], map[], [];
    }

    /** The state after `sites`. */
    ghost predicate Numbers(sites: seq<Site>)
      reads this`n, this`counterFor, this`entries
    {
      Numbered(sites, n, counterFor, entries)
    }

    /** `get_or_assign`. */
    method GetOrAssign(loc: Loc, fnName: Option<string>, ghost sites: seq<Site>) returns (idx: nat)
      requires Numbers(sites)
      modifies this
      ensures Numbers(sites + [Site(loc, fnName)])
      ensures loc in counterFor && counterFor[loc] == idx
      ensures fnEntryCtr == old(fnEntryCtr)
      ensures forall l :: l in old(counterFor) ==> l in counterFor && counterFor[l] == old(counterFor[l])
    {
      hide Numbered, Seen, NameAt;
      if loc in counterFor {
        idx := counterFor[loc];
        SeenAgain(sites, loc, fnName, n, counterFor, entries);
        if fnName.Some? && entries[idx].fnName.None? {
          entries := entries[idx := entries[idx].(fnName := fnName)];
        }
        return;
      }
      SeenFirst(sites, loc, fnName, n, counterFor, entries);
      idx := n;
      n := n + 1;
      counterFor := counterFor[loc := idx];
      entries := entries + [CovEntry(idx, loc, fnName)];
    }
  }

  /** A location seen before; its entry takes a name if it has none. */
  lemma SeenAgain(sites: seq<Site>, loc: Loc, fnName: Option<string>, n: nat, counterFor: map<Loc, nat>,
      entries: seq<CovEntry>)
    requires Numbered(sites, n, counterFor, entries) && loc in counterFor
    ensures counterFor[loc] < |entries|
    ensures var idx := counterFor[loc];
      var named := if fnName.Some? && entries[idx].fnName.None? then entries[idx := entries[idx].(fnName := fnName)]
        else entries;
      Numbered(sites + [Site(loc, fnName)], n, counterFor, named)
  {
    hide Seen, NameAt;
    SeenStep(sites, Site(loc, fnName));
    var ls := Seen(sites);
    var i: nat :| i < n && ls[i] == loc;
    assert counterFor[ls[i]] == i;
    var named := if fnName.Some? && entries[i].fnName.None? then entries[i := entries[i].(fnName := fnName)]
      else entries;
    forall j | 0 <= j < n ensures named[j] == CovEntry(j, ls[j], NameAt(sites + [Site(loc, fnName)], ls[j])) {
      assert entries[j] == CovEntry(j, ls[j], NameAt(sites, ls[j])) && (j != i ==> ls[j] != loc);
    }
  }

  lemma SeenFirst(sites: seq<Site>, loc: Loc, fnName: Option<string>, n: nat, counterFor: map<Loc, nat>,
      entries: seq<CovEntry>)
    requires Numbered(sites, n, counterFor, entries) && loc !in counterFor
    ensures Numbered(sites + [Site(loc, fnName)], n + 1, counterFor[loc := n], entries + [CovEntry(n, loc, fnName)])
  {
    hide Seen, NameAt;
    SeenStep(sites, Site(loc, fnName));
    NotNamed(sites, loc);
    forall i | 0 <= i < n ensures Seen(sites)[i] != loc {
      assert Seen(sites)[i] in Seen(sites);
    }
  }

  /** A location has a counter exactly when a block starts there, and the
      counter leads to the entry for that very location. */
  lemma CountersAreBlocks(program: seq<Func>, n: nat, counterFor: map<Loc, nat>, entries: seq<CovEntry>, l: Loc)
    requires Numbered(Sites(program), n, counterFor, entries)
    ensures l in counterFor <==> exists f :: f in program && HasBlock(f, l)
    ensures l in counterFor ==>
      counterFor[l] < |entries| && entries[counterFor[l]].loc == l && entries[counterFor[l]].idx == counterFor[l]
  {
    hide HasBlock, Sites, NameAt;
    SitesAreBlocks(program, l);
    var ls := Seen(Sites(program));
    if l in counterFor {
      var i: nat :| i < n && ls[i] == l;
      assert counterFor[ls[i]] == i;
    }
  }

  lemma SeenStep(sites: seq<Site>, s: Site)
    ensures Seen(sites + [s]) == if s.loc in Seen(sites) then Seen(sites) else Seen(sites) + [s.loc]
    ensures forall l :: NameAt(sites + [s], l) == if NameAt(sites, l).None? && s.loc == l then s.fnName
      else NameAt(sites, l)
  {
    assert (sites + [s])[..|sites|] == sites;
  }

  lemma {:induction false} NotNamed(sites: seq<Site>, l: Loc)
    requires l !in Seen(sites)
    ensures NameAt(sites, l) == None
  {
    if |sites| > 0 {
      NotNamed(sites[..|sites| - 1], l);
      assert sites[|sites| - 1] in sites;
    }
  }

  /** `build_cov_map`. */
  method BuildCovMap(program: seq<Func>) returns (m: CovMap)
    ensures fresh(m) && m.Numbers(Sites(program))
    ensures forall name :: name in m.fnEntryCtr <==> EntryOf(program, name).Some?
    ensures forall name :: name in m.fnEntryCtr ==>
      EntryOf(program, name).value in m.counterFor && m.fnEntryCtr[name] == m.counterFor[EntryOf(program, name).value]
  {
    hide Seen, NameAt;
    m := new CovMap();
    ghost var sites := [];
    for k := 0 to |program|
      invariant fresh(m) && m.Numbers(sites) && sites == Sites(program[..k])
      invariant forall name :: name in m.fnEntryCtr <==> EntryOf(program[..k], name).Some?
      invariant forall name :: name in m.fnEntryCtr ==>
        EntryOf(program[..k], name).value in m.counterFor
          && m.fnEntryCtr[name] == m.counterFor[EntryOf(program[..k], name).value]
    {
      sites := AddFunc(m, program, k, sites);
    }
    assert program[..|program|] == program;
  }

  /** The entry of function `k`, then its labels. */
  method AddFunc(m: CovMap, program: seq<Func>, k: nat, ghost before: seq<Site>) returns (ghost sites: seq<Site>)
    requires k < |program| && m.Numbers(before) && before == Sites(program[..k])
    requires forall name :: name in m.fnEntryCtr <==> EntryOf(program[..k], name).Some?
    requires forall name :: name in m.fnEntryCtr ==>
      EntryOf(program[..k], name).value in m.counterFor
        && m.fnEntryCtr[name] == m.counterFor[EntryOf(program[..k], name).value]
    modifies m
    ensures m.Numbers(sites) && sites == Sites(program[..k + 1])
    ensures forall name :: name in m.fnEntryCtr <==> EntryOf(program[..k + 1], name).Some?
    ensures forall name :: name in m.fnEntryCtr ==>
      EntryOf(program[..k + 1], name).value in m.counterFor
      && m.fnEntryCtr[name] == m.counterFor[EntryOf(program[..k + 1], name).value]
  {
    hide Seen, NameAt, CovMap.Numbers;
    var f := program[k];
    assert program[..k + 1][..k] == program[..k];
    var loc := FirstNonDummyLoc(f.body);
    sites := before;
    if loc.Some? {
      var idx := m.GetOrAssign(loc.value, Some(f.name), before);
      m.fnEntryCtr := m.fnEntryCtr[f.name := idx];
      sites := before + [Site(loc.value, Some(f.name))];
    }
    assert sites == before + EntrySites(f);
    ghost var counters := m.counterFor;
    sites := AddLabels(m, f.body, sites);
    assert sites == before + EntrySites(f) + LabelSites(f.body, 0);
    assert forall name :: name in m.fnEntryCtr ==> EntryOf(program[..k + 1], name).value in counters;
  }

  method AddLabels(m: CovMap, body: seq<Stmt>, ghost before: seq<Site>) returns (ghost sites: seq<Site>)
    requires m.Numbers(before)
    modifies m
    ensures m.Numbers(sites) && sites == before + LabelSites(body, 0)
    ensures m.fnEntryCtr == old(m.fnEntryCtr)
    ensures forall l :: l in old(m.counterFor) ==> l in m.counterFor && m.counterFor[l] == old(m.counterFor[l])
  {
    hide Seen, NameAt, CovMap.Numbers;
    sites := before;
    for i := 0 to |body|
      invariant m.Numbers(sites) && sites + LabelSites(body, i) == before + LabelSites(body, 0)
      invariant m.fnEntryCtr == old(m.fnEntryCtr)
      invariant forall l :: l in old(m.counterFor) ==> l in m.counterFor && m.counterFor[l] == old(m.counterFor[l])
    {
      if body[i].isLabel {
        var loc := if !IsDummy(body[i].loc) then Some(body[i].loc) else None;
        if loc.None? {
          loc := FirstNonDummyLoc(body[i + 1..]);
        }
        assert body[i..][1..] == body[i + 1..];
        assert loc == FirstLoc(body[i..]);
        if loc.Some? {
          var _ := m.GetOrAssign(loc.value, None, sites);
          sites := sites + [Site(loc.value, None)];
        }
      }
    }
  }

  /** `first_non_dummy_loc`. */
  method FirstNonDummyLoc(body: seq<Stmt>) returns (r: Option<Loc>)
    ensures r == FirstLoc(body)
  {
    assert body[0..] == body;
    for i := 0 to |body|
      invariant FirstLoc(body) == FirstLoc(body[i..])
    {
      assert body[i..][0] == body[i] && body[i..][1..] == body[i + 1..];
      if !IsDummy(body[i].loc) {
        return Some(body[i].loc);
      }
    }
    r := None;
  }
}
