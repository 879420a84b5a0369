/** The numbering of a program told from its blocks: where a block is, which
    counter its line gets, and which function an entry names. */
module CoverageBlocks {
  import opened Options
  import opened CoverageMap

  // ----- where a block is

  /** The first statement from `from` on with a real line is `i`. */
  ghost predicate FirstReal(body: seq<Stmt>, from: nat, i: nat) {
    from <= i < |body| && body[i].loc.line != 0 && forall j :: from <= j < i ==> body[j].loc.line == 0
  }

  lemma {:induction false} FirstLocIs(body: seq<Stmt>, from: nat, l: Loc)
    requires from <= |body|
    ensures FirstLoc(body[from..]) == Some(l) <==> exists i: nat :: FirstReal(body, from, i) && body[i].loc == l
    decreases |body| - from
  {
    if from < |body| {
      assert body[from..][0] == body[from] && body[from..][1..] == body[from + 1..];
      if IsDummy(body[from].loc) {
        FirstLocIs(body, from + 1, l);
        forall i: nat ensures FirstReal(body, from, i) <==> FirstReal(body, from + 1, i) {
        }
      } else {
        assert FirstReal(body, from, from);
      }
    }
  }

  /** A block starts at the entry of a function and at each label; it is where
      the first statement with a real line from there on is. */
  lemma BlockIs(f: Func, i: nat, l: Loc)
    ensures BlockAt(f, i, l) <==>
      && i < |f.body| && (i == 0 || f.body[i].isLabel)
      && exists j: nat :: FirstReal(f.body, i, j) && f.body[j].loc == l
  {
    if i < |f.body| {
      FirstLocIs(f.body, i, l);
    }
  }

  // ----- the functions an entry names

  /** Function number `k` enters at `l`. */
  ghost predicate EntersAt(program: seq<Func>, k: nat, l: Loc) {
    k < |program| && BlockAt(program[k], 0, l)
  }

  lemma EntersFirst(program: seq<Func>, k: nat, l: Loc)
    requires k < |program|
    ensures EntersAt(program, k, l) <==> FirstLoc(program[k].body) == Some(l)
  {
    assert program[k].body[0..] == program[k].body;
  }

  /** Of the functions with a name, the last one that has a location decides. */
  ghost predicate LastNamed(program: seq<Func>, name: string, k: nat, l: Loc) {
    && EntersAt(program, k, l) && program[k].name == name
    && forall j, m :: k < j < |program| && program[j].name == name ==> !EntersAt(program, j, m)
  }

  lemma {:induction false} EntryOfIs(program: seq<Func>, name: string, l: Loc)
    ensures EntryOf(program, name) == Some(l) <==> exists k: nat :: LastNamed(program, name, k, l)
    decreases |program|
  {
    hide FirstLoc, BlockAt;
    if |program| > 0 {
      var n := |program| - 1;
      EntryOfIs(program[..n], name, l);
      forall m ensures EntersAt(program, n, m) <==> FirstLoc(program[n].body) == Some(m) {
        EntersFirst(program, n, m);
      }
      forall k: nat, m | k < n ensures EntersAt(program[..n], k, m) <==> EntersAt(program, k, m) {
      }
      if program[n].name == name && FirstLoc(program[n].body).Some? {
        var here := FirstLoc(program[n].body).value;
        assert LastNamed(program, name, n, here);
      } else {
        forall k: nat ensures LastNamed(program, name, k, l) <==> LastNamed(program[..n], name, k, l) {
          LastNamedBefore(program, name, k, l);
        }
      }
    }
  }

  lemma LastNamedBefore(program: seq<Func>, name: string, k: nat, l: Loc)
    requires |program| > 0
    requires var n := |program| - 1; program[n].name == name ==> forall m :: !EntersAt(program, n, m)
    ensures LastNamed(program, name, k, l) <==> LastNamed(program[..|program| - 1], name, k, l)
  {
    hide BlockAt;
    var n := |program| - 1;
    var before := program[..n];
    forall j: nat, m | j < n ensures EntersAt(before, j, m) <==> EntersAt(program, j, m) {
    }
    if LastNamed(program, name, k, l) {
      forall j, m | k < j < n && before[j].name == name ensures !EntersAt(before, j, m) {
        assert program[j].name == name;
      }
    }
    if LastNamed(before, name, k, l) {
      forall j, m | k < j < |program| && program[j].name == name ensures !EntersAt(program, j, m) {
        if j < n {
          assert before[j].name == name;
        }
      }
    }
  }

  /** The first function that enters at `l` names its entry. */
  ghost predicate FirstEntering(program: seq<Func>, l: Loc, k: nat) {
    EntersAt(program, k, l) && forall j :: 0 <= j < k ==> !EntersAt(program, j, l)
  }

  lemma {:induction false} NameAfter(sites: seq<Site>, more: seq<Site>, l: Loc)
    ensures NameAt(sites + more, l) == if NameAt(sites, l).Some? then NameAt(sites, l) else NameAt(more, l)
    decreases |more|
  {
    if |more| == 0 {
      assert sites + more == sites;
    } else {
      var n := |more| - 1;
      NameAfter(sites, more[..n], l);
      assert (sites + more)[..|sites| + n] == sites + more[..n];
    }
  }

  lemma {:induction false} LabelsNameless(body: seq<Stmt>, from: nat, l: Loc)
    requires from <= |body|
    ensures NameAt(LabelSites(body, from), l) == None
    decreases |body| - from
  {
    if from < |body| {
      LabelsNameless(body, from + 1, l);
      var here := if body[from].isLabel && FirstLoc(body[from..]).Some?
        then [Site(FirstLoc(body[from..]).value, None)] else [];
      NameAfter(here, LabelSites(body, from + 1), l);
    }
  }

  lemma {:induction false} NameAtIs(program: seq<Func>, l: Loc, name: string)
    ensures NameAt(Sites(program), l) == Some(name) <==>
      exists k: nat :: FirstEntering(program, l, k) && program[k].name == name
    ensures NameAt(Sites(program), l) == None <==> forall k: nat :: !EntersAt(program, k, l)
    decreases |program|
  {
    hide FirstLoc, BlockAt, NameAt;
    if |program| == 0 {
      NoName(l);
    } else {
      var n := |program| - 1;
      var before, f := program[..n], program[n];
      NameAtIs(before, l, name);
      EntersFirst(program, n, l);
      LabelsNameless(f.body, 0, l);
      NameAfter(Sites(before), EntrySites(f), l);
      NameAfter(Sites(before) + EntrySites(f), LabelSites(f.body, 0), l);
      EntryNamed(f, l);
      forall k: nat | k < n ensures EntersAt(before, k, l) <==> EntersAt(program, k, l) {
      }
      forall k: nat | k < n ensures FirstEntering(before, l, k) <==> FirstEntering(program, l, k) {
      }
    }
  }

  lemma NoName(l: Loc)
    ensures NameAt([], l) == None
  {
  }

  lemma EntryNamed(f: Func, l: Loc)
    ensures NameAt(EntrySites(f), l) == if FirstLoc(f.body) == Some(l) then Some(f.name) else None
  {
    hide FirstLoc;
    NoName(l);
    if FirstLoc(f.body).Some? {
      assert EntrySites(f)[..0] == [];
    }
  }

  // ----- the order of the counters

  /** A block of function `k` that starts at statement `i`. */
  ghost predicate Starts(program: seq<Func>, k: nat, i: nat, l: Loc) {
    k < |program| && BlockAt(program[k], i, l)
  }

  ghost predicate Earlier(k: nat, i: nat, k': nat, i': nat) {
    k < k' || (k == k' && i <= i')
  }

  /** The places up to and including the block at `(k, i)`. */
  function SitesUpTo(program: seq<Func>, k: nat, i: nat): seq<Site>
    requires k < |program| && i < |program[k].body|
  {
    Sites(program[..k]) + EntrySites(program[k]) + LabelsUpTo(program[k].body, i + 1)
  }

  function LabelsUpTo(body: seq<Stmt>, upTo: nat): seq<Site>
    requires upTo <= |body|
  {
    if upTo == 0 then []
    else LabelsUpTo(body, upTo - 1)
         + if body[upTo - 1].isLabel && FirstLoc(body[upTo - 1..]).Some?
           then [Site(FirstLoc(body[upTo - 1..]).value, None)] else []
  }

  lemma {:induction false} LabelsSplit(body: seq<Stmt>, upTo: nat)
    requires upTo <= |body|
    ensures LabelsUpTo(body, upTo) + LabelSites(body, upTo) == LabelSites(body, 0)
    decreases upTo
  {
    hide FirstLoc;
    if upTo > 0 {
      LabelsSplit(body, upTo - 1);
    }
  }

  lemma {:induction false} LabelsUpToAre(body: seq<Stmt>, upTo: nat, l: Loc)
    requires upTo <= |body|
    ensures HasSite(LabelsUpTo(body, upTo), l) <==>
      exists i: nat :: i < upTo && body[i].isLabel && FirstLoc(body[i..]) == Some(l)
    decreases upTo
  {
    hide FirstLoc;
    if upTo > 0 {
      var n := upTo - 1;
      LabelsUpToAre(body, n, l);
      var here := if body[n].isLabel && FirstLoc(body[n..]).Some?
        then [Site(FirstLoc(body[n..]).value, None)] else [];
      SiteOfEither(LabelsUpTo(body, n), here, l);
      if body[n].isLabel && FirstLoc(body[n..]) == Some(l) {
        assert Site(l, None) in here;
      }
    }
  }

  lemma {:induction false} SeenPrefix(a: seq<Site>, b: seq<Site>)
    ensures Seen(a) <= Seen(a + b)
    decreases |b|
  {
    hide Seen;
    if |b| == 0 {
      assert a + b == a;
    } else {
      var n := |b| - 1;
      SeenPrefix(a, b[..n]);
      SeenStep(a + b[..n], b[n]);
      assert a + b == a + b[..n] + [b[n]];
    }
  }

  lemma {:induction false} SitesExtend(program: seq<Func>, k: nat)
    requires k <= |program|
    ensures exists rest :: Sites(program) == Sites(program[..k]) + rest
    decreases |program|
  {
    hide EntrySites, LabelSites;
    if k == |program| {
      assert program[..k] == program;
      assert Sites(program) == Sites(program[..k]) + [];
    } else {
      var n := |program| - 1;
      SitesExtend(program[..n], k);
      assert program[..n][..k] == program[..k];
      var rest :| Sites(program[..n]) == Sites(program[..k]) + rest;
      assert Sites(program) == Sites(program[..k]) + (rest + EntrySites(program[n]) + LabelSites(program[n].body, 0));
    }
  }

  lemma UpToExtends(program: seq<Func>, k: nat, i: nat) returns (rest: seq<Site>)
    requires k < |program| && i < |program[k].body|
    ensures Sites(program) == SitesUpTo(program, k, i) + rest
  {
    hide EntrySites, LabelSites, LabelsUpTo;
    SitesExtend(program, k + 1);
    var more :| Sites(program) == Sites(program[..k + 1]) + more;
    assert program[..k + 1][..k] == program[..k];
    LabelsSplit(program[k].body, i + 1);
    rest := LabelSites(program[k].body, i + 1) + more;
    assert Sites(program[..k + 1]) == Sites(program[..k]) + EntrySites(program[k])
      + (LabelsUpTo(program[k].body, i + 1) + LabelSites(program[k].body, i + 1));
  }

  /** The places up to a block are those of the blocks no later than it. */
  lemma UpToAre(program: seq<Func>, k: nat, i: nat, l: Loc)
    requires k < |program| && i < |program[k].body|
    ensures HasSite(SitesUpTo(program, k, i), l) <==>
      exists k': nat, i': nat :: Starts(program, k', i', l) && Earlier(k', i', k, i)
  {
    hide HasSite, EntrySites, LabelsUpTo, FirstLoc, Sites;
    var f := program[k];
    var before := Sites(program[..k]);
    SitesAreBlocks(program[..k], l);
    LabelsUpToAre(f.body, i + 1, l);
    EntryHas(f, l);
    SiteOfEither(before, EntrySites(f), l);
    SiteOfEither(before + EntrySites(f), LabelsUpTo(f.body, i + 1), l);
    assert f.body[0..] == f.body;
    if HasSite(before, l) {
      var g :| g in program[..k] && HasBlock(g, l);
      var k': nat :| k' < k && program[k'] == g;
      var i': nat :| BlockAt(g, i', l);
      assert Starts(program, k', i', l);
    }
    if HasSite(EntrySites(f), l) {
      assert Starts(program, k, 0, l);
    }
    if HasSite(LabelsUpTo(f.body, i + 1), l) {
      var i': nat :| i' < i + 1 && f.body[i'].isLabel && FirstLoc(f.body[i'..]) == Some(l);
      assert Starts(program, k, i', l);
    }
    forall k': nat, i': nat | Starts(program, k', i', l) && Earlier(k', i', k, i)
      ensures HasSite(SitesUpTo(program, k, i), l)
    {
      if k' < k {
        assert program[k'] in program[..k] && HasBlock(program[k'], l);
      }
    }
  }

  lemma EntryHas(f: Func, l: Loc)
    ensures HasSite(EntrySites(f), l) <==> FirstLoc(f.body) == Some(l)
  {
    hide FirstLoc;
    if FirstLoc(f.body) == Some(l) {
      assert Site(l, Some(f.name)) in EntrySites(f);
    }
  }

  /** Counters follow the program: if a block of one line comes before every
      block of another, its line has the smaller counter. */
  lemma CountersInOrder(program: seq<Func>, n: nat, counterFor: map<Loc, nat>, entries: seq<CovEntry>,
      k: nat, i: nat, l: Loc, later: Loc)
    requires Numbered(Sites(program), n, counterFor, entries)
    requires Starts(program, k, i, l) && later in counterFor
    requires forall k': nat, i': nat :: Starts(program, k', i', later) ==> !Earlier(k', i', k, i)
    ensures l in counterFor && counterFor[l] < counterFor[later]
  {
    hide Seen, Sites, SitesUpTo, NameAt, BlockAt;
    StartsInside(program, k, i, l);
    var upTo := SitesUpTo(program, k, i);
    var rest := UpToExtends(program, k, i);
    UpToAre(program, k, i, l);
    UpToAre(program, k, i, later);
    SeenPrefix(upTo, rest);
    assert Earlier(k, i, k, i);
    assert l in Seen(upTo) && later !in Seen(upTo);
    var x: nat :| x < |Seen(upTo)| && Seen(upTo)[x] == l;
    var ls := Seen(Sites(program));
    assert forall z :: 0 <= z < |Seen(upTo)| ==> ls[z] == Seen(upTo)[z] && Seen(upTo)[z] in Seen(upTo);
    var y: nat :| y < |ls| && ls[y] == later;
    assert counterFor[ls[x]] == x && counterFor[ls[y]] == y;
  }

  lemma StartsInside(program: seq<Func>, k: nat, i: nat, l: Loc)
    requires Starts(program, k, i, l)
    ensures k < |program| && i < |program[k].body|
  {
  }
}
