/** Nodes on the heap, and path copying: which nodes of a trie are new after an
    operation. */
module HamtCells {
  import opened Hamt

  /** What a heap node holds. A child pointer is a cell, or null. */
  datatype Shape<K, V> =
    | LeafShape(hash: bv64, key: K, val: V)
    | BranchShape(bitmap: bv32, children: seq<Cell?<K, V>>)
    | BucketShape(hash: bv64, entries: seq<(K, V)>)

  /** `HamtNode`. A cell is not written to after its allocation. */
  class Cell<K, V> {
    const shape: Shape<K, V>
    /** The subtrie the cell is the root of. */
    ghost const node: Node<K, V>

    constructor (shape: Shape<K, V>)
      requires shape.BranchShape? ==> SoundAll(shape.children)
      ensures this.shape == shape && node == NodeOf(shape) && Sound(this)
    {
      this.shape := shape;
      this.node := NodeOf(shape);
    }
  }

  ghost function Trie<K, V>(c: Cell?<K, V>): Node<K, V> {
    if c == null then Null else c.node
  }

  ghost function Tries<K, V>(cs: seq<Cell?<K, V>>): (ns: seq<Node<K, V>>)
    ensures |ns| == |cs| && forall i :: 0 <= i < |cs| ==> ns[i] == Trie(cs[i])
  {
    seq(|cs|, i requires 0 <= i < |cs| => Trie(cs[i]))
  }

  ghost function NodeOf<K, V>(shape: Shape<K, V>): Node<K, V> {
    match shape
    case LeafShape(h, k, v) => Leaf(h, k, v)
    case BranchShape(bitmap, cs) => Branch(bitmap, Tries(cs))
    case BucketShape(h, entries) => Collision(h, entries)
  }

  /** The cells reached from `c` spell out its subtrie. */
  ghost predicate Sound<K, V>(c: Cell?<K, V>)
    decreases Trie(c)
  {
    c != null ==>
      && c.node == NodeOf(c.shape)
      && (c.shape.BranchShape? ==> forall i :: 0 <= i < |c.shape.children| ==> Sound(c.shape.children[i]))
  }

  ghost predicate SoundAll<K, V>(cs: seq<Cell?<K, V>>) {
    forall i :: 0 <= i < |cs| ==> Sound(cs[i])
  }

  lemma SoundChildren<K, V>(c: Cell<K, V>)
    requires Sound(c) && c.shape.BranchShape?
    ensures c.node == Branch(c.shape.bitmap, Tries(c.shape.children)) && SoundAll(c.shape.children)
  {
  }

  lemma SoundShape<K, V>(c: Cell<K, V>)
    requires Sound(c)
    ensures Trie(c) == NodeOf(c.shape)
  {
  }

  lemma NullOrNot<K, V>(c: Cell?<K, V>)
    requires Sound(c)
    ensures Trie(c).Null? <==> c == null
  {
  }

  // ----- the cells of a trie

  /** The cells reached from `c`, itself included. */
  ghost function Cells<K, V>(c: Cell?<K, V>): set<Cell<K, V>>
    requires Sound(c)
    decreases Trie(c), 0
  {
    if c == null then {}
    else {c} + if c.shape.BranchShape? then CellsAll(c.shape.children) else {}
  }

  ghost function CellsAll<K, V>(cs: seq<Cell?<K, V>>): set<Cell<K, V>>
    requires SoundAll(cs)
    decreases Tries(cs), 1
  {
    if |cs| == 0 then {}
    else
      assert Tries(cs)[0] == Trie(cs[0]) && Tries(cs[1..]) == Tries(cs)[1..];
      Cells(cs[0]) + CellsAll(cs[1..])
  }

  ghost function Branches<K, V>(news: seq<Cell<K, V>>): nat {
    if |news| == 0 then 0 else Branches(news[..|news| - 1]) + if news[|news| - 1].shape.BranchShape? then 1 else 0
  }

  /** The trie of `after` is made of cells of `before` and the cells in `news`,
      of which at most `n` are branches and at most one is a leaf or bucket. */
  ghost predicate Copies<K, V>(before: Cell?<K, V>, after: Cell?<K, V>, news: seq<Cell<K, V>>, n: int) {
    && Sound(before) && Sound(after)
    && Branches(news) <= n && |news| <= Branches(news) + 1
    && forall x :: x in Cells(after) ==> x in Cells(before) || x in news
  }

  lemma CopiesSound<K, V>(before: Cell?<K, V>, after: Cell?<K, V>, news: seq<Cell<K, V>>, n: int)
    requires Copies(before, after, news, n)
    ensures Sound(after)
  {
  }

  lemma CopiesMore<K, V>(before: Cell?<K, V>, after: Cell?<K, V>, news: seq<Cell<K, V>>, n: int, m: int)
    requires Copies(before, after, news, n) && n <= m
    ensures Copies(before, after, news, m)
  {
  }

  lemma CopiesNothing<K, V>(c: Cell?<K, V>)
    requires Sound(c)
    ensures Copies(c, c, [], 0) && Copies(c, null, [], 0)
  {
  }

  lemma CopiesTip<K, V>(before: Cell?<K, V>, tip: Cell<K, V>)
    requires Sound(before) && Sound(tip) && !tip.shape.BranchShape?
    ensures Copies(before, tip, [tip], 0)
  {
  }

  lemma {:induction false} CellsConcat<K, V>(a: seq<Cell?<K, V>>, b: seq<Cell?<K, V>>)
    requires SoundAll(a) && SoundAll(b)
    ensures SoundAll(a + b) && CellsAll(a + b) == CellsAll(a) + CellsAll(b)
    decreases |a|
  {
    hide Cells, Sound;
    if |a| == 0 {
      assert a + b == b;
    } else {
      assert (a + b)[1..] == a[1..] + b;
      CellsConcat(a[1..], b);
    }
  }

  lemma CellsOne<K, V>(c: Cell?<K, V>)
    requires Sound(c)
    ensures SoundAll([c]) && CellsAll([c]) == Cells(c) && CellsAll<K, V>([]) == {}
  {
    hide Cells, Sound;
  }

  lemma CellsAround<K, V>(cs: seq<Cell?<K, V>>, p: nat)
    requires SoundAll(cs) && p < |cs|
    ensures CellsAll(cs) == CellsAll(cs[..p]) + Cells(cs[p]) + CellsAll(cs[p + 1..])
  {
    hide Cells, CellsAll, Sound;
    assert cs == cs[..p] + [cs[p]] + cs[p + 1..];
    CellsOne(cs[p]);
    CellsConcat(cs[..p], [cs[p]]);
    CellsConcat(cs[..p] + [cs[p]], cs[p + 1..]);
  }

  lemma CellsOfBranch<K, V>(c: Cell<K, V>)
    requires Sound(c) && c.shape.BranchShape?
    ensures SoundAll(c.shape.children) && Cells(c) == {c} + CellsAll(c.shape.children)
  {
  }

  lemma BranchesStep<K, V>(news: seq<Cell<K, V>>, r: Cell<K, V>)
    ensures Branches(news + [r]) == Branches(news) + if r.shape.BranchShape? then 1 else 0
  {
    assert (news + [r])[..|news|] == news;
  }

  /** A new branch on top, over cells that are accounted for. */
  lemma CopiesBranch<K, V>(before: Cell?<K, V>, r: Cell<K, V>, news: seq<Cell<K, V>>, n: int)
    requires Sound(before) && Sound(r) && r.shape.BranchShape? && SoundAll(r.shape.children)
    requires Branches(news) <= n && |news| <= Branches(news) + 1
    requires forall x :: x in CellsAll(r.shape.children) ==> x in Cells(before) || x in news
    ensures Copies(before, r, news + [r], n + 1)
  {
    hide Cells, CellsAll, Branches, Sound;
    CellsOfBranch(r);
    BranchesStep(news, r);
  }

  /** A copy of a branch with one child replaced. */
  lemma CopiesReplaced<K, V>(
      c: Cell<K, V>, r: Cell<K, V>, p: nat, child: Cell?<K, V>, news: seq<Cell<K, V>>, n: int)
    requires Sound(c) && c.shape.BranchShape? && Sound(r) && r.shape.BranchShape? && p < |c.shape.children|
    requires r.shape.children == c.shape.children[p := child] && Copies(c.shape.children[p], child, news, n)
    ensures Copies(c, r, news + [r], n + 1)
  {
    hide Cells, CellsAll, Branches, Sound;
    var cs, after := c.shape.children, r.shape.children;
    CellsOfBranch(c);
    CellsOfBranch(r);
    CellsAround(cs, p);
    CellsAround(after, p);
    assert after[..p] == cs[..p] && after[p + 1..] == cs[p + 1..];
    CopiesBranch(c, r, news, n);
  }

  /** A copy of a branch with one child left out. */
  lemma CopiesDropped<K, V>(c: Cell<K, V>, r: Cell<K, V>, p: nat, news: seq<Cell<K, V>>, n: int)
    requires Sound(c) && c.shape.BranchShape? && Sound(r) && r.shape.BranchShape? && p < |c.shape.children|
    requires r.shape.children == c.shape.children[..p] + c.shape.children[p + 1..]
    requires Copies(c.shape.children[p], null, news, n)
    ensures Copies(c, r, news + [r], n + 1)
  {
    hide Cells, CellsAll, Branches, Sound;
    var cs := c.shape.children;
    CellsOfBranch(c);
    CellsOfBranch(r);
    CellsAround(cs, p);
    CellsConcat(cs[..p], cs[p + 1..]);
    CopiesBranch(c, r, news, n);
  }

  lemma OneTip<K, V>(leaf: Cell<K, V>)
    requires Sound(leaf) && leaf.shape.LeafShape?
    ensures Branches([leaf]) == 0 && Cells(leaf) == {leaf}
  {
  }

  /** A copy of a branch with a new leaf spliced in. */
  lemma CopiesSpliced<K, V>(c: Cell<K, V>, r: Cell<K, V>, p: nat, leaf: Cell<K, V>)
    requires Sound(c) && c.shape.BranchShape? && Sound(r) && r.shape.BranchShape? && p <= |c.shape.children|
    requires Sound(leaf) && leaf.shape.LeafShape?
    requires r.shape.children == c.shape.children[..p] + [leaf] + c.shape.children[p..]
    ensures Copies(c, r, [leaf, r], 1)
  {
    hide Cells, CellsAll, Branches, Sound;
    var front, back := c.shape.children[..p], c.shape.children[p..];
    CellsOfBranch(c);
    CellsOfBranch(r);
    assert c.shape.children == front + back;
    CellsConcat(front, back);
    CellsOne(leaf);
    CellsConcat(front, [leaf]);
    CellsConcat(front + [leaf], back);
    OneTip(leaf);
    CopiesBranch(c, r, [leaf], 0);
    assert [leaf] + [r] == [leaf, r];
  }

  /** A branch over one child. */
  lemma CopiesSingle<K, V>(before: Cell?<K, V>, r: Cell<K, V>, child: Cell?<K, V>, news: seq<Cell<K, V>>, n: int)
    requires Copies(before, child, news, n) && Sound(r) && r.shape.BranchShape? && r.shape.children == [child]
    ensures Copies(before, r, news + [r], n + 1)
  {
    hide Cells, CellsAll, Branches, Sound;
    CellsOne(child);
    CopiesBranch(before, r, news, n);
  }

  /** A branch over an old node and a new leaf. */
  lemma CopiesPair<K, V>(before: Cell?<K, V>, r: Cell<K, V>, leaf: Cell<K, V>)
    requires Sound(before) && Sound(leaf) && leaf.shape.LeafShape? && Sound(r) && r.shape.BranchShape?
    requires r.shape.children == [before, leaf] || r.shape.children == [leaf, before]
    ensures Copies(before, r, [leaf, r], 1)
  {
    hide Cells, CellsAll, Branches, Sound;
    CellsOne(before);
    CellsOne(leaf);
    CellsConcat([before], [leaf]);
    CellsConcat([leaf], [before]);
    assert [before] + [leaf] == [before, leaf] && [leaf] + [before] == [leaf, before];
    OneTip(leaf);
    CopiesBranch(before, r, [leaf], 0);
    assert [leaf] + [r] == [leaf, r];
  }

  // ----- reaching cells by pointers

  /** `steps` are child pointers that can be followed down from `c`. */
  predicate Walk<K, V>(c: Cell?<K, V>, steps: seq<nat>)
    decreases |steps|
  {
    |steps| == 0 ||
      (&& c != null && c.shape.BranchShape? && steps[0] < |c.shape.children|
       && Walk(c.shape.children[steps[0]], steps[1..]))
  }

  function At<K, V>(c: Cell?<K, V>, steps: seq<nat>): Cell?<K, V>
    requires Walk(c, steps)
    decreases |steps|
  {
    if |steps| == 0 then c else At(c.shape.children[steps[0]], steps[1..])
  }

  /** The cells of a trie are those its child pointers lead to. */
  lemma CellsReached<K, V>(c: Cell?<K, V>, x: Cell<K, V>)
    requires Sound(c)
    ensures x in Cells(c) <==> exists steps :: Walk(c, steps) && At(c, steps) == x
  {
    hide Cells, Walk, At, Sound;
    if x in Cells(c) {
      var steps := StepsTo(c, x);
    }
    forall steps | Walk(c, steps) && At(c, steps) == x ensures x in Cells(c) {
      StepsLead(c, steps);
    }
  }

  lemma {:induction false} StepsLead<K, V>(c: Cell?<K, V>, steps: seq<nat>)
    requires Sound(c) && Walk(c, steps) && At(c, steps) != null
    ensures At(c, steps) in Cells(c)
    decreases |steps|
  {
    if |steps| > 0 {
      StepsLead(c.shape.children[steps[0]], steps[1..]);
      CellsAround(c.shape.children, steps[0]);
    }
  }

  lemma {:induction false} StepsTo<K, V>(c: Cell?<K, V>, x: Cell<K, V>) returns (steps: seq<nat>)
    requires Sound(c) && x in Cells(c)
    ensures Walk(c, steps) && At(c, steps) == x
    decreases Trie(c)
  {
    steps := [];
    if x != c {
      var p := InOneOf(c.shape.children, x);
      var below := StepsTo(c.shape.children[p], x);
      steps := [p] + below;
      assert steps[1..] == below;
    }
  }

  lemma {:induction false} InOneOf<K, V>(cs: seq<Cell?<K, V>>, x: Cell<K, V>) returns (p: nat)
    requires SoundAll(cs) && x in CellsAll(cs)
    ensures p < |cs| && x in Cells(cs[p])
    decreases |cs|
  {
    hide Cells, Sound;
    p := 0;
    if x !in Cells(cs[0]) {
      p := InOneOf(cs[1..], x);
      p := p + 1;
    }
  }
}
