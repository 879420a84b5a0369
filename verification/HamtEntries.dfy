/** What a well-formed trie stores: the pairs its traversal visits carry
    pairwise different keys, and lookup is exactly search among them. */
module HamtEntries {
  import opened Bits
  import opened Hashes
  import opened Options
  import opened Keys
  import opened Hamt

  lemma FitsStep(h: bv64, path: seq<Slot>, i: Slot)
    requires |path| < LEVELS
    ensures Fits(h, path + [i]) <==> Fits(h, path) && Slice(h, |path|) == i
  {
    hide Slice;
    var longer := Path(h, |path| + 1);
    assert longer[..|path|] == Path(h, |path|) && longer[|path|] == Slice(h, |path|);
    assert (path + [i])[..|path|] == path && (path + [i])[|path|] == i;
  }

  /** Every position of a branch belongs to a taken slot. */
  lemma ChildAt<K(!new), V>(ops: KeyOps<K>, node: Node<K, V>, path: seq<Slot>, p: nat) returns (i: Slot)
    requires Valid(ops, node, path) && node.Branch? && p < |node.children|
    ensures Has(node.bitmap, i) && Rank(node.bitmap, i) == p
    ensures !node.children[p].Null? && Valid(ops, node.children[p], path + [i])
  {
    hide Has, Rank, PopCount;
    i := PositionHasSlot(node.bitmap, p);
    assert Child(node.bitmap, node.children, i) == node.children[p];
  }

  lemma {:induction false} FromChild<K, V>(nodes: seq<Node<K, V>>, e: (K, V)) returns (p: nat)
    requires e in AllEntries(nodes)
    ensures p < |nodes| && e in Entries(nodes[p])
    decreases nodes
  {
    if e in Entries(nodes[0]) {
      p := 0;
    } else {
      var q := FromChild(nodes[1..], e);
      p := q + 1;
    }
  }

  lemma {:induction false} AllEntriesConcat<K, V>(a: seq<Node<K, V>>, b: seq<Node<K, V>>)
    ensures AllEntries(a + b) == AllEntries(a) + AllEntries(b)
    decreases a
  {
    if |a| == 0 {
      assert a + b == b;
    } else {
      assert (a + b)[1..] == a[1..] + b;
      AllEntriesConcat(a[1..], b);
    }
  }

  /** One child's pairs in the traversal of its branch. */
  lemma AroundChild<K, V>(nodes: seq<Node<K, V>>, p: nat, child: Node<K, V>)
    requires p < |nodes|
    ensures AllEntries(nodes[p := child]) == AllEntries(nodes[..p]) + Entries(child) + AllEntries(nodes[p + 1..])
  {
    assert nodes[p := child] == nodes[..p] + [child] + nodes[p + 1..];
    AllEntriesConcat(nodes[..p] + [child], nodes[p + 1..]);
    AllEntriesConcat(nodes[..p], [child]);
  }

  /** Every stored hash spells the path to its node. */
  lemma {:induction false} EntriesFit<K(!new), V>(ops: KeyOps<K>, node: Node<K, V>, path: seq<Slot>, e: (K, V))
    requires Valid(ops, node, path) && e in Entries(node)
    ensures Fits(ops.hash(e.0), path)
    decreases node
  {
    hide Has, Rank, PopCount, Slice, Path;
    if node.Branch? {
      var p := FromChild(node.children, e);
      var i := ChildAt(ops, node, path, p);
      EntriesFit(ops, node.children[p], path + [i], e);
      FitsStep(ops.hash(e.0), path, i);
    }
  }

  /** A pair under child `p` has the slice of the slot that owns `p`. */
  lemma SlotOfEntry<K(!new), V>(ops: KeyOps<K>, node: Node<K, V>, path: seq<Slot>, p: nat, e: (K, V))
    requires Valid(ops, node, path) && node.Branch? && p < |node.children|
    requires e in Entries(node.children[p])
    ensures Has(node.bitmap, Slice(ops.hash(e.0), |path|))
    ensures Rank(node.bitmap, Slice(ops.hash(e.0), |path|)) == p
  {
    hide Has, Rank, PopCount, Slice, Path;
    var i := ChildAt(ops, node, path, p);
    EntriesFit(ops, node.children[p], path + [i], e);
    FitsStep(ops.hash(e.0), path, i);
  }

  /** Children other than the one a key leads to hold no equal key. */
  lemma OnlyOneChild<K(!new), V>(ops: KeyOps<K>, node: Node<K, V>, path: seq<Slot>, key: K)
    requires ops.Lawful() && Valid(ops, node, path) && node.Branch?
    ensures var idx := Slice(ops.hash(key), |path|);
            if Has(node.bitmap, idx) then
              var p := Rank(node.bitmap, idx);
              && p < |node.children|
              && Absent(ops, AllEntries(node.children[..p]), key)
              && Absent(ops, AllEntries(node.children[p + 1..]), key)
            else Absent(ops, AllEntries(node.children), key)
  {
    hide Has, Rank, PopCount, Slice, Path;
    var idx := Slice(ops.hash(key), |path|);
    var children := node.children;
    if Has(node.bitmap, idx) {
      RankInRange(node.bitmap, idx);
      var p := Rank(node.bitmap, idx);
      forall e | e in AllEntries(children[..p]) ensures !ops.eq(e.0, key) {
        var q := FromChild(children[..p], e);
        SlotOfEntry(ops, node, path, q, e);
        EqChain(ops, key, e.0, key);
      }
      forall e | e in AllEntries(children[p + 1..]) ensures !ops.eq(e.0, key) {
        var q := FromChild(children[p + 1..], e);
        SlotOfEntry(ops, node, path, p + 1 + q, e);
        EqChain(ops, key, e.0, key);
      }
    } else {
      forall e | e in AllEntries(children) ensures !ops.eq(e.0, key) {
        var q := FromChild(children, e);
        SlotOfEntry(ops, node, path, q, e);
        EqChain(ops, key, e.0, key);
      }
    }
  }

  lemma SearchInBranch<K(!new), V>(ops: KeyOps<K>, node: Node<K, V>, path: seq<Slot>, key: K)
    requires ops.Lawful() && Valid(ops, node, path) && node.Branch?
    ensures var idx := Slice(ops.hash(key), |path|);
      Get(ops, Entries(node), key) ==
        if Has(node.bitmap, idx) then Get(ops, Entries(Child(node.bitmap, node.children, idx)), key) else None
  {
    hide Has, Rank, PopCount, Slice, Path;
    var idx := Slice(ops.hash(key), |path|);
    var children := node.children;
    OnlyOneChild(ops, node, path, key);
    if Has(node.bitmap, idx) {
      var p := Rank(node.bitmap, idx);
      AroundChild(children, p, children[p]);
      assert children[p := children[p]] == children;
      GetInMiddle(ops, AllEntries(children[..p]), Entries(children[p]), AllEntries(children[p + 1..]), key);
    } else {
      FindAbsent(ops, AllEntries(children), key);
    }
  }

  /** Lookup finds a key exactly when the traversal visits it, with the value
      it visits. */
  lemma {:induction false} LookupIsSearch<K(!new), V>(ops: KeyOps<K>, node: Node<K, V>, key: K, depth: nat)
    requires ops.Lawful() && depth <= LEVELS && Valid(ops, node, Path(ops.hash(key), depth))
    ensures Lookup(ops, node, ops.hash(key), key, depth) == Get(ops, Entries(node), key)
    decreases node
  {
    hide Has, Rank, PopCount, Slice, Path;
    match node
    case Null =>
    case Leaf(h, k, v) =>
      EqChain(ops, key, k, key);
    case Branch(bitmap, children) =>
      var idx := Slice(ops.hash(key), depth);
      SearchInBranch(ops, node, Path(ops.hash(key), depth), key);
      if Has(bitmap, idx) {
        PathExtends(ops.hash(key), depth);
        LookupIsSearch(ops, Child(bitmap, children, idx), key, depth + 1);
      }
    case Collision(h, entries) =>
      if h != ops.hash(key) {
        forall e | e in entries ensures !ops.eq(e.0, key) {
          EqChain(ops, key, e.0, key);
        }
        FindAbsent(ops, entries, key);
      }
  }

  lemma PathExtends(h: bv64, depth: nat)
    requires depth < LEVELS
    ensures Path(h, depth + 1) == Path(h, depth) + [Slice(h, depth)]
  {
    hide Slice;
  }

  /** The traversal visits no key twice. */
  lemma {:induction false} EntriesDistinct<K(!new), V>(ops: KeyOps<K>, node: Node<K, V>, path: seq<Slot>)
    requires ops.Lawful() && Valid(ops, node, path)
    ensures Distinct(ops, Entries(node))
    decreases node, 0
  {
    hide Has, Rank, PopCount, Slice, Path;
    if node.Branch? {
      ChildrenDistinct(ops, node, path, 0);
      assert node.children[0..] == node.children;
    }
  }

  lemma {:induction false} ChildrenDistinct<K(!new), V>(ops: KeyOps<K>, node: Node<K, V>, path: seq<Slot>, from: nat)
    requires ops.Lawful() && Valid(ops, node, path) && node.Branch? && from <= |node.children|
    ensures Distinct(ops, AllEntries(node.children[from..]))
    decreases node, 0, |node.children| - from
  {
    hide Has, Rank, PopCount, Slice, Path;
    var children := node.children;
    if from < |children| {
      var i := ChildAt(ops, node, path, from);
      EntriesDistinct(ops, children[from], path + [i]);
      ChildrenDistinct(ops, node, path, from + 1);
      var rest := children[from + 1..];
      assert children[from..] == [children[from]] + rest;
      forall x, y | x in Entries(children[from]) && y in AllEntries(rest) ensures !ops.eq(x.0, y.0) {
        var q := FromChild(rest, y);
        SlotOfEntry(ops, node, path, from, x);
        SlotOfEntry(ops, node, path, from + 1 + q, y);
      }
      DistinctConcat(ops, Entries(children[from]), AllEntries(rest));
    }
  }
}
