/** What every node reachable from a well-formed root looks like. */
module HamtShape {
  import opened Bits
  import opened Hashes
  import opened Keys
  import opened Hamt
  import opened HamtEntries
  import HamtCells

  /** `steps` are child positions that can be followed down from `node`. */
  predicate Walk<K, V>(node: Node<K, V>, steps: seq<nat>)
    decreases steps
  {
    |steps| == 0 || (node.Branch? && steps[0] < |node.children| && Walk(node.children[steps[0]], steps[1..]))
  }

  function At<K, V>(node: Node<K, V>, steps: seq<nat>): Node<K, V>
    requires Walk(node, steps)
    decreases steps
  {
    if |steps| == 0 then node else At(node.children[steps[0]], steps[1..])
  }

  /** No reachable child is null, no branch is empty or below depth 12, every
      branch has one child per set bit, every bucket holds two or more keys,
      pairwise different, with the bucket's hash. */
  lemma {:induction false} ReachableShape<K(!new), V>(ops: KeyOps<K>, node: Node<K, V>, path: seq<Slot>,
      steps: seq<nat>)
    requires Valid(ops, node, path) && Walk(node, steps)
    ensures var n := At(node, steps);
      && (|steps| > 0 ==> !n.Null?)
      && (n.Branch? ==> |path| + |steps| <= 12 && |n.children| > 0 && |n.children| == PopCount(n.bitmap))
      && (n.Collision? ==> |n.entries| >= 2 && Distinct(ops, n.entries)
                           && forall e :: e in n.entries ==> ops.hash(e.0) == n.hash)
      && (n.Leaf? ==> n.hash == ops.hash(n.key))
    decreases steps
  {
    hide Has, Rank, PopCount, Slice, Path;
    if |steps| == 0 {
    } else {
      var i := ChildAt(ops, node, path, steps[0]);
      ReachableShape(ops, node.children[steps[0]], path + [i], steps[1..]);
    }
  }

  /** Two hashes stored below the same branch of a trie agree on their low
      `5 * depth` bits: all of them spell the branch's path. */
  lemma SharedPrefix<K(!new), V>(ops: KeyOps<K>, node: Node<K, V>, path: seq<Slot>, a: (K, V), b: (K, V))
    requires Valid(ops, node, path) && a in Entries(node) && b in Entries(node)
    ensures |path| <= LEVELS
    ensures Path(ops.hash(a.0), |path|) == path == Path(ops.hash(b.0), |path|)
  {
    EntriesFit(ops, node, path, a);
    EntriesFit(ops, node, path, b);
  }

  /** Child pointers between cells lead where child positions do. */
  lemma {:induction false} PointersLead<K, V>(c: HamtCells.Cell?<K, V>, steps: seq<nat>)
    requires HamtCells.Sound(c)
    ensures HamtCells.Walk(c, steps) <==> Walk(HamtCells.Trie(c), steps)
    ensures HamtCells.Walk(c, steps) ==> HamtCells.Trie(HamtCells.At(c, steps)) == At(HamtCells.Trie(c), steps)
    decreases |steps|
  {
    if |steps| > 0 && c != null && c.shape.BranchShape? && steps[0] < |c.shape.children| {
      PointersLead(c.shape.children[steps[0]], steps[1..]);
    }
  }
}
