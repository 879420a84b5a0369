/** The persistent hash trie: its nodes, what makes a trie well formed, and
    lookup, insertion and removal as functions on immutable nodes.
    `HamtMap.dfy` has the loops that build the fresh arrays. */
module Hamt {
  import opened Bits
  import opened Hashes
  import opened Options
  import opened Keys

  /** A node pointer. Collision buckets hold the keys of one full hash. */
  datatype Node<K, V> =
    | Null
    | Leaf(hash: bv64, key: K, val: V)
    | Branch(bitmap: bv32, children: seq<Node<K, V>>)
    | Collision(hash: bv64, entries: seq<(K, V)>)

  /** The child a slot leads to; `Null` for a free slot. */
  function Child<K, V>(bitmap: bv32, children: seq<Node<K, V>>, i: Slot): Node<K, V> {
    if Has(bitmap, i) && Rank(bitmap, i) < |children| then children[Rank(bitmap, i)] else Null
  }

  /** A hash belongs below `path` when its slices spell that path. */
  ghost predicate Fits(hash: bv64, path: seq<Slot>) {
    |path| <= LEVELS && Path(hash, |path|) == path
  }

  /** Well-formedness of the subtrie reached by `path`: every stored hash is
      the hash of its key and spells the path, branches sit at depths 0..12,
      have as many children as set bits, at least one, none of them null, and
      a collision bucket holds two or more pairwise different keys. */
  ghost predicate Valid<K(!new), V>(ops: KeyOps<K>, node: Node<K, V>, path: seq<Slot>)
    decreases node
  {
    match node
    case Null => true
    case Leaf(h, k, _) => h == ops.hash(k) && Fits(h, path)
    case Branch(bitmap, children) =>
      && |path| < LEVELS
      && |children| == PopCount(bitmap) > 0
      && (forall i: Slot :: Has(bitmap, i) ==>
            var child := Child(bitmap, children, i);
            !child.Null? && Valid(ops, child, path + [i]))
    case Collision(h, entries) =>
      && Fits(h, path)
      && |entries| >= 2
      && Distinct(ops, entries)
      && (forall e :: e in entries ==> ops.hash(e.0) == h)
  }

  /** `hamt_lookup`. */
  function Lookup<K(!new), V>(ops: KeyOps<K>, node: Node<K, V>, hash: bv64, key: K, depth: nat): Option<V>
    requires depth <= LEVELS && Valid(ops, node, Path(hash, depth))
    decreases node
  {
    match node
    case Null => None
    case Leaf(h, k, v) => if h == hash && ops.eq(k, key) then Some(v) else None
    case Branch(bitmap, children) =>
      var idx := Slice(hash, depth);
      if !Has(bitmap, idx) then None
      else Lookup(ops, Child(bitmap, children, idx), hash, key, depth + 1)
    case Collision(h, entries) => if h != hash then None else Get(ops, entries, key)
  }

  /** Two different hashes on one path part ways before the bits run out, so
      the shift at `depth` is below 64. */
  lemma SplitDepth(a: bv64, b: bv64, depth: nat)
    requires a != b && depth <= LEVELS && Path(a, depth) == Path(b, depth)
    ensures depth * 5 < 64
  {
    hide Slice, Path;
    if depth == LEVELS {
      PathDecides(a, b);
    }
  }

  /** A branch over one child. */
  function Single<K, V>(i: Slot, child: Node<K, V>): Node<K, V> {
    Branch(Bit(i), [child])
  }

  /** A branch over two children, stored in slot order. */
  function Pair<K, V>(i: Slot, a: Node<K, V>, j: Slot, b: Node<K, V>): Node<K, V> {
    if i < j then Branch(Bit(i) | Bit(j), [a, b]) else Branch(Bit(j) | Bit(i), [b, a])
  }

  /** `hamt_insert`: the new node, and whether a key was added. */
  function Insert<K(!new), V>(ops: KeyOps<K>, node: Node<K, V>, hash: bv64, key: K, val: V, depth: nat)
      : (Node<K, V>, bool)
    requires depth <= LEVELS && Valid(ops, node, Path(hash, depth))
    decreases LEVELS - depth, 1
  {
    hide Slice, Path, Has, Bit, Rank, PopCount;
    match node
    case Null => (Leaf(hash, key, val), true)
    case Leaf(h, k, v) =>
      if h == hash then
        if ops.eq(k, key) then (Leaf(hash, key, val), false)
        else (Collision(hash, [(k, v), (key, val)]), true)
      else
        SplitDepth(h, hash, depth);
        (MergeLeaves(ops, h, node, hash, key, val, depth), true)
    case Branch(bitmap, children) =>
      var idx := Slice(hash, depth);
      var pop := Rank(bitmap, idx);
      RankInRange(bitmap, idx);
      if !Has(bitmap, idx) then
        (Branch(bitmap | Bit(idx), children[..pop] + [Leaf(hash, key, val)] + children[pop..]), true)
      else
        var (child, added) := Insert(ops, Child(bitmap, children, idx), hash, key, val, depth + 1);
        (Branch(bitmap, children[pop := child]), added)
    case Collision(h, entries) =>
      if h == hash then
        var i := Find(ops, entries, key);
        if i < |entries| then (Collision(hash, entries[i := (key, val)]), false)
        else (Collision(hash, entries + [(key, val)]), true)
      else
        SplitDepth(h, hash, depth);
        (MergeCollision(h, node, hash, key, val, depth), true)
  }

  /** `merge_leaves`: a branch over an existing leaf and a new one. */
  function MergeLeaves<K(!new), V>(ops: KeyOps<K>, hashA: bv64, leafA: Node<K, V>, hashB: bv64, keyB: K, valB: V,
      depth: nat): Node<K, V>
    requires depth < LEVELS && Valid(ops, leafA, Path(hashB, depth))
    requires leafA.Leaf? && leafA.hash == hashA && hashA != hashB
    decreases LEVELS - depth, 0
  {
    var a := Slice(hashA, depth);
    var b := Slice(hashB, depth);
    if a == b then
      PathStep(hashA, hashB, depth);
      Single(a, Insert(ops, leafA, hashB, keyB, valB, depth + 1).0)
    else
      Pair(a, leafA, b, Leaf(hashB, keyB, valB))
  }

  /** `merge_collision_and_leaf`. */
  function MergeCollision<K, V>(hashC: bv64, bucket: Node<K, V>, hashL: bv64, key: K, val: V, depth: nat): Node<K, V>
    requires depth < LEVELS && hashC != hashL && Path(hashC, depth) == Path(hashL, depth)
    decreases LEVELS - depth
  {
    var c := Slice(hashC, depth);
    var l := Slice(hashL, depth);
    if c == l then
      PathStep(hashC, hashL, depth);
      SplitDepth(hashC, hashL, depth + 1);
      Single(c, MergeCollision(hashC, bucket, hashL, key, val, depth + 1))
    else
      Pair(c, bucket, l, Leaf(hashL, key, val))
  }

  /** What is left of a bucket without entry `i`: nothing, a leaf again, or a
      smaller bucket. */
  function BucketWithout<K, V>(hash: bv64, entries: seq<(K, V)>, i: nat): Node<K, V>
    requires i < |entries|
  {
    if |entries| == 1 then Null
    else if |entries| == 2 then
      var (k, v) := entries[1 - i];
      Leaf(hash, k, v)
    else Collision(hash, entries[..i] + entries[i + 1..])
  }

  /** A branch whose child at `idx` became `child`. A child that vanished is
      cut out, and a branch without children vanishes too. */
  function BranchWithout<K, V>(bitmap: bv32, children: seq<Node<K, V>>, idx: Slot, child: Node<K, V>): Node<K, V>
    requires Rank(bitmap, idx) < |children|
  {
    var pop := Rank(bitmap, idx);
    if !child.Null? then Branch(bitmap, children[pop := child])
    else if |children| == 1 then Null
    else Branch(bitmap & !Bit(idx), children[..pop] + children[pop + 1..])
  }

  /** `hamt_remove`: the remaining node, and whether a key was removed. */
  function Remove<K(!new), V>(ops: KeyOps<K>, node: Node<K, V>, hash: bv64, key: K, depth: nat): (Node<K, V>, bool)
    requires depth <= LEVELS && Valid(ops, node, Path(hash, depth))
    decreases LEVELS - depth
  {
    hide Slice, Path, Has, Bit, Rank, PopCount;
    match node
    case Null => (Null, false)
    case Leaf(h, k, _) => if h == hash && ops.eq(k, key) then (Null, true) else (node, false)
    case Branch(bitmap, children) =>
      var idx := Slice(hash, depth);
      if !Has(bitmap, idx) then (node, false)
      else
        RankInRange(bitmap, idx);
        var (child, removed) := Remove(ops, Child(bitmap, children, idx), hash, key, depth + 1);
        if !removed then (node, false) else (BranchWithout(bitmap, children, idx, child), true)
    case Collision(h, entries) =>
      if h != hash then (node, false)
      else
        var i := Find(ops, entries, key);
        if i == |entries| then (node, false) else (BucketWithout(hash, entries, i), true)
  }

  /** The pairs `hamt_for_each` visits, in its order. */
  function Entries<K, V>(node: Node<K, V>): seq<(K, V)>
    decreases node, 0
  {
    match node
    case Null => []
    case Leaf(_, k, v) => [(k, v)]
    case Branch(_, children) => AllEntries(children)
    case Collision(_, entries) => entries
  }

  function AllEntries<K, V>(nodes: seq<Node<K, V>>): seq<(K, V)>
    decreases nodes, 1
  {
    if |nodes| == 0 then [] else Entries(nodes[0]) + AllEntries(nodes[1..])
  }
}
