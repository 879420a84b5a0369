/** `Map<K, V>`: the loops that walk the cells of a trie and allocate new ones,
    and the public operations. A method that allocates lists the new cells of
    its result, oldest first. */
module HamtMap {
  import opened Bits
  import opened Hashes
  import opened Options
  import opened Keys
  import opened Hamt
  import opened HamtEntries
  import opened HamtLaws
  import opened HamtOrder
  import opened HamtCells

  // ----- reading

  /** The first bucket entry with an equal key. */
  method FindInBucket<K(!new), V>(ops: KeyOps<K>, entries: seq<(K, V)>, key: K) returns (i: nat)
    ensures i == Find(ops, entries, key)
  {
    i := 0;
    while i < |entries|
      invariant i <= |entries|
      invariant Find(ops, entries, key) == i + Find(ops, entries[i..], key)
    {
      if ops.eq(entries[i].0, key) {
        return;
      }
      assert entries[i..][1..] == entries[i + 1..];
      i := i + 1;
    }
  }

  method HamtLookup<K(!new), V>(ops: KeyOps<K>, c: Cell?<K, V>, hash: bv64, key: K, depth: nat) returns (r: Option<V>)
    requires Sound(c) && depth <= LEVELS && Valid(ops, Trie(c), Path(hash, depth))
    ensures r == Lookup(ops, Trie(c), hash, key, depth)
    decreases LEVELS - depth
  {
    hide Slice, Path, Has, Bit, Rank, PopCount;
    if c == null {
      return None;
    }
    match c.shape {
      case LeafShape(h, k, v) =>
        return if h == hash && ops.eq(k, key) then Some(v) else None;
      case BranchShape(bitmap, children) =>
        var idx := Slice(hash, depth);
        if !Has(bitmap, idx) {
          return None;
        }
        RankInRange(bitmap, idx);
        PathExtends(hash, depth);
        r := HamtLookup(ops, children[Rank(bitmap, idx)], hash, key, depth + 1);
      case BucketShape(h, entries) =>
        if h != hash {
          return None;
        }
        var i := FindInBucket(ops, entries, key);
        return if i < |entries| then Some(entries[i].1) else None;
    }
  }

  /** The visits of a traversal, appended to those already made. */
  method HamtForEach<K, V>(c: Cell?<K, V>, visited: seq<(K, V)>) returns (r: seq<(K, V)>)
    requires Sound(c)
    ensures r == visited + Entries(Trie(c))
    decreases Trie(c)
  {
    r := visited;
    if c == null {
      return;
    }
    match c.shape {
      case LeafShape(_, k, v) =>
        r := r + [(k, v)];
      case BranchShape(_, children) =>
        ghost var nodes := Tries(children);
        for i := 0 to |children|
          invariant r == visited + AllEntries(nodes[..i])
        {
          r := HamtForEach(children[i], r);
          assert nodes[..i + 1] == nodes[..i] + [nodes[i]];
          AllEntriesConcat(nodes[..i], [nodes[i]]);
        }
        assert nodes[..|children|] == nodes;
      case BucketShape(_, entries) =>
        for i := 0 to |entries|
          invariant r == visited + entries[..i]
        {
          r := r + [entries[i]];
        }
    }
  }

  // ----- fresh arrays

  /** `children` with `c` spliced in at `pop`. */
  method SplicedArray<K, V>(children: seq<Cell?<K, V>>, pop: nat, c: Cell?<K, V>) returns (a: array<Cell?<K, V>>)
    requires pop <= |children|
    ensures fresh(a) && a[..] == children[..pop] + [c] + children[pop..]
  {
    var total := |children|;
    a := new Cell?<K, V>[total + 1](_ => null);
    for i := 0 to pop
      invariant forall j :: 0 <= j < i ==> a[j] == children[j]
    {
      a[i] := children[i];
    }
    a[pop] := c;
    for i := pop to total
      invariant forall j :: 0 <= j < pop ==> a[j] == children[j]
      invariant a[pop] == c
      invariant forall j :: pop < j <= i ==> a[j] == children[j - 1]
    {
      a[i + 1] := children[i];
    }
    var want := children[..pop] + [c] + children[pop..];
    assert |want| == total + 1;
    assert forall j :: 0 <= j < total + 1 ==> a[j] == want[j];
  }

  /** A copy of `children` with position `pop` replaced. */
  method ReplacedArray<K, V>(children: seq<Cell?<K, V>>, pop: nat, c: Cell?<K, V>) returns (a: array<Cell?<K, V>>)
    requires pop < |children|
    ensures fresh(a) && a[..] == children[pop := c]
  {
    var total := |children|;
    a := new Cell?<K, V>[total](_ => null);
    for i := 0 to total
      invariant a[..i] == children[..i]
    {
      a[i] := children[i];
    }
    a[pop] := c;
  }

  /** A copy of `children` without position `pop`. */
  method DroppedArray<K, V>(children: seq<Cell?<K, V>>, pop: nat) returns (a: array<Cell?<K, V>>)
    requires pop < |children|
    ensures fresh(a) && a[..] == children[..pop] + children[pop + 1..]
  {
    var total := |children|;
    a := new Cell?<K, V>[total - 1](_ => null);
    for i := 0 to pop
      invariant forall j :: 0 <= j < i ==> a[j] == children[j]
    {
      a[i] := children[i];
    }
    for i := pop + 1 to total
      invariant forall j :: 0 <= j < pop ==> a[j] == children[j]
      invariant forall j :: pop <= j < i - 1 ==> a[j] == children[j + 1]
    {
      a[i - 1] := children[i];
    }
    var want := children[..pop] + children[pop + 1..];
    assert |want| == total - 1;
    assert forall j :: 0 <= j < total - 1 ==> a[j] == want[j];
  }

  /** A bucket copy with entry `i` written, or with the entry appended. */
  method WrittenBucket<K, V>(entries: seq<(K, V)>, i: nat, pair: (K, V)) returns (a: array<(K, V)>)
    requires i <= |entries|
    ensures fresh(a) && a[..] == if i < |entries| then entries[i := pair] else entries + [pair]
  {
    var n := |entries|;
    a := new (K, V)[if i < n then n else n + 1](_ => pair);
    for j := 0 to n
      invariant a[..j] == entries[..j]
    {
      a[j] := entries[j];
    }
    a[i] := pair;
  }

  /** A bucket copy without entry `gone`. */
  method ShrunkBucket<K, V>(entries: seq<(K, V)>, gone: nat) returns (a: array<(K, V)>)
    requires gone < |entries| && 2 <= |entries|
    ensures fresh(a) && a[..] == entries[..gone] + entries[gone + 1..]
  {
    var n := |entries|;
    a := new (K, V)[n - 1](_ => entries[0]);
    var j := 0;
    for i := 0 to n
      invariant j == if i <= gone then i else i - 1
      invariant a[..j] == if i <= gone then entries[..i] else entries[..gone] + entries[gone + 1..i]
    {
      if i != gone {
        a[j] := entries[i];
        j := j + 1;
      }
    }
  }

  // ----- allocation

  /** `alloc_leaf` or `alloc_collision`, in place of `before`. */
  method AllocTip<K, V>(ghost before: Cell?<K, V>, shape: Shape<K, V>, ghost n: int)
    returns (r: Cell<K, V>, ghost news: seq<Cell<K, V>>)
    requires Sound(before) && !shape.BranchShape? && n >= 0
    ensures fresh(news) && Trie(r) == NodeOf(shape) && Copies(before, r, news, n)
  {
    r := new Cell(shape);
    news := [r];
    CopiesTip(before, r);
    CopiesMore(before, r, news, 0, n);
  }

  /** `alloc_branch`. */
  method AllocBranch<K, V>(bitmap: bv32, children: seq<Cell?<K, V>>) returns (r: Cell<K, V>)
    requires SoundAll(children)
    ensures fresh(r) && Sound(r) && r.shape == BranchShape(bitmap, children)
    ensures Trie(r) == Branch(bitmap, Tries(children))
  {
    r := new Cell(BranchShape(bitmap, children));
  }

  method AllocLeaf<K, V>(hash: bv64, key: K, val: V) returns (r: Cell<K, V>)
    ensures fresh(r) && Sound(r) && r.shape == LeafShape(hash, key, val) && Trie(r) == Leaf(hash, key, val)
  {
    r := new Cell(LeafShape(hash, key, val));
  }

  method AllocSingle<K, V>(i: Slot, child: Cell?<K, V>) returns (r: Cell<K, V>)
    requires Sound(child)
    ensures fresh(r) && Sound(r) && r.shape.BranchShape? && r.shape.children == [child]
    ensures Trie(r) == Single(i, Trie(child))
  {
    hide Bit, Sound;
    var children := new Cell?<K, V>[1](_ => child);
    assert children[..] == [child];
    r := AllocBranch(Bit(i), children[..]);
    assert Tries([child]) == [Trie(child)];
  }

  method AllocPair<K, V>(i: Slot, a: Cell?<K, V>, j: Slot, b: Cell?<K, V>) returns (r: Cell<K, V>)
    requires Sound(a) && Sound(b)
    ensures fresh(r) && Sound(r) && r.shape.BranchShape?
    ensures r.shape.children == [a, b] || r.shape.children == [b, a]
    ensures Trie(r) == Pair(i, Trie(a), j, Trie(b))
  {
    hide Bit, Sound;
    var children := new Cell?<K, V>[2](_ => null);
    if i < j {
      children[0], children[1] := a, b;
      assert children[..] == [a, b];
      r := AllocBranch(Bit(i) | Bit(j), children[..]);
      assert Tries([a, b]) == [Trie(a), Trie(b)];
    } else {
      children[0], children[1] := b, a;
      assert children[..] == [b, a];
      r := AllocBranch(Bit(j) | Bit(i), children[..]);
      assert Tries([b, a]) == [Trie(b), Trie(a)];
    }
  }

  // ----- insertion

  /** `hamt_insert`. From depth `d` on, at most `13 - d` branches and one leaf
      or bucket are new; every other cell of the result is an old one. */
  method HamtInsert<K(!new), V>(ops: KeyOps<K>, c: Cell?<K, V>, hash: bv64, key: K, val: V, depth: nat)
    returns (r: Cell<K, V>, inserted: bool, ghost news: seq<Cell<K, V>>)
    requires Sound(c) && depth <= LEVELS && Valid(ops, Trie(c), Path(hash, depth))
    ensures (Trie(r), inserted) == Insert(ops, Trie(c), hash, key, val, depth)
    ensures fresh(news) && Copies(c, r, news, LEVELS - depth)
    decreases LEVELS - depth, 2
  {
    hide Slice, Path, Has, Bit, Rank, PopCount, Copies, Sound;
    if c == null {
      inserted := true;
      r, news := AllocTip(c, LeafShape(hash, key, val), LEVELS - depth);
      return;
    }
    SoundShape(c);
    match c.shape {
      case LeafShape(_, _, _) =>
        r, inserted, news := InsertAtLeaf(ops, c, hash, key, val, depth);
      case BranchShape(_, _) =>
        r, inserted, news := InsertAtBranch(ops, c, hash, key, val, depth);
      case BucketShape(_, _) =>
        r, inserted, news := InsertAtBucket(ops, c, hash, key, val, depth);
    }
  }

  /** The leaf case: the pair overwritten, a bucket of two, or a split. */
  method InsertAtLeaf<K(!new), V>(ops: KeyOps<K>, c: Cell<K, V>, hash: bv64, key: K, val: V, depth: nat)
    returns (r: Cell<K, V>, inserted: bool, ghost news: seq<Cell<K, V>>)
    requires Sound(c) && depth <= LEVELS && Valid(ops, Trie(c), Path(hash, depth)) && c.shape.LeafShape?
    ensures (Trie(r), inserted) == Insert(ops, Trie(c), hash, key, val, depth)
    ensures fresh(news) && Copies(c, r, news, LEVELS - depth)
    decreases LEVELS - depth, 1
  {
    hide Slice, Path, Has, Bit, Rank, PopCount, Copies, Sound;
    SoundShape(c);
    var h, k, existing := c.shape.hash, c.shape.key, c.shape.val;
    if h != hash {
      inserted := true;
      SplitDepth(h, hash, depth);
      r, news := MergeLeavesInto(ops, h, c, hash, key, val, depth);
    } else if ops.eq(k, key) {
      inserted := false;
      r, news := AllocTip(c, LeafShape(hash, key, val), LEVELS - depth);
    } else {
      inserted := true;
      var entries := new (K, V)[2](_ => (k, existing));
      entries[1] := (key, val);
      r, news := AllocTip(c, BucketShape(hash, entries[..]), LEVELS - depth);
      assert entries[..] == [(k, existing), (key, val)];
    }
  }

  /** The bucket case: an entry written or appended, or a split. */
  method InsertAtBucket<K(!new), V>(ops: KeyOps<K>, c: Cell<K, V>, hash: bv64, key: K, val: V, depth: nat)
    returns (r: Cell<K, V>, inserted: bool, ghost news: seq<Cell<K, V>>)
    requires Sound(c) && depth <= LEVELS && Valid(ops, Trie(c), Path(hash, depth)) && c.shape.BucketShape?
    ensures (Trie(r), inserted) == Insert(ops, Trie(c), hash, key, val, depth)
    ensures fresh(news) && Copies(c, r, news, LEVELS - depth)
    decreases LEVELS - depth, 1
  {
    hide Slice, Path, Has, Bit, Rank, PopCount, Copies, Sound, Distinct;
    SoundShape(c);
    var h, entries := c.shape.hash, c.shape.entries;
    if h == hash {
      var i := FindInBucket(ops, entries, key);
      inserted := i == |entries|;
      var newEntries := WrittenBucket(entries, i, (key, val));
      r, news := AllocTip(c, BucketShape(hash, newEntries[..]), LEVELS - depth);
    } else {
      inserted := true;
      SplitDepth(h, hash, depth);
      r, news := MergeCollisionInto(h, c, hash, key, val, depth);
    }
  }

  /** The branch case of `hamt_insert`: a new leaf in a free slot, or a new
      child in a taken one. */
  method InsertAtBranch<K(!new), V>(ops: KeyOps<K>, c: Cell<K, V>, hash: bv64, key: K, val: V, depth: nat)
    returns (r: Cell<K, V>, inserted: bool, ghost news: seq<Cell<K, V>>)
    requires Sound(c) && depth <= LEVELS && Valid(ops, Trie(c), Path(hash, depth)) && c.shape.BranchShape?
    ensures (Trie(r), inserted) == Insert(ops, Trie(c), hash, key, val, depth)
    ensures fresh(news) && Copies(c, r, news, LEVELS - depth)
    decreases LEVELS - depth, 1
  {
    hide Slice, Path, Has, Bit, Rank, PopCount, Copies, Sound;
    SoundChildren(c);
    var idx := Slice(hash, depth);
    var pop := Rank(c.shape.bitmap, idx);
    RankInRange(c.shape.bitmap, idx);
    PathExtends(hash, depth);
    if !Has(c.shape.bitmap, idx) {
      inserted := true;
      var leaf := AllocLeaf(hash, key, val);
      r, news := SpliceLeaf(c, c.shape.bitmap | Bit(idx), pop, leaf, LEVELS - depth - 1);
    } else {
      var child := c.shape.children[pop];
      var newChild;
      newChild, inserted, news := HamtInsert(ops, child, hash, key, val, depth + 1);
      r, news := ReplaceChild(c, pop, newChild, news, LEVELS - depth - 1);
    }
  }

  /** A copy of a branch with a leaf spliced in at `pop`. */
  method SpliceLeaf<K, V>(c: Cell<K, V>, bitmap: bv32, pop: nat, leaf: Cell<K, V>, ghost n: nat)
    returns (r: Cell<K, V>, ghost news: seq<Cell<K, V>>)
    requires Sound(c) && c.shape.BranchShape? && pop <= |c.shape.children| && Sound(leaf) && leaf.shape.LeafShape?
    ensures var nodes := Tries(c.shape.children);
      Trie(r) == Branch(bitmap, nodes[..pop] + [Trie(leaf)] + nodes[pop..])
    ensures fresh(r) && news == [leaf, r] && Copies(c, r, news, n + 1)
  {
    hide Copies, Sound;
    SoundChildren(c);
    ghost var nodes := Tries(c.shape.children);
    var newChildren := SplicedArray(c.shape.children, pop, leaf);
    r := AllocBranch(bitmap, newChildren[..]);
    news := [leaf, r];
    assert Tries(newChildren[..]) == nodes[..pop] + [Trie(leaf)] + nodes[pop..];
    CopiesSpliced(c, r, pop, leaf);
    CopiesMore(c, r, news, 1, n + 1);
  }

  /** A copy of a branch with the child at `pop` replaced. */
  method ReplaceChild<K, V>(c: Cell<K, V>, pop: nat, child: Cell?<K, V>, ghost below: seq<Cell<K, V>>, ghost n: nat)
    returns (r: Cell<K, V>, ghost news: seq<Cell<K, V>>)
    requires Sound(c) && c.shape.BranchShape? && pop < |c.shape.children|
    requires Copies(c.shape.children[pop], child, below, n)
    ensures Trie(r) == Branch(c.shape.bitmap, Tries(c.shape.children)[pop := Trie(child)])
    ensures fresh(r) && news == below + [r] && Copies(c, r, news, n + 1)
  {
    hide Copies, Sound;
    SoundChildren(c);
    CopiesSound(c.shape.children[pop], child, below, n);
    var newChildren := ReplacedArray(c.shape.children, pop, child);
    r := AllocBranch(c.shape.bitmap, newChildren[..]);
    assert Tries(newChildren[..]) == Tries(c.shape.children)[pop := Trie(child)];
    CopiesReplaced(c, r, pop, child, below, n);
    news := below + [r];
  }

  /** `merge_leaves`. */
  method MergeLeavesInto<K(!new), V>(
      ops: KeyOps<K>, hashA: bv64, leafA: Cell<K, V>, hashB: bv64, keyB: K, valB: V, depth: nat)
    returns (r: Cell<K, V>, ghost news: seq<Cell<K, V>>)
    requires Sound(leafA) && depth < LEVELS && Valid(ops, Trie(leafA), Path(hashB, depth))
    requires Trie(leafA).Leaf? && Trie(leafA).hash == hashA && hashA != hashB
    ensures Trie(r) == MergeLeaves(ops, hashA, Trie(leafA), hashB, keyB, valB, depth)
    ensures fresh(news) && Copies(leafA, r, news, LEVELS - depth)
    decreases LEVELS - depth, 0
  {
    hide Slice, Path, Bit, Copies, Sound;
    var a, b := Slice(hashA, depth), Slice(hashB, depth);
    if a == b {
      PathStep(hashA, hashB, depth);
      var child, _, below := HamtInsert(ops, leafA, hashB, keyB, valB, depth + 1);
      CopiesSound(leafA, child, below, LEVELS - depth - 1);
      r := AllocSingle(a, child);
      CopiesSingle(leafA, r, child, below, LEVELS - depth - 1);
      news := below + [r];
    } else {
      var leafB := AllocLeaf(hashB, keyB, valB);
      r := AllocPair(a, leafA, b, leafB);
      news := [leafB, r];
      CopiesPair(leafA, r, leafB);
      CopiesMore(leafA, r, news, 1, LEVELS - depth);
    }
  }

  /** `merge_collision_and_leaf`. */
  method MergeCollisionInto<K, V>(hashC: bv64, bucket: Cell<K, V>, hashL: bv64, key: K, val: V, depth: nat)
    returns (r: Cell<K, V>, ghost news: seq<Cell<K, V>>)
    requires Sound(bucket) && depth < LEVELS && hashC != hashL && Path(hashC, depth) == Path(hashL, depth)
    ensures Trie(r) == MergeCollision(hashC, Trie(bucket), hashL, key, val, depth)
    ensures fresh(news) && Copies(bucket, r, news, LEVELS - depth)
    decreases LEVELS - depth
  {
    hide Slice, Path, Bit, Copies, Sound;
    var c, l := Slice(hashC, depth), Slice(hashL, depth);
    if c == l {
      PathStep(hashC, hashL, depth);
      SplitDepth(hashC, hashL, depth + 1);
      var inner, below := MergeCollisionInto(hashC, bucket, hashL, key, val, depth + 1);
      CopiesSound(bucket, inner, below, LEVELS - depth - 1);
      r := AllocSingle(c, inner);
      CopiesSingle(bucket, r, inner, below, LEVELS - depth - 1);
      news := below + [r];
    } else {
      var leaf := AllocLeaf(hashL, key, val);
      r := AllocPair(c, bucket, l, leaf);
      news := [leaf, r];
      CopiesPair(bucket, r, leaf);
      CopiesMore(bucket, r, news, 1, LEVELS - depth);
    }
  }

  // ----- removal

  /** `hamt_remove`. An absent key gives back the cell, with nothing new. */
  method HamtRemove<K(!new), V>(ops: KeyOps<K>, c: Cell?<K, V>, hash: bv64, key: K, depth: nat)
    returns (r: Cell?<K, V>, removed: bool, ghost news: seq<Cell<K, V>>)
    requires Sound(c) && depth <= LEVELS && Valid(ops, Trie(c), Path(hash, depth))
    ensures (Trie(r), removed) == Remove(ops, Trie(c), hash, key, depth)
    ensures fresh(news) && Copies(c, r, news, LEVELS - depth)
    ensures !removed ==> r == c && news == []
    decreases LEVELS - depth, 1
  {
    hide Slice, Path, Has, Bit, Rank, PopCount, Copies;
    r, removed, news := c, false, [];
    CopiesNothing(c);
    CopiesMore(c, c, [], 0, LEVELS - depth);
    CopiesMore(c, null, [], 0, LEVELS - depth);
    if c == null {
      return;
    }
    match c.shape {
      case LeafShape(h, k, _) =>
        if h == hash && ops.eq(k, key) {
          r, removed := null, true;
        }
      case BranchShape(_, _) =>
        r, removed, news := RemoveAtBranch(ops, c, hash, key, depth);
      case BucketShape(h, entries) =>
        if h != hash {
          return;
        }
        var i := FindInBucket(ops, entries, key);
        if i == |entries| {
          return;
        }
        removed := true;
        r, news := ShrinkBucket(c, i, LEVELS - depth);
    }
  }

  /** The branch case of `hamt_remove`. */
  method RemoveAtBranch<K(!new), V>(ops: KeyOps<K>, c: Cell<K, V>, hash: bv64, key: K, depth: nat)
    returns (r: Cell?<K, V>, removed: bool, ghost news: seq<Cell<K, V>>)
    requires Sound(c) && depth <= LEVELS && Valid(ops, Trie(c), Path(hash, depth)) && c.shape.BranchShape?
    ensures (Trie(r), removed) == Remove(ops, Trie(c), hash, key, depth)
    ensures fresh(news) && Copies(c, r, news, LEVELS - depth)
    ensures !removed ==> r == c && news == []
    decreases LEVELS - depth, 0
  {
    hide Slice, Path, Has, Bit, Rank, PopCount, Copies, Sound;
    r, removed, news := c, false, [];
    CopiesNothing(c);
    CopiesMore(c, c, [], 0, LEVELS - depth);
    SoundChildren(c);
    var idx := Slice(hash, depth);
    if !Has(c.shape.bitmap, idx) {
      return;
    }
    var pop := Rank(c.shape.bitmap, idx);
    RankInRange(c.shape.bitmap, idx);
    PathExtends(hash, depth);
    var newChild, gone, below := HamtRemove(ops, c.shape.children[pop], hash, key, depth + 1);
    if !gone {
      return;
    }
    removed := true;
    r, news := RebuildWithout(c, idx, newChild, below, LEVELS - depth - 1);
  }

  /** The branch around a child that lost a key: null when the only child is
      gone, otherwise a copy without it or with its replacement. */
  method RebuildWithout<K, V>(c: Cell<K, V>, idx: Slot, newChild: Cell?<K, V>, ghost below: seq<Cell<K, V>>,
      ghost n: nat)
    returns (r: Cell?<K, V>, ghost news: seq<Cell<K, V>>)
    requires Sound(c) && c.shape.BranchShape? && Rank(c.shape.bitmap, idx) < |c.shape.children|
    requires Copies(c.shape.children[Rank(c.shape.bitmap, idx)], newChild, below, n)
    ensures Trie(r) == BranchWithout(c.shape.bitmap, Tries(c.shape.children), idx, Trie(newChild))
    ensures news == [] || (r != null && fresh(r) && news == below + [r])
    ensures Copies(c, r, news, n + 1)
  {
    hide Bit, Rank, Copies, Sound;
    var bitmap, children := c.shape.bitmap, c.shape.children;
    ghost var nodes := Tries(children);
    var pop := Rank(bitmap, idx);
    SoundChildren(c);
    CopiesSound(children[pop], newChild, below, n);
    NullOrNot(newChild);
    if newChild == null {
      if |children| == 1 {
        r, news := null, [];
        CopiesNothing(c);
        CopiesMore(c, null, [], 0, n + 1);
      } else {
        var newChildren := DroppedArray(children, pop);
        r := AllocBranch(bitmap & !Bit(idx), newChildren[..]);
        assert Tries(newChildren[..]) == nodes[..pop] + nodes[pop + 1..];
        CopiesDropped(c, r, pop, below, n);
        news := below + [r];
      }
    } else {
      r, news := ReplaceChild(c, pop, newChild, below, n);
    }
  }

  method ShrinkBucket<K, V>(c: Cell<K, V>, i: nat, ghost n: nat)
    returns (r: Cell?<K, V>, ghost news: seq<Cell<K, V>>)
    requires Sound(c) && c.shape.BucketShape? && i < |c.shape.entries|
    ensures Trie(r) == BucketWithout(c.shape.hash, c.shape.entries, i)
    ensures fresh(news) && Copies(c, r, news, n)
  {
    hide Copies;
    var hash, entries := c.shape.hash, c.shape.entries;
    if |entries| == 1 {
      r, news := null, [];
      CopiesNothing(c);
      CopiesMore(c, null, [], 0, n);
    } else if |entries| == 2 {
      var (k, v) := entries[if i == 0 then 1 else 0];
      r, news := AllocTip(c, LeafShape(hash, k, v), n);
    } else {
      var newEntries := ShrunkBucket(entries, i);
      r, news := AllocTip(c, BucketShape(hash, newEntries[..]), n);
    }
  }

  // ----- the public operations

  /** The `TyraMap` handle. A handle is a value: no operation writes to one. */
  datatype Map<!K(!new), V> = Map(ops: KeyOps<K>, count: int, root: Cell?<K, V>) {

    /** The reachable states: a well-formed trie and a count of its keys. */
    ghost predicate Reachable() {
      && ops.Lawful()
      && Sound(root) && Valid(ops, Trie(root), [])
      && count == |Entries(Trie(root))|
    }

    /** The pairs the map holds, in traversal order. */
    ghost function Contents(): seq<(K, V)> {
      Entries(Trie(root))
    }
  }

  method MapNew<K(!new), V>(ops: KeyOps<K>) returns (m: Map<K, V>)
    requires ops.Lawful()
    ensures m.Reachable() && m.ops == ops && m.Contents() == []
  {
    m := Map(ops, 0, null);
  }

  /** `tyra_map_insert`. The new handle holds the old pairs with this one put
      at one place; every other key reads as before; the count follows; and
      at most 13 branches and one other cell are new, all else is shared. */
  method MapInsert<K(!new), V>(m: Map<K, V>, key: K, val: V)
    returns (r: Map<K, V>, ghost news: seq<Cell<K, V>>)
    requires m.Reachable()
    ensures r.Reachable() && r.ops == m.ops
    ensures exists i :: PutAt(m.ops, m.Contents(), r.Contents(), i, (key, val), Absent(m.ops, m.Contents(), key))
    ensures forall q :: Get(m.ops, r.Contents(), q) ==
                          if m.ops.eq(key, q) then Some(val) else Get(m.ops, m.Contents(), q)
    ensures r.count == m.count + if Absent(m.ops, m.Contents(), key) then 1 else 0
    ensures Absent(m.ops, m.Contents(), key) ==>
      var h := m.ops.hash(key); WithHash(m.ops, r.Contents(), h) == WithHash(m.ops, m.Contents(), h) + [(key, val)]
    ensures fresh(news) && Copies(m.root, r.root, news, 13)
  {
    hide Copies, Sound, WithHash;
    var root, inserted, made := HamtInsert(m.ops, m.root, m.ops.hash(key), key, val, 0);
    CopiesSound(m.root, root, made, LEVELS);
    r, news := Map(m.ops, if inserted then m.count + 1 else m.count, root), made;
    ghost var i := InsertPuts(m.ops, Trie(m.root), key, val, 0);
    if Absent(m.ops, m.Contents(), key) {
      NewGoesLast(m.ops, Trie(m.root), key, val, 0);
    }
    EntriesDistinct(m.ops, Trie(m.root), []);
    forall q ensures Get(m.ops, r.Contents(), q) ==
                       if m.ops.eq(key, q) then Some(val) else Get(m.ops, m.Contents(), q) {
      GetAfterPut(m.ops, m.Contents(), r.Contents(), i, (key, val), inserted, q);
    }
    assert PutAt(m.ops, m.Contents(), r.Contents(), i, (key, val), inserted);
  }

  /** `tyra_map_remove`. */
  method MapRemove<K(!new), V>(m: Map<K, V>, key: K) returns (r: Map<K, V>, ghost news: seq<Cell<K, V>>)
    requires m.Reachable()
    ensures r.Reachable() && r.ops == m.ops
    ensures if Absent(m.ops, m.Contents(), key) then r == m
            else exists i :: CutAt(m.ops, m.Contents(), r.Contents(), i, key)
    ensures forall q :: Get(m.ops, r.Contents(), q) ==
                          if m.ops.eq(key, q) then None else Get(m.ops, m.Contents(), q)
    ensures r.count == m.count - if Absent(m.ops, m.Contents(), key) then 0 else 1
    ensures fresh(news) && Copies(m.root, r.root, news, 13) && (Absent(m.ops, m.Contents(), key) ==> news == [])
  {
    hide Copies, Sound;
    var root, removed, made := HamtRemove(m.ops, m.root, m.ops.hash(key), key, 0);
    CopiesSound(m.root, root, made, LEVELS);
    r, news := Map(m.ops, if removed then m.count - 1 else m.count, root), made;
    ghost var i := RemoveCuts(m.ops, Trie(m.root), key, 0);
    EntriesDistinct(m.ops, Trie(m.root), []);
    if removed {
      var pairs := m.Contents();
      assert pairs[i] in pairs;
      forall q ensures Get(m.ops, r.Contents(), q) ==
                         if m.ops.eq(key, q) then None else Get(m.ops, pairs, q) {
        GetAfterCut(m.ops, pairs, r.Contents(), i, key, q);
      }
      GetAfterCut(m.ops, pairs, r.Contents(), i, key, key);
    } else {
      forall q | m.ops.eq(key, q) ensures Get(m.ops, r.Contents(), q) == None {
        AbsentAlike(m.ops, m.Contents(), key, q);
      }
    }
  }

  /** `tyra_map_get`. */
  method MapGet<K(!new), V>(m: Map<K, V>, key: K) returns (r: Option<V>)
    requires m.Reachable()
    ensures r == Get(m.ops, m.Contents(), key)
  {
    r := HamtLookup(m.ops, m.root, m.ops.hash(key), key, 0);
    LookupIsSearch(m.ops, Trie(m.root), key, 0);
  }

  /** `tyra_map_contains`. */
  method MapContains<K(!new), V>(m: Map<K, V>, key: K) returns (r: bool)
    requires m.Reachable()
    ensures r <==> !Absent(m.ops, m.Contents(), key)
  {
    var v := MapGet(m, key);
    r := v.Some?;
    FindAbsent(m.ops, m.Contents(), key);
  }

  /** `tyra_map_len`: the number of keys, each counted once. */
  method MapLen<K(!new), V>(m: Map<K, V>) returns (n: int)
    requires m.Reachable()
    ensures n == |m.Contents()| && Distinct(m.ops, m.Contents())
  {
    EntriesDistinct(m.ops, Trie(m.root), []);
    n := m.count;
  }

  /** `tyra_map_for_each`: each key is visited once, with the value `get`
      returns for it, and every key `get` finds is visited; in the order of the
      hashes. */
  method MapForEach<K(!new), V>(m: Map<K, V>) returns (visits: seq<(K, V)>)
    requires m.Reachable()
    ensures visits == m.Contents() && Distinct(m.ops, visits) && |visits| == m.count && InHashOrder(m.ops, visits)
    ensures forall e :: e in visits ==> Get(m.ops, m.Contents(), e.0) == Some(e.1)
  {
    hide Distinct, Get, Valid, InHashOrder;
    EntriesDistinct(m.ops, Trie(m.root), []);
    TraversalInOrder(m.ops, Trie(m.root), []);
    visits := HamtForEach(m.root, []);
    assert visits == m.Contents();
    forall e | e in visits ensures Get(m.ops, m.Contents(), e.0) == Some(e.1) {
      GetOfPair(m.ops, visits, e);
    }
  }
}
