/** Insertion and removal keep a trie well formed and change its traversal
    by exactly one pair. */
module HamtLaws {
  import opened Bits
  import opened Hashes
  import opened Keys
  import opened Hamt
  import opened HamtEntries

  // ----- the three ways a child array changes

  lemma ChildAfterAdd<K, V>(bitmap: bv32, children: seq<Node<K, V>>, idx: Slot, node: Node<K, V>, i: Slot)
    requires |children| == PopCount(bitmap) && !Has(bitmap, idx)
    ensures var pop := Rank(bitmap, idx);
      && pop <= |children|
      && Child(bitmap | Bit(idx), children[..pop] + [node] + children[pop..], i)
           == (if i == idx then node else Child(bitmap, children, i))
      && (Has(bitmap | Bit(idx), i) <==> i == idx || Has(bitmap, i))
      && PopCount(bitmap | Bit(idx)) == |children| + 1
  {
    hide Has, Bit, Rank, PopCount;
    PositionsAfterSet(bitmap, idx, i);
    RankInRange(bitmap, i);
  }

  lemma ChildAfterReplace<K, V>(bitmap: bv32, children: seq<Node<K, V>>, idx: Slot, node: Node<K, V>, i: Slot)
    requires |children| == PopCount(bitmap) && Has(bitmap, idx)
    ensures var pop := Rank(bitmap, idx);
      && pop < |children|
      && Child(bitmap, children[pop := node], i) == if i == idx then node else Child(bitmap, children, i)
  {
    hide Has, Bit, Rank, PopCount;
    PositionsAfterClear(bitmap, idx, i);
  }

  lemma ChildAfterDrop<K, V>(bitmap: bv32, children: seq<Node<K, V>>, idx: Slot, i: Slot)
    requires |children| == PopCount(bitmap) && Has(bitmap, idx)
    ensures var pop := Rank(bitmap, idx);
      && pop < |children|
      && Child(bitmap & !Bit(idx), children[..pop] + children[pop + 1..], i)
           == (if i == idx then Null else Child(bitmap, children, i))
      && (Has(bitmap & !Bit(idx), i) <==> i != idx && Has(bitmap, i))
      && PopCount(bitmap & !Bit(idx)) == |children| - 1
  {
    hide Has, Bit, Rank, PopCount;
    PositionsAfterClear(bitmap, idx, i);
    RankInRange(bitmap, i);
  }

  ghost predicate ChildOk<K(!new), V>(ops: KeyOps<K>, bitmap: bv32, children: seq<Node<K, V>>, path: seq<Slot>,
      i: Slot) {
    !Child(bitmap, children, i).Null? && Valid(ops, Child(bitmap, children, i), path + [i])
  }

  lemma BranchValid<K(!new), V>(ops: KeyOps<K>, bitmap: bv32, children: seq<Node<K, V>>, path: seq<Slot>)
    requires |path| < LEVELS && |children| == PopCount(bitmap) > 0
    requires forall i: Slot :: Has(bitmap, i) ==> ChildOk(ops, bitmap, children, path, i)
    ensures Valid(ops, Branch(bitmap, children), path)
  {
    hide Has, Bit, Rank, PopCount;
  }

  lemma SingleValid<K(!new), V>(ops: KeyOps<K>, path: seq<Slot>, i: Slot, child: Node<K, V>)
    requires |path| < LEVELS && !child.Null? && Valid(ops, child, path + [i])
    ensures Valid(ops, Single(i, child), path)
    ensures Entries(Single(i, child)) == Entries(child)
  {
    hide Has, Bit, Rank, PopCount;
    forall j: Slot | Has(Bit(i), j) ensures Child(Bit(i), [child], j) == child && j == i {
      SingleSlot(i, j);
    }
    SingleSlot(i, i);
    assert AllEntries([child][1..]) == [];
  }

  lemma PairValid<K(!new), V>(ops: KeyOps<K>, path: seq<Slot>, i: Slot, a: Node<K, V>, j: Slot, b: Node<K, V>)
    requires |path| < LEVELS && i != j
    requires !a.Null? && Valid(ops, a, path + [i]) && !b.Null? && Valid(ops, b, path + [j])
    ensures Valid(ops, Pair(i, a, j, b), path)
    ensures Entries(Pair(i, a, j, b)) == if i < j then Entries(a) + Entries(b) else Entries(b) + Entries(a)
  {
    hide Has, Bit, Rank, PopCount;
    SlotOrder(i, j);
    if i < j {
      OrderedPairValid(ops, path, i, a, j, b);
    } else {
      OrderedPairValid(ops, path, j, b, i, a);
    }
  }

  lemma OrderedPairValid<K(!new), V>(ops: KeyOps<K>, path: seq<Slot>, i: Slot, a: Node<K, V>, j: Slot, b: Node<K, V>)
    requires |path| < LEVELS && i < j
    requires !a.Null? && Valid(ops, a, path + [i]) && !b.Null? && Valid(ops, b, path + [j])
    ensures Valid(ops, Branch(Bit(i) | Bit(j), [a, b]), path)
    ensures AllEntries([a, b]) == Entries(a) + Entries(b)
  {
    hide Has, Bit, Rank, PopCount;
    var bitmap := Bit(i) | Bit(j);
    forall k: Slot | Has(bitmap, k)
      ensures (k == i && Child(bitmap, [a, b], k) == a) || (k == j && Child(bitmap, [a, b], k) == b)
    {
      TwoSlots(i, j, k);
    }
    TwoSlots(i, j, i);
    assert [a, b][1..] == [b] && [b][1..] == [];
    assert AllEntries([b]) == Entries(b);
  }

  lemma LeafValid<K(!new), V>(ops: KeyOps<K>, key: K, val: V, depth: nat)
    requires depth <= LEVELS
    ensures Valid(ops, Leaf(ops.hash(key), key, val), Path(ops.hash(key), depth))
  {
  }

  // ----- insertion

  /** Insertion at any depth: the result is a well-formed, non-null subtrie
      of the same path, and its traversal is the old one with the pair put
      at one position. The flag is set exactly when the key was absent. */
  lemma {:induction false} InsertPuts<K(!new), V>(ops: KeyOps<K>, node: Node<K, V>, key: K, val: V, depth: nat)
      returns (i: nat)
    requires ops.Lawful() && depth <= LEVELS && Valid(ops, node, Path(ops.hash(key), depth))
    ensures var (after, added) := Insert(ops, node, ops.hash(key), key, val, depth);
      && !after.Null?
      && Valid(ops, after, Path(ops.hash(key), depth))
      && PutAt(ops, Entries(node), Entries(after), i, (key, val), added)
      && (added <==> Absent(ops, Entries(node), key))
    decreases LEVELS - depth, 1
  {
    hide Slice, Path, Has, Bit, Rank, PopCount;
    var hash := ops.hash(key);
    match node
    case Null =>
      i := 0;
      LeafValid(ops, key, val, depth);
    case Leaf(h, k, v) =>
      EqChain(ops, key, k, key);
      if h == hash {
        i := if ops.eq(k, key) then 0 else 1;
      } else {
        SplitDepth(h, hash, depth);
        i := MergeLeavesPuts(ops, node, key, val, depth);
      }
    case Branch(bitmap, children) =>
      if Has(bitmap, Slice(hash, depth)) {
        i := InsertInTakenSlot(ops, node, key, val, depth);
      } else {
        i := InsertInFreeSlot(ops, node, key, val, depth);
      }
    case Collision(h, _) =>
      i := InsertInBucket(ops, node, key, val, depth);
  }

  /** The bucket case. */
  lemma InsertInBucket<K(!new), V>(ops: KeyOps<K>, node: Node<K, V>, key: K, val: V, depth: nat) returns (i: nat)
    requires ops.Lawful() && depth <= LEVELS && Valid(ops, node, Path(ops.hash(key), depth)) && node.Collision?
    ensures var (after, added) := Insert(ops, node, ops.hash(key), key, val, depth);
      && !after.Null?
      && Valid(ops, after, Path(ops.hash(key), depth))
      && PutAt(ops, Entries(node), Entries(after), i, (key, val), added)
      && (added <==> Absent(ops, Entries(node), key))
  {
    hide Slice, Path, Has, Bit, Rank, PopCount;
    var h, hash, entries := node.hash, ops.hash(key), node.entries;
    if h == hash {
      i := Find(ops, entries, key);
      FindAbsent(ops, entries, key);
      CollisionInsert(ops, h, entries, key, val);
      if i < |entries| {
        assert entries[i] in entries;
      }
    } else {
      forall e | e in entries ensures !ops.eq(e.0, key) {
        EqChain(ops, key, e.0, key);
      }
      SplitDepth(h, hash, depth);
      i := MergeCollisionPuts(ops, node, key, val, depth);
    }
  }

  lemma CollisionInsert<K(!new), V>(ops: KeyOps<K>, h: bv64, entries: seq<(K, V)>, key: K, val: V)
    requires ops.Lawful() && Distinct(ops, entries) && ops.hash(key) == h
    requires forall e :: e in entries ==> ops.hash(e.0) == h
    ensures var i := Find(ops, entries, key);
            var after := if i < |entries| then entries[i := (key, val)] else entries + [(key, val)];
            Distinct(ops, after) && forall e :: e in after ==> ops.hash(e.0) == h
  {
    var i := Find(ops, entries, key);
    var after := if i < |entries| then entries[i := (key, val)] else entries + [(key, val)];
    FindAbsent(ops, entries, key);
    PutDistinct(ops, entries, after, i, (key, val), i == |entries|);
  }

  /** The branch case when the slot is free. */
  lemma InsertInFreeSlot<K(!new), V>(ops: KeyOps<K>, node: Node<K, V>, key: K, val: V, depth: nat) returns (i: nat)
    requires ops.Lawful() && depth < LEVELS && Valid(ops, node, Path(ops.hash(key), depth))
    requires node.Branch? && !Has(node.bitmap, Slice(ops.hash(key), depth))
    ensures var (after, added) := Insert(ops, node, ops.hash(key), key, val, depth);
      && added && !after.Null?
      && Valid(ops, after, Path(ops.hash(key), depth))
      && PutAt(ops, Entries(node), Entries(after), i, (key, val), true)
      && Absent(ops, Entries(node), key)
  {
    hide Slice, Path, Has, Bit, Rank, PopCount;
    var hash := ops.hash(key);
    var path := Path(hash, depth);
    var idx := Slice(hash, depth);
    var leaf := Leaf(hash, key, val);
    PathExtends(hash, depth);
    LeafValid(ops, key, val, depth + 1);
    OnlyOneChild(ops, node, path, key);
    AddedChild(ops, node, path, idx, leaf);
    var pop := Rank(node.bitmap, idx);
    var front, back := node.children[..pop], node.children[pop..];
    assert node.children == front + back;
    AddedEntries(front, leaf, back);
    i := |AllEntries(front)|;
  }

  /** The branch case when the slot is taken. */
  lemma {:induction false} InsertInTakenSlot<K(!new), V>(ops: KeyOps<K>, node: Node<K, V>, key: K, val: V,
      depth: nat) returns (i: nat)
    requires ops.Lawful() && depth < LEVELS && Valid(ops, node, Path(ops.hash(key), depth))
    requires node.Branch? && Has(node.bitmap, Slice(ops.hash(key), depth))
    ensures var (after, added) := Insert(ops, node, ops.hash(key), key, val, depth);
      && !after.Null?
      && Valid(ops, after, Path(ops.hash(key), depth))
      && PutAt(ops, Entries(node), Entries(after), i, (key, val), added)
      && (added <==> Absent(ops, Entries(node), key))
    decreases LEVELS - depth, 0
  {
    hide Slice, Path, Has, Bit, Rank, PopCount;
    var hash := ops.hash(key);
    var path := Path(hash, depth);
    var idx := Slice(hash, depth);
    var children := node.children;
    PathExtends(hash, depth);
    OnlyOneChild(ops, node, path, key);
    var pop := Rank(node.bitmap, idx);
    var child := children[pop];
    var (grown, added) := Insert(ops, child, hash, key, val, depth + 1);
    var j := InsertPuts(ops, child, key, val, depth + 1);
    ReplacedChild(ops, node, path, idx, grown);
    i := PutInChild(ops, children, pop, grown, j, (key, val), added);
  }

  /** A put in one child is a put in the traversal of the branch. */
  lemma PutInChild<K(!new), V>(ops: KeyOps<K>, children: seq<Node<K, V>>, p: nat, after: Node<K, V>, j: nat,
      pair: (K, V), isNew: bool)
    returns (i: nat)
    requires p < |children| && PutAt(ops, Entries(children[p]), Entries(after), j, pair, isNew)
    requires Absent(ops, AllEntries(children[..p]), pair.0) && Absent(ops, AllEntries(children[p + 1..]), pair.0)
    ensures PutAt(ops, AllEntries(children), AllEntries(children[p := after]), i, pair, isNew)
    ensures Absent(ops, AllEntries(children), pair.0) <==> Absent(ops, Entries(children[p]), pair.0)
  {
    hide PutAt;
    var front, back := AllEntries(children[..p]), AllEntries(children[p + 1..]);
    AroundChild(children, p, children[p]);
    AroundChild(children, p, after);
    assert children[p := children[p]] == children;
    PutInMiddle(ops, front, Entries(children[p]), Entries(after), back, j, pair, isNew);
    i := |front| + j;
  }

  lemma AddedChild<K(!new), V>(ops: KeyOps<K>, node: Node<K, V>, path: seq<Slot>, idx: Slot, leaf: Node<K, V>)
    requires Valid(ops, node, path) && node.Branch? && !Has(node.bitmap, idx)
    requires leaf.Leaf? && Valid(ops, leaf, path + [idx])
    ensures var pop := Rank(node.bitmap, idx);
      && pop <= |node.children|
      && Valid(ops, Branch(node.bitmap | Bit(idx), node.children[..pop] + [leaf] + node.children[pop..]), path)
  {
    hide Has, Bit, Rank, PopCount, Fits;
    var bitmap, children := node.bitmap, node.children;
    RankInRange(bitmap, idx);
    var pop := Rank(bitmap, idx);
    var after := children[..pop] + [leaf] + children[pop..];
    var grownMap := bitmap | Bit(idx);
    forall i: Slot | Has(grownMap, i) ensures ChildOk(ops, grownMap, after, path, i) {
      ChildAfterAdd(bitmap, children, idx, leaf, i);
    }
    ChildAfterAdd(bitmap, children, idx, leaf, idx);
    BranchValid(ops, grownMap, after, path);
  }

  lemma AddedEntries<K, V>(front: seq<Node<K, V>>, leaf: Node<K, V>, back: seq<Node<K, V>>)
    ensures AllEntries(front + [leaf] + back) == AllEntries(front) + Entries(leaf) + AllEntries(back)
    ensures AllEntries(front + back) == AllEntries(front) + AllEntries(back)
  {
    hide Entries, AllEntries;
    AllEntriesConcat(front, back);
    AllEntriesConcat(front + [leaf], back);
    AllEntriesConcat(front, [leaf]);
    EntriesOfOne(leaf);
  }

  lemma EntriesOfOne<K, V>(node: Node<K, V>)
    ensures AllEntries([node]) == Entries(node)
  {
  }

  lemma ReplacedChild<K(!new), V>(ops: KeyOps<K>, node: Node<K, V>, path: seq<Slot>, idx: Slot, grown: Node<K, V>)
    requires Valid(ops, node, path) && node.Branch? && Has(node.bitmap, idx)
    requires !grown.Null? && Valid(ops, grown, path + [idx])
    ensures Rank(node.bitmap, idx) < |node.children|
    ensures Valid(ops, Branch(node.bitmap, node.children[Rank(node.bitmap, idx) := grown]), path)
  {
    hide Has, Bit, Rank, PopCount;
    var bitmap, children := node.bitmap, node.children;
    RankInRange(bitmap, idx);
    var after := children[Rank(bitmap, idx) := grown];
    forall i: Slot | Has(bitmap, i)
      ensures !Child(bitmap, after, i).Null? && Valid(ops, Child(bitmap, after, i), path + [i])
    {
      ChildAfterReplace(bitmap, children, idx, grown, i);
    }
  }

  lemma {:induction false} MergeLeavesPuts<K(!new), V>(ops: KeyOps<K>, leaf: Node<K, V>, key: K, val: V, depth: nat)
      returns (i: nat)
    requires ops.Lawful() && depth < LEVELS && Valid(ops, leaf, Path(ops.hash(key), depth))
    requires leaf.Leaf? && leaf.hash != ops.hash(key)
    ensures var after := MergeLeaves(ops, leaf.hash, leaf, ops.hash(key), key, val, depth);
      && !after.Null?
      && Valid(ops, after, Path(ops.hash(key), depth))
      && PutAt(ops, Entries(leaf), Entries(after), i, (key, val), true)
    decreases LEVELS - depth, 0
  {
    hide Slice, Path, Has, Bit, Rank, PopCount;
    var hash := ops.hash(key);
    var path := Path(hash, depth);
    var a, b := Slice(leaf.hash, depth), Slice(hash, depth);
    PathExtends(hash, depth);
    FitsStep(leaf.hash, path, a);
    if a == b {
      i := InsertPuts(ops, leaf, key, val, depth + 1);
      EqChain(ops, key, leaf.key, key);
      SingleValid(ops, path, a, Insert(ops, leaf, hash, key, val, depth + 1).0);
    } else {
      LeafValid(ops, key, val, depth + 1);
      PairValid(ops, path, a, leaf, b, Leaf(hash, key, val));
      i := if a < b then 1 else 0;
    }
  }

  lemma {:induction false} MergeCollisionPuts<K(!new), V>(ops: KeyOps<K>, bucket: Node<K, V>, key: K, val: V,
      depth: nat) returns (i: nat)
    requires ops.Lawful() && depth < LEVELS && Valid(ops, bucket, Path(ops.hash(key), depth))
    requires bucket.Collision? && bucket.hash != ops.hash(key)
    ensures Path(bucket.hash, depth) == Path(ops.hash(key), depth)
    ensures var after := MergeCollision(bucket.hash, bucket, ops.hash(key), key, val, depth);
      && !after.Null?
      && Valid(ops, after, Path(ops.hash(key), depth))
      && PutAt(ops, Entries(bucket), Entries(after), i, (key, val), true)
    decreases LEVELS - depth
  {
    hide Slice, Path, Has, Bit, Rank, PopCount;
    var hash := ops.hash(key);
    var path := Path(hash, depth);
    var c, l := Slice(bucket.hash, depth), Slice(hash, depth);
    PathExtends(hash, depth);
    FitsStep(bucket.hash, path, c);
    if c == l {
      PathStep(bucket.hash, hash, depth);
      SplitDepth(bucket.hash, hash, depth + 1);
      i := MergeCollisionPuts(ops, bucket, key, val, depth + 1);
      SingleValid(ops, path, c, MergeCollision(bucket.hash, bucket, hash, key, val, depth + 1));
    } else {
      LeafValid(ops, key, val, depth + 1);
      PairValid(ops, path, c, bucket, l, Leaf(hash, key, val));
      i := if c < l then |bucket.entries| else 0;
    }
  }

  // ----- removal

  /** Removal at any depth: an absent key gives the very node back; a present
      one leaves a well-formed subtrie (or nothing) whose traversal is the
      old one without that pair. */
  lemma {:induction false} RemoveCuts<K(!new), V>(ops: KeyOps<K>, node: Node<K, V>, key: K, depth: nat) returns (i: nat)
    requires ops.Lawful() && depth <= LEVELS && Valid(ops, node, Path(ops.hash(key), depth))
    ensures var (after, removed) := Remove(ops, node, ops.hash(key), key, depth);
      && Valid(ops, after, Path(ops.hash(key), depth))
      && (if removed then CutAt(ops, Entries(node), Entries(after), i, key)
          else after == node && Absent(ops, Entries(node), key))
    decreases LEVELS - depth, 1
  {
    hide Slice, Path, Has, Bit, Rank, PopCount;
    var hash := ops.hash(key);
    i := 0;
    match node
    case Null =>
    case Leaf(h, k, v) =>
      EqChain(ops, key, k, key);
    case Branch(bitmap, children) =>
      if Has(bitmap, Slice(hash, depth)) {
        i := RemoveInTakenSlot(ops, node, key, depth);
      } else {
        OnlyOneChild(ops, node, Path(hash, depth), key);
      }
    case Collision(h, entries) =>
      i := RemoveInBucket(ops, node, key, depth);
  }

  lemma BucketStaysValid<K(!new), V>(ops: KeyOps<K>, node: Node<K, V>, path: seq<Slot>, i: nat)
    requires ops.Lawful() && Valid(ops, node, path) && node.Collision? && i < |node.entries|
    ensures Valid(ops, BucketWithout(node.hash, node.entries, i), path)
    ensures Entries(BucketWithout(node.hash, node.entries, i)) == node.entries[..i] + node.entries[i + 1..]
  {
    hide Fits;
    var key := node.entries[i].0;
    EqChain(ops, key, key, key);
    if |node.entries| > 2 {
      GetAfterCut(ops, node.entries, node.entries[..i] + node.entries[i + 1..], i, key, key);
    }
  }

  /** The bucket case. */
  lemma RemoveInBucket<K(!new), V>(ops: KeyOps<K>, node: Node<K, V>, key: K, depth: nat) returns (i: nat)
    requires ops.Lawful() && depth <= LEVELS && Valid(ops, node, Path(ops.hash(key), depth)) && node.Collision?
    ensures var (after, removed) := Remove(ops, node, ops.hash(key), key, depth);
      && Valid(ops, after, Path(ops.hash(key), depth))
      && (if removed then CutAt(ops, Entries(node), Entries(after), i, key)
          else after == node && Absent(ops, Entries(node), key))
  {
    hide Slice, Path, Has, Bit, Rank, PopCount, BucketWithout, Distinct;
    var entries := node.entries;
    i := 0;
    if node.hash == ops.hash(key) {
      i := Find(ops, entries, key);
      FindAbsent(ops, entries, key);
      if i < |entries| {
        BucketStaysValid(ops, node, Path(ops.hash(key), depth), i);
      }
    } else {
      forall e | e in entries ensures !ops.eq(e.0, key) {
        EqChain(ops, key, e.0, key);
      }
    }
  }

  lemma {:induction false} RemoveInTakenSlot<K(!new), V>(ops: KeyOps<K>, node: Node<K, V>, key: K, depth: nat)
      returns (i: nat)
    requires ops.Lawful() && depth < LEVELS && Valid(ops, node, Path(ops.hash(key), depth))
    requires node.Branch? && Has(node.bitmap, Slice(ops.hash(key), depth))
    ensures var (after, removed) := Remove(ops, node, ops.hash(key), key, depth);
      && Valid(ops, after, Path(ops.hash(key), depth))
      && (if removed then CutAt(ops, Entries(node), Entries(after), i, key)
          else after == node && Absent(ops, Entries(node), key))
    decreases LEVELS - depth, 0
  {
    hide Slice, Path, Has, Bit, Rank, PopCount;
    var hash := ops.hash(key);
    var path := Path(hash, depth);
    var idx := Slice(hash, depth);
    var children := node.children;
    PathExtends(hash, depth);
    OnlyOneChild(ops, node, path, key);
    var pop := Rank(node.bitmap, idx);
    var child := children[pop];
    var (left, removed) := Remove(ops, child, hash, key, depth + 1);
    var j := RemoveCuts(ops, child, key, depth + 1);
    if removed {
      i := CutInChild(ops, children, pop, left, j, key);
      CutBranchValid(ops, node, path, idx, left);
    } else {
      i := 0;
      AbsentInChild(ops, children, pop, key);
    }
  }

  /** What a removal leaves of a branch is valid. */
  lemma CutBranchValid<K(!new), V>(ops: KeyOps<K>, node: Node<K, V>, path: seq<Slot>, idx: Slot, left: Node<K, V>)
    requires Valid(ops, node, path) && node.Branch? && Has(node.bitmap, idx)
    requires Valid(ops, left, path + [idx])
    ensures Rank(node.bitmap, idx) < |node.children|
    ensures Valid(ops, BranchWithout(node.bitmap, node.children, idx, left), path)
  {
    hide Has, Bit, Rank, PopCount;
    RankInRange(node.bitmap, idx);
    if !left.Null? {
      ReplacedChild(ops, node, path, idx, left);
    } else if |node.children| > 1 {
      DroppedChild(ops, node, path, idx);
    }
  }

  /** A cut in one child is a cut in the traversal of the branch; a child cut
      down to nothing can be dropped. */
  lemma CutInChild<K(!new), V>(ops: KeyOps<K>, children: seq<Node<K, V>>, p: nat, after: Node<K, V>, j: nat, key: K)
    returns (i: nat)
    requires p < |children| && CutAt(ops, Entries(children[p]), Entries(after), j, key)
    ensures CutAt(ops, AllEntries(children), AllEntries(children[p := after]), i, key)
    ensures after.Null? ==> AllEntries(children[p := after]) == AllEntries(children[..p] + children[p + 1..])
    ensures after.Null? && |children| == 1 ==> AllEntries(children[p := after]) == []
  {
    hide CutAt;
    var front, back := AllEntries(children[..p]), AllEntries(children[p + 1..]);
    AroundChild(children, p, children[p]);
    AroundChild(children, p, after);
    assert children[p := children[p]] == children;
    CutInMiddle(ops, front, Entries(children[p]), Entries(after), back, j, key);
    AllEntriesConcat(children[..p], children[p + 1..]);
    i := |front| + j;
  }

  lemma AbsentInChild<K(!new), V>(ops: KeyOps<K>, children: seq<Node<K, V>>, p: nat, key: K)
    requires p < |children| && Absent(ops, Entries(children[p]), key)
    requires Absent(ops, AllEntries(children[..p]), key) && Absent(ops, AllEntries(children[p + 1..]), key)
    ensures Absent(ops, AllEntries(children), key)
  {
    AroundChild(children, p, children[p]);
    assert children[p := children[p]] == children;
  }

  lemma DroppedChild<K(!new), V>(ops: KeyOps<K>, node: Node<K, V>, path: seq<Slot>, idx: Slot)
    requires Valid(ops, node, path) && node.Branch? && Has(node.bitmap, idx) && |node.children| > 1
    ensures Rank(node.bitmap, idx) < |node.children|
    ensures var pop := Rank(node.bitmap, idx);
      Valid(ops, Branch(node.bitmap & !Bit(idx), node.children[..pop] + node.children[pop + 1..]), path)
  {
    hide Has, Bit, Rank, PopCount;
    var bitmap, children := node.bitmap, node.children;
    RankInRange(bitmap, idx);
    var pop := Rank(bitmap, idx);
    var after := children[..pop] + children[pop + 1..];
    var shrunkMap := bitmap & !Bit(idx);
    forall i: Slot | Has(shrunkMap, i) ensures ChildOk(ops, shrunkMap, after, path, i) {
      ChildAfterDrop(bitmap, children, idx, i);
    }
    ChildAfterDrop(bitmap, children, idx, idx);
    BranchValid(ops, shrunkMap, after, path);
  }
}
