/** `Set<T>`: the keys-only trie. Removal and lookup are those of the map with
    nothing stored; insertion differs, an element already present is kept. */
module HamtSet {
  import opened Bits
  import opened Hashes
  import opened Keys
  import opened Hamt
  import opened HamtEntries
  import opened HamtLaws
  import opened HamtOrder
  import opened HamtCells
  import opened HamtMap

  type SetCell<K> = Cell<K, ()>

  /** The collision bucket case of `hamt_insert`. */
  method SetBucketInsert<K(!new)>(ops: KeyOps<K>, c: SetCell<K>, key: K, ghost n: nat)
    returns (r: SetCell<K>, inserted: bool, ghost news: seq<SetCell<K>>)
    requires ops.Lawful() && Sound(c) && c.shape.BucketShape?
    ensures inserted <==> Absent(ops, c.shape.entries, key)
    ensures Trie(r) == if inserted then Collision(c.shape.hash, c.shape.entries + [(key, ())]) else Trie(c)
    ensures (!inserted ==> r == c && news == []) && fresh(news) && Copies(c, r, news, n)
  {
    hide Copies, Sound;
    var entries := c.shape.entries;
    var i := FindInBucket(ops, entries, key);
    FindAbsent(ops, entries, key);
    if i < |entries| {
      r, inserted, news := KeepCell(c, n);
    } else {
      inserted := true;
      var newKeys := WrittenBucket(entries, i, (key, ()));
      r, news := AllocTip(c, BucketShape(c.shape.hash, newKeys[..]), n);
    }
  }

  /** An element already there: the cell as it is. */
  method KeepCell<K>(c: SetCell<K>, ghost n: nat)
    returns (r: SetCell<K>, inserted: bool, ghost news: seq<SetCell<K>>)
    requires Sound(c)
    ensures r == c && !inserted && news == [] && Copies(c, r, news, n)
  {
    r, inserted, news := c, false, [];
    CopiesNothing(c);
    CopiesMore(c, r, news, 0, n);
  }

  /** The set's `hamt_insert`: the map's insertion for a new element, an equal
      trie for one already there. */
  method SetHamtInsert<K(!new)>(ops: KeyOps<K>, c: Cell?<K, ()>, key: K, depth: nat)
    returns (r: SetCell<K>, inserted: bool, ghost news: seq<SetCell<K>>)
    requires ops.Lawful() && Sound(c) && depth <= LEVELS && Valid(ops, Trie(c), Path(ops.hash(key), depth))
    ensures inserted <==> Absent(ops, Entries(Trie(c)), key)
    ensures Trie(r) == if inserted then Insert(ops, Trie(c), ops.hash(key), key, (), depth).0 else Trie(c)
    ensures fresh(news) && Copies(c, r, news, LEVELS - depth)
    decreases LEVELS - depth, 1
  {
    hide Slice, Path, Has, Bit, Rank, PopCount, Copies, Sound;
    var hash := ops.hash(key);
    inserted := true;
    if c == null {
      r, news := AllocTip(c, LeafShape(hash, key, ()), LEVELS - depth);
      return;
    }
    SoundShape(c);
    match c.shape {
      case LeafShape(_, _, _) =>
        r, inserted, news := SetLeafInsert(ops, c, key, depth);
      case BranchShape(_, _) =>
        r, inserted, news := SetBranchInsert(ops, c, key, depth);
      case BucketShape(h, entries) =>
        if h == hash {
          r, inserted, news := SetBucketInsert(ops, c, key, LEVELS - depth);
        } else {
          forall e | e in entries ensures !ops.eq(e.0, key) {
            EqChain(ops, key, e.0, key);
          }
          SplitDepth(h, hash, depth);
          r, news := MergeCollisionInto(h, c, hash, key, (), depth);
        }
    }
  }

  /** The leaf case of `hamt_insert`. */
  method SetLeafInsert<K(!new)>(ops: KeyOps<K>, c: SetCell<K>, key: K, depth: nat)
    returns (r: SetCell<K>, inserted: bool, ghost news: seq<SetCell<K>>)
    requires ops.Lawful() && Sound(c) && depth <= LEVELS && Valid(ops, Trie(c), Path(ops.hash(key), depth))
    requires c.shape.LeafShape?
    ensures inserted <==> Absent(ops, Entries(Trie(c)), key)
    ensures Trie(r) == if inserted then Insert(ops, Trie(c), ops.hash(key), key, (), depth).0 else Trie(c)
    ensures fresh(news) && Copies(c, r, news, LEVELS - depth)
  {
    hide Slice, Path, Has, Bit, Rank, PopCount, Copies, Sound;
    SoundShape(c);
    var hash := ops.hash(key);
    var h, k, unit := c.shape.hash, c.shape.key, c.shape.val;
    EqChain(ops, key, k, key);
    inserted := true;
    if h != hash {
      SplitDepth(h, hash, depth);
      r, news := MergeLeavesInto(ops, h, c, hash, key, (), depth);
    } else if ops.eq(k, key) {
      r, inserted, news := KeepCell(c, LEVELS - depth);
    } else {
      var keys := new (K, ())[2](_ => (k, unit));
      keys[1] := (key, ());
      r, news := AllocTip(c, BucketShape(hash, keys[..]), LEVELS - depth);
      assert keys[..] == [(k, unit), (key, ())];
    }
  }

  /** The branch case of `hamt_insert`. */
  method SetBranchInsert<K(!new)>(ops: KeyOps<K>, c: SetCell<K>, key: K, depth: nat)
    returns (r: SetCell<K>, inserted: bool, ghost news: seq<SetCell<K>>)
    requires ops.Lawful() && Sound(c) && depth <= LEVELS && Valid(ops, Trie(c), Path(ops.hash(key), depth))
    requires c.shape.BranchShape?
    ensures inserted <==> Absent(ops, Entries(Trie(c)), key)
    ensures Trie(r) == if inserted then Insert(ops, Trie(c), ops.hash(key), key, (), depth).0 else Trie(c)
    ensures fresh(news) && Copies(c, r, news, LEVELS - depth)
    decreases LEVELS - depth, 0
  {
    hide Slice, Path, Has, Bit, Rank, PopCount, Copies, Sound, Absent, Entries, Insert;
    SoundChildren(c);
    var hash := ops.hash(key);
    var idx := Slice(hash, depth);
    var pop := Rank(c.shape.bitmap, idx);
    RankInRange(c.shape.bitmap, idx);
    PathExtends(hash, depth);
    if !Has(c.shape.bitmap, idx) {
      inserted := true;
      var leaf := AllocLeaf(hash, key, ());
      r, news := SpliceLeaf(c, c.shape.bitmap | Bit(idx), pop, leaf, LEVELS - depth - 1);
      FreeSlotInserts(ops, Trie(c), key, depth);
    } else {
      var newChild;
      newChild, inserted, news := SetHamtInsert(ops, c.shape.children[pop], key, depth + 1);
      r, news := ReplaceChild(c, pop, newChild, news, LEVELS - depth - 1);
      TakenSlotInserts(ops, Trie(c), key, depth, pop);
    }
  }

  /** A free slot: the element is absent and its leaf goes there. */
  lemma FreeSlotInserts<K(!new)>(ops: KeyOps<K>, node: Node<K, ()>, key: K, depth: nat)
    requires ops.Lawful() && depth < LEVELS && Valid(ops, node, Path(ops.hash(key), depth)) && node.Branch?
    requires !Has(node.bitmap, Slice(ops.hash(key), depth))
    ensures Absent(ops, Entries(node), key)
    ensures var hash, idx := ops.hash(key), Slice(ops.hash(key), depth);
      var pop := Rank(node.bitmap, idx);
      && pop <= |node.children|
      && Insert(ops, node, hash, key, (), depth).0 ==
           Branch(node.bitmap | Bit(idx), node.children[..pop] + [Leaf(hash, key, ())] + node.children[pop..])
  {
    hide Slice, Path, Has, Bit, Rank, PopCount;
    RankInRange(node.bitmap, Slice(ops.hash(key), depth));
    OnlyOneChild(ops, node, Path(ops.hash(key), depth), key);
  }

  /** A taken slot: the child there decides, and is put back. */
  lemma TakenSlotInserts<K(!new)>(ops: KeyOps<K>, node: Node<K, ()>, key: K, depth: nat, pop: nat)
    requires ops.Lawful() && depth < LEVELS && Valid(ops, node, Path(ops.hash(key), depth)) && node.Branch?
    requires Has(node.bitmap, Slice(ops.hash(key), depth)) && pop == Rank(node.bitmap, Slice(ops.hash(key), depth))
    requires pop < |node.children| && Valid(ops, node.children[pop], Path(ops.hash(key), depth + 1))
    ensures Absent(ops, Entries(node), key) <==> Absent(ops, Entries(node.children[pop]), key)
    ensures Insert(ops, node, ops.hash(key), key, (), depth).0 ==
      Branch(node.bitmap, node.children[pop := Insert(ops, node.children[pop], ops.hash(key), key, (), depth + 1).0])
    ensures Branch(node.bitmap, node.children[pop := node.children[pop]]) == node
  {
    hide Slice, Path, Has, Bit, Rank, PopCount;
    OnlyOneChild(ops, node, Path(ops.hash(key), depth), key);
    AbsentAround(ops, node.children, pop, key);
  }

  lemma AbsentAround<K(!new), V>(ops: KeyOps<K>, children: seq<Node<K, V>>, p: nat, key: K)
    requires p < |children|
    requires Absent(ops, AllEntries(children[..p]), key) && Absent(ops, AllEntries(children[p + 1..]), key)
    ensures Absent(ops, AllEntries(children), key) <==> Absent(ops, Entries(children[p]), key)
    ensures children[p := children[p]] == children
  {
    AroundChild(children, p, children[p]);
    assert children[p := children[p]] == children;
    forall e | e in Entries(children[p]) ensures e in AllEntries(children) {
    }
  }

  /** The `TyraSet` handle. */
  datatype Set<!K(!new)> = Set(ops: KeyOps<K>, count: int, root: Cell?<K, ()>) {

    ghost predicate Reachable() {
      && ops.Lawful()
      && Sound(root) && Valid(ops, Trie(root), [])
      && count == |Entries(Trie(root))|
    }

    ghost function Elements(): seq<(K, ())> {
      Entries(Trie(root))
    }

    ghost predicate Holds(q: K) {
      !Absent(ops, Elements(), q)
    }
  }

  method SetNew<K(!new)>(ops: KeyOps<K>) returns (s: Set<K>)
    requires ops.Lawful()
    ensures s.Reachable() && s.ops == ops && s.Elements() == []
  {
    s := Set(ops, 0, null);
  }

  /** `tyra_set_insert`: idempotent, and exactly one element more otherwise. */
  method SetInsert<K(!new)>(s: Set<K>, key: K) returns (r: Set<K>, ghost news: seq<SetCell<K>>)
    requires s.Reachable()
    ensures r.Reachable() && r.ops == s.ops
    ensures s.Holds(key) ==> Trie(r.root) == Trie(s.root) && r.count == s.count
    ensures !s.Holds(key) ==> r.count == s.count + 1
    ensures !s.Holds(key) ==> exists i :: PutAt(s.ops, s.Elements(), r.Elements(), i, (key, ()), true)
    ensures forall q :: r.Holds(q) <==> s.ops.eq(key, q) || s.Holds(q)
    ensures !s.Holds(key) ==> var h := s.ops.hash(key);
      WithHash(s.ops, r.Elements(), h) == WithHash(s.ops, s.Elements(), h) + [(key, ())]
    ensures fresh(news) && Copies(s.root, r.root, news, 13)
  {
    hide Copies, Sound, WithHash;
    var root, inserted, made := SetHamtInsert(s.ops, s.root, key, 0);
    CopiesSound(s.root, root, made, LEVELS);
    r, news := Set(s.ops, if inserted then s.count + 1 else s.count, root), made;
    ghost var i := InsertPuts(s.ops, Trie(s.root), key, (), 0);
    if inserted {
      NewGoesLast(s.ops, Trie(s.root), key, (), 0);
    }
    EntriesDistinct(s.ops, Trie(s.root), []);
    forall q ensures r.Holds(q) <==> s.ops.eq(key, q) || s.Holds(q) {
      FindAbsent(s.ops, s.Elements(), q);
      FindAbsent(s.ops, r.Elements(), q);
      if inserted {
        GetAfterPut(s.ops, s.Elements(), r.Elements(), i, (key, ()), true, q);
      } else if s.ops.eq(key, q) && !s.Holds(q) {
        EqChain(s.ops, q, key, q);
        AbsentAlike(s.ops, s.Elements(), q, key);
        FindAbsent(s.ops, s.Elements(), key);
      }
    }
  }

  /** `tyra_set_remove`. */
  method SetRemove<K(!new)>(s: Set<K>, key: K) returns (r: Set<K>, ghost news: seq<SetCell<K>>)
    requires s.Reachable()
    ensures r.Reachable() && r.ops == s.ops
    ensures !s.Holds(key) ==> r == s
    ensures s.Holds(key) ==> r.count == s.count - 1
    ensures s.Holds(key) ==> exists i :: CutAt(s.ops, s.Elements(), r.Elements(), i, key)
    ensures forall q :: r.Holds(q) <==> !s.ops.eq(key, q) && s.Holds(q)
    ensures fresh(news) && Copies(s.root, r.root, news, 13) && (!s.Holds(key) ==> news == [])
  {
    hide Copies, Sound;
    var m, made := MapRemove(Map(s.ops, s.count, s.root), key);
    r, news := Set(s.ops, m.count, m.root), made;
    forall q ensures r.Holds(q) <==> !s.ops.eq(key, q) && s.Holds(q) {
      FindAbsent(s.ops, s.Elements(), q);
      FindAbsent(s.ops, r.Elements(), q);
    }
  }

  /** `tyra_set_contains`. */
  method SetContains<K(!new)>(s: Set<K>, key: K) returns (r: bool)
    requires s.Reachable()
    ensures r <==> s.Holds(key)
  {
    var v := HamtLookup(s.ops, s.root, s.ops.hash(key), key, 0);
    LookupIsSearch(s.ops, Trie(s.root), key, 0);
    FindAbsent(s.ops, s.Elements(), key);
    r := v.Some?;
  }

  /** `tyra_set_len`. */
  method SetLen<K(!new)>(s: Set<K>) returns (n: int)
    requires s.Reachable()
    ensures n == |s.Elements()| && Distinct(s.ops, s.Elements())
  {
    EntriesDistinct(s.ops, Trie(s.root), []);
    n := s.count;
  }

  function KeysOf<K>(pairs: seq<(K, ())>): (keys: seq<K>)
    ensures |keys| == |pairs| && forall i :: 0 <= i < |keys| ==> keys[i] == pairs[i].0
  {
    if |pairs| == 0 then [] else KeysOf(pairs[..|pairs| - 1]) + [pairs[|pairs| - 1].0]
  }

  lemma KeysConcat<K>(a: seq<(K, ())>, b: seq<(K, ())>)
    ensures KeysOf(a + b) == KeysOf(a) + KeysOf(b)
  {
    hide KeysOf;
  }

  lemma KeysOfOne<K>(k: K)
    ensures KeysOf<K>([]) == [] && KeysOf([(k, ())]) == [k]
  {
    hide KeysOf;
  }

  /** `set_hamt_for_each`: the visits are appended to those already made. */
  method SetHamtForEach<K>(c: Cell?<K, ()>, visited: seq<K>) returns (r: seq<K>)
    requires Sound(c)
    ensures r == visited + KeysOf(Entries(Trie(c)))
    decreases Trie(c)
  {
    hide KeysOf;
    r := visited;
    if c == null {
      return;
    }
    match c.shape {
      case LeafShape(_, k, _) =>
        KeysOfOne(k);
        r := r + [k];
      case BranchShape(_, children) =>
        r := SetVisitChildren(children, visited);
      case BucketShape(_, entries) =>
        for i := 0 to |entries|
          invariant r == visited + KeysOf(entries[..i])
        {
          assert entries[..i + 1] == entries[..i] + [entries[i]];
          KeysConcat(entries[..i], [entries[i]]);
          KeysOfOne(entries[i].0);
          r := r + [entries[i].0];
        }
        assert entries[..|entries|] == entries;
    }
  }

  /** The branch case: child by child. */
  method SetVisitChildren<K>(children: seq<Cell?<K, ()>>, visited: seq<K>) returns (r: seq<K>)
    requires SoundAll(children)
    ensures r == visited + KeysOf(AllEntries(Tries(children)))
    decreases Tries(children)
  {
    hide KeysOf, Entries, Sound;
    r := visited;
    ghost var nodes := Tries(children);
    for i := 0 to |children|
      invariant r == visited + KeysOf(AllEntries(nodes[..i]))
    {
      r := SetHamtForEach(children[i], r);
      assert nodes[..i + 1] == nodes[..i] + [nodes[i]];
      AllEntriesConcat(nodes[..i], [nodes[i]]);
      assert AllEntries([nodes[i]]) == Entries(nodes[i]);
      KeysConcat(AllEntries(nodes[..i]), Entries(nodes[i]));
    }
    assert nodes[..|children|] == nodes;
  }

  /** `tyra_set_for_each`: the visited elements are pairwise different, as many
      as the count says, and an element is held exactly when an equal one is
      visited; they come in the order of their hashes. */
  method SetForEach<K(!new)>(s: Set<K>) returns (visits: seq<K>)
    requires s.Reachable()
    ensures |visits| == s.count
    ensures forall i, j :: 0 <= i < j < |visits| ==> !s.ops.eq(visits[i], visits[j])
    ensures forall q :: s.Holds(q) <==> exists i :: 0 <= i < |visits| && s.ops.eq(visits[i], q)
    ensures visits == KeysOf(s.Elements()) && InHashOrder(s.ops, s.Elements())
  {
    hide Valid, Distinct, KeysOf, Entries, Absent, InHashOrder;
    TraversalInOrder(s.ops, Trie(s.root), []);
    EntriesDistinct(s.ops, Trie(s.root), []);
    visits := SetHamtForEach(s.root, []);
    assert visits == KeysOf(s.Elements());
    DistinctKeys(s.ops, s.Elements());
    forall q ensures s.Holds(q) <==> exists i :: 0 <= i < |visits| && s.ops.eq(visits[i], q) {
      HeldAt(s, visits, q);
    }
  }

  lemma DistinctKeys<K(!new)>(ops: KeyOps<K>, pairs: seq<(K, ())>)
    requires Distinct(ops, pairs)
    ensures forall i, j :: 0 <= i < j < |pairs| ==> !ops.eq(KeysOf(pairs)[i], KeysOf(pairs)[j])
  {
    hide KeysOf;
  }

  lemma HeldAt<K(!new)>(s: Set<K>, visits: seq<K>, q: K)
    requires visits == KeysOf(s.Elements())
    ensures s.Holds(q) <==> exists i :: 0 <= i < |visits| && s.ops.eq(visits[i], q)
  {
    var es := s.Elements();
    if s.Holds(q) {
      var e :| e in es && s.ops.eq(e.0, q);
      var i :| 0 <= i < |es| && es[i] == e;
      assert s.ops.eq(visits[i], q);
    }
    if i :| 0 <= i < |visits| && s.ops.eq(visits[i], q) {
      assert es[i] in es && s.ops.eq(es[i].0, q);
    }
  }
}
