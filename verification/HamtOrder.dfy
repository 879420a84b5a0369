/** The order of a traversal: by the slices of the hashes, the lowest slice
    first, and among equal hashes by the time of insertion. */
module HamtOrder {
  import opened Bits
  import opened Hashes
  import opened Keys
  import opened Hamt
  import opened HamtEntries
  import opened HamtLaws

  // ----- by hash

  /** At the first level where the slices differ, `a` has the smaller one. */
  ghost predicate SlicesBefore(a: bv64, b: bv64) {
    exists d :: 0 <= d < LEVELS && BranchesBefore(a, b, d)
  }

  predicate BranchesBefore(a: bv64, b: bv64, d: nat)
    requires d < LEVELS
  {
    Path(a, d) == Path(b, d) && Slice(a, d) < Slice(b, d)
  }

  ghost predicate InHashOrder<K(!new), V>(ops: KeyOps<K>, pairs: seq<(K, V)>) {
    forall x, y :: 0 <= x < y < |pairs| ==>
      ops.hash(pairs[x].0) == ops.hash(pairs[y].0) || SlicesBefore(ops.hash(pairs[x].0), ops.hash(pairs[y].0))
  }

  ghost predicate AllBefore<K(!new), V>(ops: KeyOps<K>, a: seq<(K, V)>, b: seq<(K, V)>) {
    forall e, f :: e in a && f in b ==> SlicesBefore(ops.hash(e.0), ops.hash(f.0))
  }

  lemma OrderedConcat<K(!new), V>(ops: KeyOps<K>, a: seq<(K, V)>, b: seq<(K, V)>)
    requires InHashOrder(ops, a) && InHashOrder(ops, b) && AllBefore(ops, a, b)
    ensures InHashOrder(ops, a + b)
  {
    hide SlicesBefore;
    var pairs := a + b;
    forall x, y | 0 <= x < y < |pairs|
      ensures ops.hash(pairs[x].0) == ops.hash(pairs[y].0) || SlicesBefore(ops.hash(pairs[x].0), ops.hash(pairs[y].0))
    {
      if x < |a| <= y {
        assert a[x] in a && b[y - |a|] in b;
      }
    }
  }

  /** What is below an earlier child comes before what is below a later one. */
  lemma ChildrenOrdered<K(!new), V>(
      ops: KeyOps<K>, node: Node<K, V>, path: seq<Slot>, p: nat, q: nat, e: (K, V), f: (K, V))
    requires Valid(ops, node, path) && node.Branch? && p < q < |node.children|
    requires e in Entries(node.children[p]) && f in Entries(node.children[q])
    ensures SlicesBefore(ops.hash(e.0), ops.hash(f.0))
  {
    hide Has, Rank, PopCount, Slice, Path;
    var a, b := ops.hash(e.0), ops.hash(f.0);
    var d := |path|;
    SlotOfEntry(ops, node, path, p, e);
    SlotOfEntry(ops, node, path, q, f);
    var i := ChildAt(ops, node, path, p);
    var j := ChildAt(ops, node, path, q);
    EntriesFit(ops, node.children[p], path + [i], e);
    EntriesFit(ops, node.children[q], path + [j], f);
    FitsStep(a, path, i);
    FitsStep(b, path, j);
    if j < i {
      RankOrder(node.bitmap, j, i);
    }
    assert BranchesBefore(a, b, d);
  }

  lemma {:induction false} ChildrenInOrder<K(!new), V>(ops: KeyOps<K>, node: Node<K, V>, path: seq<Slot>, n: nat)
    requires Valid(ops, node, path) && node.Branch? && n <= |node.children|
    requires forall p :: 0 <= p < n ==> InHashOrder(ops, Entries(node.children[p]))
    ensures InHashOrder(ops, AllEntries(node.children[..n]))
    decreases n
  {
    hide Valid, InHashOrder, SlicesBefore, Entries;
    if n == 0 {
      NothingOrdered<K, V>(ops);
      assert node.children[..0] == [];
    } else {
      var front, last := node.children[..n - 1], Entries(node.children[n - 1]);
      ChildrenInOrder(ops, node, path, n - 1);
      assert node.children[..n] == front + [node.children[n - 1]];
      AllEntriesConcat(front, [node.children[n - 1]]);
      assert AllEntries([node.children[n - 1]]) == last;
      forall e, f | e in AllEntries(front) && f in last ensures SlicesBefore(ops.hash(e.0), ops.hash(f.0)) {
        var p := FromChild(front, e);
        ChildrenOrdered(ops, node, path, p, n - 1, e, f);
      }
      OrderedConcat(ops, AllEntries(front), last);
    }
  }

  lemma NothingOrdered<K(!new), V>(ops: KeyOps<K>)
    ensures InHashOrder<K, V>(ops, []) && AllEntries<K, V>([]) == []
  {
  }

  /** A traversal visits the pairs in the order of their hashes. */
  lemma {:induction false} TraversalInOrder<K(!new), V>(ops: KeyOps<K>, node: Node<K, V>, path: seq<Slot>)
    requires Valid(ops, node, path)
    ensures InHashOrder(ops, Entries(node))
    decreases node
  {
    hide Has, Rank, PopCount, Slice, Path;
    if node.Branch? {
      forall p | 0 <= p < |node.children| ensures InHashOrder(ops, Entries(node.children[p])) {
        var i := ChildAt(ops, node, path, p);
        TraversalInOrder(ops, node.children[p], path + [i]);
      }
      ChildrenInOrder(ops, node, path, |node.children|);
      assert node.children[..|node.children|] == node.children;
    }
  }

  // ----- by the time of insertion

  /** The pairs whose keys have this hash, in their order. */
  function WithHash<K(!new), V>(ops: KeyOps<K>, pairs: seq<(K, V)>, h: bv64): seq<(K, V)> {
    if |pairs| == 0 then []
    else (if ops.hash(pairs[0].0) == h then [pairs[0]] else []) + WithHash(ops, pairs[1..], h)
  }

  lemma {:induction false} WithHashConcat<K(!new), V>(ops: KeyOps<K>, a: seq<(K, V)>, b: seq<(K, V)>, h: bv64)
    ensures WithHash(ops, a + b, h) == WithHash(ops, a, h) + WithHash(ops, b, h)
    decreases |a|
  {
    if |a| == 0 {
      assert a + b == b;
    } else {
      assert (a + b)[1..] == a[1..] + b;
      WithHashConcat(ops, a[1..], b, h);
    }
  }

  lemma {:induction false} WithHashNone<K(!new), V>(ops: KeyOps<K>, pairs: seq<(K, V)>, h: bv64)
    requires forall e :: e in pairs ==> ops.hash(e.0) != h
    ensures WithHash(ops, pairs, h) == []
    decreases |pairs|
  {
    if |pairs| > 0 {
      assert pairs[0] in pairs;
      WithHashNone(ops, pairs[1..], h);
    }
  }

  lemma {:induction false} WithHashAll<K(!new), V>(ops: KeyOps<K>, pairs: seq<(K, V)>, h: bv64)
    requires forall e :: e in pairs ==> ops.hash(e.0) == h
    ensures WithHash(ops, pairs, h) == pairs
    decreases |pairs|
  {
    if |pairs| > 0 {
      assert pairs[0] in pairs;
      WithHashAll(ops, pairs[1..], h);
    }
  }

  /** Where no key had the hash, a new pair is the only one with it. */
  lemma OnlyOneWithHash<K(!new), V>(ops: KeyOps<K>, before: seq<(K, V)>, after: seq<(K, V)>, i: nat, pair: (K, V))
    requires PutAt(ops, before, after, i, pair, true)
    requires forall e :: e in before ==> ops.hash(e.0) != ops.hash(pair.0)
    ensures var h := ops.hash(pair.0); WithHash(ops, after, h) == WithHash(ops, before, h) + [pair]
  {
    hide WithHash;
    var h := ops.hash(pair.0);
    WithHashNone(ops, before, h);
    WithHashNone(ops, before[..i], h);
    WithHashNone(ops, before[i..], h);
    WithHashAll(ops, [pair], h);
    WithHashConcat(ops, before[..i], [pair], h);
    WithHashConcat(ops, before[..i] + [pair], before[i..], h);
  }

  /** A hash that leads to one child is found below no other. */
  lemma OtherChildren<K(!new), V>(ops: KeyOps<K>, node: Node<K, V>, path: seq<Slot>, h: bv64, p: nat, e: (K, V))
    requires Valid(ops, node, path) && node.Branch? && p < |node.children| && e in Entries(node.children[p])
    requires !(Has(node.bitmap, Slice(h, |path|)) && Rank(node.bitmap, Slice(h, |path|)) == p)
    ensures ops.hash(e.0) != h
  {
    hide Has, Rank, PopCount, Slice, Path;
    SlotOfEntry(ops, node, path, p, e);
  }

  lemma {:induction false} NewGoesLast<K(!new), V>(ops: KeyOps<K>, node: Node<K, V>, key: K, val: V, depth: nat)
    requires ops.Lawful() && depth <= LEVELS && Valid(ops, node, Path(ops.hash(key), depth))
    requires Absent(ops, Entries(node), key)
    ensures var h := ops.hash(key);
      WithHash(ops, Entries(Insert(ops, node, h, key, val, depth).0), h)
        == WithHash(ops, Entries(node), h) + [(key, val)]
    decreases LEVELS - depth
  {
    hide Slice, Path, Has, Bit, Rank, PopCount, WithHash, KeyOps.Lawful;
    var h := ops.hash(key);
    var i := InsertPuts(ops, node, key, val, depth);
    if node.Branch? {
      if Has(node.bitmap, Slice(h, depth)) {
        NewInTakenSlot(ops, node, key, val, depth);
      } else {
        forall e | e in Entries(node) ensures ops.hash(e.0) != h {
          var p := FromChild(node.children, e);
          OtherChildren(ops, node, Path(h, depth), h, p, e);
        }
        OnlyOneWithHash(ops, Entries(node), Entries(Insert(ops, node, h, key, val, depth).0), i, (key, val));
      }
    } else if !node.Null? && node.hash == h {
      NewBesideOthers(ops, node, key, val, depth);
    } else {
      OnlyOneWithHash(ops, Entries(node), Entries(Insert(ops, node, h, key, val, depth).0), i, (key, val));
    }
  }

  /** The key joins a leaf or a bucket of its own hash. */
  lemma NewBesideOthers<K(!new), V>(ops: KeyOps<K>, node: Node<K, V>, key: K, val: V, depth: nat)
    requires ops.Lawful() && depth <= LEVELS && Valid(ops, node, Path(ops.hash(key), depth))
    requires Absent(ops, Entries(node), key) && (node.Leaf? || node.Collision?) && node.hash == ops.hash(key)
    ensures var h := ops.hash(key);
      WithHash(ops, Entries(Insert(ops, node, h, key, val, depth).0), h)
        == WithHash(ops, Entries(node), h) + [(key, val)]
  {
    hide Slice, Path, Has, Bit, Rank, PopCount, WithHash, KeyOps.Lawful;
    var h := ops.hash(key);
    var pairs := Entries(node);
    FindAbsent(ops, pairs, key);
    WithHashAll(ops, pairs, h);
    WithHashAll(ops, pairs + [(key, val)], h);
    if node.Leaf? {
      assert (node.key, node.val) in pairs;
      assert [(node.key, node.val), (key, val)] == pairs + [(key, val)];
    }
  }

  lemma {:induction false} NewInTakenSlot<K(!new), V>(ops: KeyOps<K>, node: Node<K, V>, key: K, val: V, depth: nat)
    requires ops.Lawful() && depth < LEVELS && Valid(ops, node, Path(ops.hash(key), depth))
    requires Absent(ops, Entries(node), key) && node.Branch? && Has(node.bitmap, Slice(ops.hash(key), depth))
    ensures var h := ops.hash(key);
      WithHash(ops, Entries(Insert(ops, node, h, key, val, depth).0), h)
        == WithHash(ops, Entries(node), h) + [(key, val)]
    decreases LEVELS - depth, 0
  {
    hide Slice, Path, Has, Bit, Rank, PopCount, WithHash, KeyOps.Lawful, Absent;
    var h := ops.hash(key);
    var path, children := Path(h, depth), node.children;
    var pop := Rank(node.bitmap, Slice(h, depth));
    PathExtends(h, depth);
    OnlyOneChild(ops, node, path, key);
    var child := children[pop];
    AbsentBelow(ops, children, pop, key);
    NewGoesLast(ops, child, key, val, depth + 1);
    var grown := Insert(ops, child, h, key, val, depth + 1).0;
    forall e | e in AllEntries(children[..pop]) ensures ops.hash(e.0) != h {
      var p := FromChild(children[..pop], e);
      OtherChildren(ops, node, path, h, p, e);
    }
    forall e | e in AllEntries(children[pop + 1..]) ensures ops.hash(e.0) != h {
      var p := FromChild(children[pop + 1..], e);
      OtherChildren(ops, node, path, h, pop + 1 + p, e);
    }
    OneChildsHash(ops, children, pop, child, h);
    OneChildsHash(ops, children, pop, grown, h);
    assert children[pop := child] == children;
  }

  lemma AbsentBelow<K(!new), V>(ops: KeyOps<K>, children: seq<Node<K, V>>, p: nat, key: K)
    requires p < |children| && Absent(ops, AllEntries(children), key)
    ensures Absent(ops, Entries(children[p]), key)
  {
    AroundChild(children, p, children[p]);
    assert children[p := children[p]] == children;
    forall e | e in Entries(children[p]) ensures e in AllEntries(children) {
    }
  }

  lemma OneChildsHash<K(!new), V>(ops: KeyOps<K>, children: seq<Node<K, V>>, p: nat, child: Node<K, V>, h: bv64)
    requires p < |children|
    requires forall e :: e in AllEntries(children[..p]) ==> ops.hash(e.0) != h
    requires forall e :: e in AllEntries(children[p + 1..]) ==> ops.hash(e.0) != h
    ensures WithHash(ops, AllEntries(children[p := child]), h) == WithHash(ops, Entries(child), h)
  {
    hide WithHash, AllEntries;
    var front, back := AllEntries(children[..p]), AllEntries(children[p + 1..]);
    AroundChild(children, p, child);
    WithHashNone(ops, front, h);
    WithHashNone(ops, back, h);
    WithHashConcat(ops, front, Entries(child), h);
    WithHashConcat(ops, front + Entries(child), back, h);
  }
}
