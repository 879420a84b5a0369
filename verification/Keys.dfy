/** The key operations a container is created with, and the plain list of
    pairs that every container is compared against. */
module Keys {
  import opened Options

  /** The equality and hash callbacks passed to a container's constructor. */
  datatype KeyOps<!K(!new)> = KeyOps(eq: (K, K) -> bool, hash: K -> bv64) {

    /** What the containers rely on: `eq` is an equivalence and equal keys
        have equal hashes. */
    ghost predicate Lawful() {
      && (forall a :: eq(a, a))
      && (forall a, b :: eq(a, b) ==> eq(b, a) && hash(a) == hash(b))
      && (forall a, b, c :: eq(a, b) && eq(b, c) ==> eq(a, c))
    }
  }

  lemma EqChain<K(!new)>(ops: KeyOps<K>, a: K, b: K, c: K)
    requires ops.Lawful()
    ensures ops.eq(a, b) && ops.eq(b, c) ==> ops.eq(a, c)
    ensures ops.eq(b, a) ==> ops.eq(a, b) && ops.hash(a) == ops.hash(b)
    ensures ops.eq(a, a)
  {
  }

  /** Position of the first pair whose key equals `key`, or `|pairs|`. */
  function Find<K(!new), V>(ops: KeyOps<K>, pairs: seq<(K, V)>, key: K): (i: nat)
    ensures i <= |pairs|
    ensures i < |pairs| ==> ops.eq(pairs[i].0, key)
    ensures forall j :: 0 <= j < i ==> !ops.eq(pairs[j].0, key)
  {
    if |pairs| == 0 then 0
    else if ops.eq(pairs[0].0, key) then 0
    else 1 + Find(ops, pairs[1..], key)
  }

  function Get<K(!new), V>(ops: KeyOps<K>, pairs: seq<(K, V)>, key: K): Option<V> {
    var i := Find(ops, pairs, key);
    if i < |pairs| then Some(pairs[i].1) else None
  }

  ghost predicate Absent<K(!new), V>(ops: KeyOps<K>, pairs: seq<(K, V)>, key: K) {
    forall e :: e in pairs ==> !ops.eq(e.0, key)
  }

  /** No two pairs carry equal keys. */
  ghost predicate Distinct<K(!new), V>(ops: KeyOps<K>, pairs: seq<(K, V)>) {
    forall i, j :: 0 <= i < j < |pairs| ==> !ops.eq(pairs[i].0, pairs[j].0)
  }

  lemma FindAbsent<K(!new), V>(ops: KeyOps<K>, pairs: seq<(K, V)>, key: K)
    ensures Find(ops, pairs, key) == |pairs| <==> Absent(ops, pairs, key)
  {
    var i := Find(ops, pairs, key);
    if i < |pairs| {
      assert pairs[i] in pairs;
    }
  }

  /** The position `Find` returns is the only one `Distinct` leaves. */
  lemma FindUnique<K(!new), V>(ops: KeyOps<K>, pairs: seq<(K, V)>, key: K, i: nat)
    requires ops.Lawful() && Distinct(ops, pairs)
    requires i < |pairs| && ops.eq(pairs[i].0, key)
    ensures Find(ops, pairs, key) == i
  {
    var f := Find(ops, pairs, key);
    EqChain(ops, pairs[f].0, key, pairs[i].0);
  }

  /** Among distinct keys, a pair's key finds that very pair. */
  lemma GetOfPair<K(!new), V>(ops: KeyOps<K>, pairs: seq<(K, V)>, e: (K, V))
    requires ops.Lawful() && Distinct(ops, pairs) && e in pairs
    ensures Get(ops, pairs, e.0) == Some(e.1)
  {
    hide Distinct;
    var i :| 0 <= i < |pairs| && pairs[i] == e;
    EqChain(ops, e.0, e.0, e.0);
    FindUnique(ops, pairs, e.0, i);
  }

  lemma {:induction false} FindConcat<K(!new), V>(ops: KeyOps<K>, a: seq<(K, V)>, b: seq<(K, V)>, key: K)
    ensures Find(ops, a + b, key) ==
      if Find(ops, a, key) < |a| then Find(ops, a, key) else |a| + Find(ops, b, key)
  {
    if |a| == 0 {
      assert a + b == b;
    } else {
      assert (a + b)[1..] == a[1..] + b;
      FindConcat(ops, a[1..], b, key);
    }
  }

  /** A part in the middle decides the search when its surroundings hold no
      equal key. */
  lemma GetInMiddle<K(!new), V>(ops: KeyOps<K>, a: seq<(K, V)>, mid: seq<(K, V)>, b: seq<(K, V)>, key: K)
    requires Absent(ops, a, key) && Absent(ops, b, key)
    ensures Get(ops, a + mid + b, key) == Get(ops, mid, key)
  {
    FindAbsent(ops, a, key);
    FindAbsent(ops, b, key);
    FindConcat(ops, a + mid, b, key);
    FindConcat(ops, a, mid, key);
  }

  lemma DistinctConcat<K(!new), V>(ops: KeyOps<K>, a: seq<(K, V)>, b: seq<(K, V)>)
    requires Distinct(ops, a) && Distinct(ops, b)
    requires forall x, y :: x in a && y in b ==> !ops.eq(x.0, y.0)
    ensures Distinct(ops, a + b)
  {
    forall i, j | 0 <= i < j < |a + b| ensures !ops.eq((a + b)[i].0, (a + b)[j].0) {
      if i < |a| <= j {
        assert a[i] in a && b[j - |a|] in b;
      }
    }
  }

  // ----- how one insertion or removal changes such a list

  /** `after` is `before` with the pair `(key, val)` put at position `i`:
      spliced in when the key is new, written over the equal key otherwise. */
  ghost predicate PutAt<K(!new), V>(ops: KeyOps<K>, before: seq<(K, V)>, after: seq<(K, V)>, i: nat, pair: (K, V),
      isNew: bool) {
    if isNew then i <= |before| && after == before[..i] + [pair] + before[i..]
    else i < |before| && ops.eq(before[i].0, pair.0) && after == before[i := pair]
  }

  /** `after` is `before` without its element `i`, which carried `key`. */
  ghost predicate CutAt<K(!new), V>(ops: KeyOps<K>, before: seq<(K, V)>, after: seq<(K, V)>, i: nat, key: K) {
    i < |before| && ops.eq(before[i].0, key) && after == before[..i] + before[i + 1..]
  }

  /** `after` is `before` with the value at position `i`, which carries an equal
      key, overwritten; the stored key stays. */
  ghost predicate OverwrittenAt<K(!new), V>(ops: KeyOps<K>, before: seq<(K, V)>, after: seq<(K, V)>, i: nat, key: K,
      val: V) {
    i < |before| && ops.eq(before[i].0, key) && after == before[i := (before[i].0, val)]
  }

  lemma PutInMiddle<K(!new), V>(ops: KeyOps<K>, a: seq<(K, V)>, mid: seq<(K, V)>, after: seq<(K, V)>, b: seq<(K, V)>,
                                i: nat, pair: (K, V), isNew: bool)
    requires PutAt(ops, mid, after, i, pair, isNew)
    ensures PutAt(ops, a + mid + b, a + after + b, |a| + i, pair, isNew)
  {
    var whole := a + mid + b;
    if isNew {
      assert whole[..|a| + i] == a + mid[..i];
      assert whole[|a| + i..] == mid[i..] + b;
    }
  }

  lemma CutInMiddle<K(!new), V>(ops: KeyOps<K>, a: seq<(K, V)>, mid: seq<(K, V)>, after: seq<(K, V)>, b: seq<(K, V)>,
      i: nat, key: K)
    requires CutAt(ops, mid, after, i, key)
    ensures CutAt(ops, a + mid + b, a + after + b, |a| + i, key)
  {
    var whole := a + mid + b;
    assert whole[..|a| + i] == a + mid[..i];
    assert whole[|a| + i + 1..] == mid[i + 1..] + b;
  }

  /** What a put means to a reader. */
  lemma GetAfterPut<K(!new), V>(ops: KeyOps<K>, before: seq<(K, V)>, after: seq<(K, V)>, i: nat, pair: (K, V),
      isNew: bool, q: K)
    requires ops.Lawful() && Distinct(ops, before)
    requires PutAt(ops, before, after, i, pair, isNew)
    requires isNew ==> Absent(ops, before, pair.0)
    ensures Get(ops, after, q) == if ops.eq(pair.0, q) then Some(pair.1) else Get(ops, before, q)
    ensures |after| == |before| + if isNew then 1 else 0
    ensures Distinct(ops, after)
  {
    PutDistinct(ops, before, after, i, pair, isNew);
    if ops.eq(pair.0, q) {
      assert after[i] == pair;
      FindUnique(ops, after, q, i);
    } else if isNew {
      assert before == before[..i] + before[i..];
      SkipOne(ops, before[..i], pair, before[i..], q);
    } else {
      var a, b := before[..i], before[i + 1..];
      assert before == a + [before[i]] + b && after == a + [pair] + b;
      EqChain(ops, pair.0, before[i].0, q);
      SkipOne(ops, a, before[i], b, q);
      SkipOne(ops, a, pair, b, q);
    }
  }

  /** A pair with another key does not show in a search. */
  lemma SkipOne<K(!new), V>(ops: KeyOps<K>, a: seq<(K, V)>, pair: (K, V), b: seq<(K, V)>, q: K)
    requires !ops.eq(pair.0, q)
    ensures Get(ops, a + [pair] + b, q) == Get(ops, a + b, q)
  {
    FindConcat(ops, a + [pair], b, q);
    FindConcat(ops, a, [pair], q);
    FindConcat(ops, a, b, q);
  }

  lemma PutDistinct<K(!new), V>(ops: KeyOps<K>, before: seq<(K, V)>, after: seq<(K, V)>, i: nat, pair: (K, V),
      isNew: bool)
    requires ops.Lawful() && Distinct(ops, before)
    requires PutAt(ops, before, after, i, pair, isNew)
    requires isNew ==> Absent(ops, before, pair.0)
    ensures Distinct(ops, after)
  {
    forall x, y | 0 <= x < y < |after| ensures !ops.eq(after[x].0, after[y].0) {
      if isNew {
        var ox := if x < i then x else x - 1;
        var oy := if y < i then y else y - 1;
        if x == i {
          assert before[oy] in before;
        } else if y == i {
          assert before[ox] in before;
        } else {
          assert after[x] == before[ox] && after[y] == before[oy];
        }
      } else {
        EqChain(ops, before[x].0, after[x].0, after[y].0);
        EqChain(ops, before[x].0, after[y].0, before[y].0);
      }
    }
  }

  lemma GetAfterCut<K(!new), V>(ops: KeyOps<K>, before: seq<(K, V)>, after: seq<(K, V)>, i: nat, key: K, q: K)
    requires ops.Lawful() && Distinct(ops, before)
    requires CutAt(ops, before, after, i, key)
    ensures Get(ops, after, q) == if ops.eq(key, q) then None else Get(ops, before, q)
    ensures |after| == |before| - 1
    ensures Distinct(ops, after)
  {
    var a, b := before[..i], before[i + 1..];
    assert before == a + [before[i]] + b;
    EqChain(ops, key, before[i].0, q);
    if ops.eq(key, q) {
      forall e | e in after ensures !ops.eq(e.0, q) {
        var j :| 0 <= j < |after| && after[j] == e;
        OthersDiffer(ops, before, i, if j < i then j else j + 1, q);
      }
      FindAbsent(ops, after, q);
    } else {
      SkipOne(ops, a, before[i], b, q);
    }
  }

  lemma OthersDiffer<K(!new), V>(ops: KeyOps<K>, pairs: seq<(K, V)>, i: nat, j: nat, q: K)
    requires ops.Lawful() && Distinct(ops, pairs)
    requires i < |pairs| && j < |pairs| && i != j && ops.eq(pairs[i].0, q)
    ensures !ops.eq(pairs[j].0, q)
  {
    if ops.eq(pairs[j].0, q) {
      FindUnique(ops, pairs, q, i);
      FindUnique(ops, pairs, q, j);
    }
  }

  // ----- the reference: an insertion-ordered association list

  /** An equal key keeps its place (and its own key box) and gets the value;
      a new key goes to the end. */
  function AssocInsert<K(!new), V>(ops: KeyOps<K>, pairs: seq<(K, V)>, key: K, val: V): seq<(K, V)> {
    var i := Find(ops, pairs, key);
    if i < |pairs| then pairs[i := (pairs[i].0, val)] else pairs + [(key, val)]
  }

  function AssocRemove<K(!new), V>(ops: KeyOps<K>, pairs: seq<(K, V)>, key: K): seq<(K, V)> {
    var i := Find(ops, pairs, key);
    if i < |pairs| then pairs[..i] + pairs[i + 1..] else pairs
  }

  /** A new key goes to the end; an equal one is overwritten where it is. */
  lemma AssocInsertAt<K(!new), V>(ops: KeyOps<K>, pairs: seq<(K, V)>, key: K, val: V)
    ensures Absent(ops, pairs, key) ==> AssocInsert(ops, pairs, key, val) == pairs + [(key, val)]
    ensures !Absent(ops, pairs, key) ==>
      exists i: nat :: OverwrittenAt(ops, pairs, AssocInsert(ops, pairs, key, val), i, key, val)
  {
    FindAbsent(ops, pairs, key);
    var i := Find(ops, pairs, key);
    if i < |pairs| {
      assert OverwrittenAt(ops, pairs, AssocInsert(ops, pairs, key, val), i, key, val);
    }
  }

  lemma AssocRemoveAt<K(!new), V>(ops: KeyOps<K>, pairs: seq<(K, V)>, key: K)
    ensures Absent(ops, pairs, key) ==> AssocRemove(ops, pairs, key) == pairs
    ensures !Absent(ops, pairs, key) ==> exists i :: CutAt(ops, pairs, AssocRemove(ops, pairs, key), i, key)
  {
    FindAbsent(ops, pairs, key);
    var i := Find(ops, pairs, key);
    if i < |pairs| {
      assert CutAt(ops, pairs, AssocRemove(ops, pairs, key), i, key);
    }
  }

  lemma AssocInsertGet<K(!new), V>(ops: KeyOps<K>, pairs: seq<(K, V)>, key: K, val: V, q: K)
    requires ops.Lawful() && Distinct(ops, pairs)
    ensures var after := AssocInsert(ops, pairs, key, val);
      && Distinct(ops, after)
      && Get(ops, after, q) == (if ops.eq(key, q) then Some(val) else Get(ops, pairs, q))
      && |after| == |pairs| + if Absent(ops, pairs, key) then 1 else 0
  {
    var i := Find(ops, pairs, key);
    FindAbsent(ops, pairs, key);
    if i < |pairs| {
      var kept := pairs[i].0;
      EqChain(ops, kept, kept, kept);
      EqChain(ops, kept, key, q);
      EqChain(ops, key, kept, q);
      GetAfterPut(ops, pairs, pairs[i := (kept, val)], i, (kept, val), false, q);
    } else {
      assert pairs[..i] + [(key, val)] + pairs[i..] == pairs + [(key, val)];
      GetAfterPut(ops, pairs, pairs + [(key, val)], i, (key, val), true, q);
    }
  }

  lemma AssocRemoveGet<K(!new), V>(ops: KeyOps<K>, pairs: seq<(K, V)>, key: K, q: K)
    requires ops.Lawful() && Distinct(ops, pairs)
    ensures var after := AssocRemove(ops, pairs, key);
      && Distinct(ops, after)
      && Get(ops, after, q) == (if ops.eq(key, q) then None else Get(ops, pairs, q))
      && |after| == |pairs| - if Absent(ops, pairs, key) then 0 else 1
  {
    var i := Find(ops, pairs, key);
    FindAbsent(ops, pairs, key);
    if i < |pairs| {
      GetAfterCut(ops, pairs, pairs[..i] + pairs[i + 1..], i, key, q);
    } else if ops.eq(key, q) {
      AbsentAlike(ops, pairs, key, q);
    }
  }

  lemma AbsentAlike<K(!new), V>(ops: KeyOps<K>, pairs: seq<(K, V)>, key: K, q: K)
    requires ops.Lawful() && ops.eq(key, q) && Absent(ops, pairs, key)
    ensures Absent(ops, pairs, q) && Get(ops, pairs, q) == None
  {
    forall e | e in pairs ensures !ops.eq(e.0, q) {
      EqChain(ops, e.0, q, key);
      EqChain(ops, q, key, q);
    }
    FindAbsent(ops, pairs, q);
  }
}
