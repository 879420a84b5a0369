/** `SortedMap<K, V>`: an array of pairs in strictly ascending key order. */
module SortedMap {
  import opened Options
  import opened Keys

  /** The three-way comparison a sorted map is created with. */
  datatype Order<!K(!new)> = Order(cmp: (K, K) -> int) {

    /** A total preorder; its ties are the equal keys. */
    ghost predicate Lawful() {
      && (forall a :: cmp(a, a) == 0)
      && (forall a, b :: cmp(a, b) < 0 <==> cmp(b, a) > 0)
      && (forall a, b, c :: cmp(a, b) <= 0 && cmp(b, c) <= 0 ==> cmp(a, c) <= 0)
    }

    /** The key equality the order induces; sorted maps never hash. */
    function Ops(): KeyOps<K> {
      KeyOps((a, b) => cmp(a, b) == 0, _ => 0)
    }
  }

  /** How three comparisons hang together. */
  lemma Compare<K(!new)>(order: Order<K>, a: K, b: K, c: K)
    requires order.Lawful()
    ensures order.cmp(a, b) < 0 && order.cmp(b, c) <= 0 ==> order.cmp(a, c) < 0
    ensures order.cmp(a, b) <= 0 && order.cmp(b, c) < 0 ==> order.cmp(a, c) < 0
    ensures order.cmp(a, b) == 0 && order.cmp(b, c) == 0 ==> order.cmp(a, c) == 0
    ensures order.cmp(a, b) < 0 <==> order.cmp(b, a) > 0
    ensures order.cmp(a, b) == 0 <==> order.cmp(b, a) == 0
    ensures order.cmp(a, a) == 0
  {
    assert order.cmp(b, a) < 0 <==> order.cmp(a, b) > 0;
    assert order.cmp(c, b) < 0 <==> order.cmp(b, c) > 0;
    assert order.cmp(c, a) < 0 <==> order.cmp(a, c) > 0;
  }

  lemma OpsLawful<K(!new)>(order: Order<K>)
    requires order.Lawful()
    ensures order.Ops().Lawful()
  {
    var ops := order.Ops();
    forall a ensures ops.eq(a, a) {
      Compare(order, a, a, a);
    }
    forall a, b | ops.eq(a, b) ensures ops.eq(b, a) && ops.hash(a) == ops.hash(b) {
      Compare(order, a, b, b);
    }
    forall a, b, c | ops.eq(a, b) && ops.eq(b, c) ensures ops.eq(a, c) {
      Compare(order, a, b, c);
    }
  }

  ghost predicate Ascending<K(!new), V>(order: Order<K>, pairs: seq<(K, V)>) {
    forall i, j :: 0 <= i < j < |pairs| ==> order.cmp(pairs[i].0, pairs[j].0) < 0
  }

  lemma AscendingDistinct<K(!new), V>(order: Order<K>, pairs: seq<(K, V)>)
    requires Ascending(order, pairs)
    ensures Distinct(order.Ops(), pairs)
  {
  }

  /** The first position whose key is not smaller than `key`. */
  function LowerBound<K(!new), V>(order: Order<K>, pairs: seq<(K, V)>, key: K): (i: nat)
    ensures i <= |pairs|
    ensures forall j :: 0 <= j < i ==> order.cmp(pairs[j].0, key) < 0
    ensures i < |pairs| ==> order.cmp(pairs[i].0, key) >= 0
  {
    if |pairs| == 0 || order.cmp(pairs[0].0, key) >= 0 then 0 else 1 + LowerBound(order, pairs[1..], key)
  }

  predicate HitAt<K(!new), V>(order: Order<K>, pairs: seq<(K, V)>, key: K, i: nat) {
    i < |pairs| && order.cmp(pairs[i].0, key) == 0
  }

  /** In an ascending array everything from a greater key on is greater. */
  lemma GreaterFrom<K(!new), V>(order: Order<K>, pairs: seq<(K, V)>, key: K, i: nat, j: nat)
    requires order.Lawful() && Ascending(order, pairs) && i <= j < |pairs|
    requires order.cmp(pairs[i].0, key) > 0 || (i < j && order.cmp(pairs[i].0, key) == 0)
    ensures order.cmp(pairs[j].0, key) > 0
  {
    hide Order.Lawful;
    Compare(order, key, pairs[i].0, pairs[j].0);
    Compare(order, pairs[i].0, key, key);
    Compare(order, pairs[j].0, key, key);
  }

  lemma SmallerBelow<K(!new), V>(order: Order<K>, pairs: seq<(K, V)>, key: K, i: nat, j: nat)
    requires order.Lawful() && Ascending(order, pairs) && j <= i < |pairs|
    requires order.cmp(pairs[i].0, key) < 0 || (j < i && order.cmp(pairs[i].0, key) == 0)
    ensures order.cmp(pairs[j].0, key) < 0
  {
    hide Order.Lawful;
    Compare(order, pairs[j].0, pairs[i].0, key);
  }

  /** Below the bound every key is smaller, above it every key is greater: the
      bound is the one equal key, or the one place where a new key fits. */
  lemma {:induction false} BoundSplits<K(!new), V>(order: Order<K>, pairs: seq<(K, V)>, key: K)
    requires order.Lawful() && Ascending(order, pairs)
    ensures var i := LowerBound(order, pairs, key);
      && (forall j :: 0 <= j < i ==> order.cmp(pairs[j].0, key) < 0)
      && (forall j :: i < j < |pairs| ==> order.cmp(pairs[j].0, key) > 0)
      && (HitAt(order, pairs, key, i) <==> !Absent(order.Ops(), pairs, key))
  {
    hide Order.Lawful;
    var i := LowerBound(order, pairs, key);
    forall j | i < j < |pairs| ensures order.cmp(pairs[j].0, key) > 0 {
      GreaterFrom(order, pairs, key, i, j);
    }
    if HitAt(order, pairs, key, i) {
      assert pairs[i] in pairs && order.Ops().eq(pairs[i].0, key);
    }
  }

  /** `binary_search`: a hit is the lower bound and carries the key; a miss is
      the lower bound and no entry carries the key. */
  method BinarySearch<K(!new), V>(order: Order<K>, entries: array<(K, V)>, key: K) returns (found: bool, i: nat)
    requires order.Lawful() && Ascending(order, entries[..])
    ensures i == LowerBound(order, entries[..], key)
    ensures found <==> HitAt(order, entries[..], key, i)
  {
    hide Order.Lawful;
    var lo: nat, hi: nat := 0, entries.Length;
    while lo < hi
      invariant lo <= hi <= entries.Length
      invariant forall j :: 0 <= j < lo ==> order.cmp(entries[j].0, key) < 0
      invariant forall j :: hi <= j < entries.Length ==> order.cmp(entries[j].0, key) > 0
    {
      var mid := lo + (hi - lo) / 2;
      var c := order.cmp(entries[mid].0, key);
      if c < 0 {
        forall j | 0 <= j <= mid ensures order.cmp(entries[j].0, key) < 0 {
          SmallerBelow(order, entries[..], key, mid, j);
        }
        lo := mid + 1;
      } else if c > 0 {
        forall j | mid <= j < entries.Length ensures order.cmp(entries[j].0, key) > 0 {
          GreaterFrom(order, entries[..], key, mid, j);
        }
        hi := mid;
      } else {
        forall j | 0 <= j < mid ensures order.cmp(entries[..][j].0, key) < 0 {
          SmallerBelow(order, entries[..], key, mid, j);
        }
        BoundIs(order, entries[..], key, mid);
        return true, mid;
      }
    }
    BoundIs(order, entries[..], key, lo);
    return false, lo;
  }

  lemma BoundIs<K(!new), V>(order: Order<K>, pairs: seq<(K, V)>, key: K, i: nat)
    requires i <= |pairs| && (forall j :: 0 <= j < i ==> order.cmp(pairs[j].0, key) < 0)
    requires i < |pairs| ==> order.cmp(pairs[i].0, key) >= 0
    ensures LowerBound(order, pairs, key) == i
  {
    hide Order.Lawful;
  }

  // ----- insertion and removal on the list of pairs

  function SortedPut<K(!new), V>(order: Order<K>, pairs: seq<(K, V)>, key: K, val: V): seq<(K, V)> {
    var i := LowerBound(order, pairs, key);
    if HitAt(order, pairs, key, i) then pairs[i := (pairs[i].0, val)] else pairs[..i] + [(key, val)] + pairs[i..]
  }

  function SortedCut<K(!new), V>(order: Order<K>, pairs: seq<(K, V)>, key: K): seq<(K, V)> {
    var i := LowerBound(order, pairs, key);
    if HitAt(order, pairs, key, i) then pairs[..i] + pairs[i + 1..] else pairs
  }

  lemma SpliceAscends<K(!new), V>(order: Order<K>, front: seq<(K, V)>, pair: (K, V), back: seq<(K, V)>)
    requires Ascending(order, front + back)
    requires forall j :: 0 <= j < |front| ==> order.cmp(front[j].0, pair.0) < 0
    requires forall j :: 0 <= j < |back| ==> order.cmp(pair.0, back[j].0) < 0
    ensures Ascending(order, front + [pair] + back)
  {
    hide Order.Lawful;
    var joined := front + back;
    var after := front + [pair] + back;
    forall x, y | 0 <= x < y < |after| ensures order.cmp(after[x].0, after[y].0) < 0 {
      if x != |front| && y != |front| {
        assert after[x] == joined[if x < |front| then x else x - 1];
        assert after[y] == joined[if y < |front| then y else y - 1];
      }
    }
  }

  lemma AboveMiss<K(!new), V>(order: Order<K>, pairs: seq<(K, V)>, key: K, j: nat)
    requires order.Lawful() && Ascending(order, pairs)
    requires LowerBound(order, pairs, key) <= j < |pairs| && !HitAt(order, pairs, key, LowerBound(order, pairs, key))
    ensures order.cmp(key, pairs[j].0) < 0
  {
    hide Order.Lawful, Ascending;
    GreaterFrom(order, pairs, key, LowerBound(order, pairs, key), j);
    Compare(order, key, pairs[j].0, key);
  }

  lemma OverwriteAscends<K(!new), V>(order: Order<K>, pairs: seq<(K, V)>, i: nat, val: V)
    requires Ascending(order, pairs) && i < |pairs|
    ensures Ascending(order, pairs[i := (pairs[i].0, val)])
  {
  }

  /** Insertion keeps the array strictly ascending. */
  lemma PutAscends<K(!new), V>(order: Order<K>, pairs: seq<(K, V)>, key: K, val: V)
    requires order.Lawful() && Ascending(order, pairs)
    ensures Ascending(order, SortedPut(order, pairs, key, val))
  {
    hide Order.Lawful, Ascending;
    var i := LowerBound(order, pairs, key);
    if HitAt(order, pairs, key, i) {
      OverwriteAscends(order, pairs, i, val);
    } else {
      MissAscends(order, pairs, key, val, i);
    }
  }

  lemma MissAscends<K(!new), V>(order: Order<K>, pairs: seq<(K, V)>, key: K, val: V, i: nat)
    requires order.Lawful() && Ascending(order, pairs) && i == LowerBound(order, pairs, key)
    requires !HitAt(order, pairs, key, i)
    ensures Ascending(order, pairs[..i] + [(key, val)] + pairs[i..])
  {
    hide Order.Lawful, Ascending, HitAt, LowerBound;
    var front, back := pairs[..i], pairs[i..];
    assert front + back == pairs;
    forall j | 0 <= j < |back| ensures order.cmp(key, back[j].0) < 0 {
      AboveMiss(order, pairs, key, i + j);
    }
    SpliceAscends(order, front, (key, val), back);
  }

  /** What insertion means to a reader. */
  lemma SortedPutGet<K(!new), V>(order: Order<K>, pairs: seq<(K, V)>, key: K, val: V, q: K)
    requires order.Lawful() && Ascending(order, pairs)
    ensures var ops := order.Ops();
      && Get(ops, SortedPut(order, pairs, key, val), q) == (if ops.eq(key, q) then Some(val) else Get(ops, pairs, q))
      && |SortedPut(order, pairs, key, val)| == |pairs| + if Absent(ops, pairs, key) then 1 else 0
  {
    hide Order.Lawful, KeyOps.Lawful, Ascending, Get, Absent, Distinct;
    var ops := order.Ops();
    var i := LowerBound(order, pairs, key);
    var after := SortedPut(order, pairs, key, val);
    OpsLawful(order);
    BoundSplits(order, pairs, key);
    AscendingDistinct(order, pairs);
    if HitAt(order, pairs, key, i) {
      var kept := pairs[i].0;
      EqChain(ops, kept, kept, kept);
      EqChain(ops, kept, key, q);
      EqChain(ops, key, kept, q);
      GetAfterPut(ops, pairs, after, i, (kept, val), false, q);
    } else {
      GetAfterPut(ops, pairs, after, i, (key, val), true, q);
    }
  }

  /** A new key goes to one place, an equal one is overwritten where it is. */
  lemma SortedPutAt<K(!new), V>(order: Order<K>, pairs: seq<(K, V)>, key: K, val: V)
    requires order.Lawful() && Ascending(order, pairs)
    ensures Absent(order.Ops(), pairs, key) ==>
      exists i: nat :: PutAt(order.Ops(), pairs, SortedPut(order, pairs, key, val), i, (key, val), true)
    ensures !Absent(order.Ops(), pairs, key) ==>
      exists i: nat :: OverwrittenAt(order.Ops(), pairs, SortedPut(order, pairs, key, val), i, key, val)
  {
    hide Order.Lawful, Ascending, Absent;
    var i := LowerBound(order, pairs, key);
    BoundSplits(order, pairs, key);
    if HitAt(order, pairs, key, i) {
      assert OverwrittenAt(order.Ops(), pairs, SortedPut(order, pairs, key, val), i, key, val);
    } else {
      assert PutAt(order.Ops(), pairs, SortedPut(order, pairs, key, val), i, (key, val), true);
    }
  }

  lemma SortedCutAt<K(!new), V>(order: Order<K>, pairs: seq<(K, V)>, key: K)
    requires order.Lawful() && Ascending(order, pairs)
    ensures Absent(order.Ops(), pairs, key) ==> SortedCut(order, pairs, key) == pairs
    ensures !Absent(order.Ops(), pairs, key) ==>
      exists i: nat :: CutAt(order.Ops(), pairs, SortedCut(order, pairs, key), i, key)
  {
    hide Order.Lawful, Ascending, Absent;
    var i := LowerBound(order, pairs, key);
    BoundSplits(order, pairs, key);
    if HitAt(order, pairs, key, i) {
      assert CutAt(order.Ops(), pairs, SortedCut(order, pairs, key), i, key);
    }
  }

  lemma CutAscends<K(!new), V>(order: Order<K>, pairs: seq<(K, V)>, i: nat)
    requires Ascending(order, pairs) && i < |pairs|
    ensures Ascending(order, pairs[..i] + pairs[i + 1..])
  {
    var after := pairs[..i] + pairs[i + 1..];
    forall x, y | 0 <= x < y < |after| ensures order.cmp(after[x].0, after[y].0) < 0 {
      assert after[x] == pairs[if x < i then x else x + 1];
      assert after[y] == pairs[if y < i then y else y + 1];
    }
  }

  /** What removal means to a reader. */
  lemma SortedCutGet<K(!new), V>(order: Order<K>, pairs: seq<(K, V)>, key: K, q: K)
    requires order.Lawful() && Ascending(order, pairs)
    ensures var ops := order.Ops();
      && Ascending(order, SortedCut(order, pairs, key))
      && Get(ops, SortedCut(order, pairs, key), q) == (if ops.eq(key, q) then None else Get(ops, pairs, q))
      && |SortedCut(order, pairs, key)| == |pairs| - if Absent(ops, pairs, key) then 0 else 1
  {
    hide Order.Lawful, KeyOps.Lawful, Ascending, Get, Absent, Distinct;
    var ops := order.Ops();
    var i := LowerBound(order, pairs, key);
    OpsLawful(order);
    BoundSplits(order, pairs, key);
    AscendingDistinct(order, pairs);
    if HitAt(order, pairs, key, i) {
      CutAscends(order, pairs, i);
      GetAfterCut(ops, pairs, pairs[..i] + pairs[i + 1..], i, key, q);
    } else if ops.eq(key, q) {
      AbsentAlike(ops, pairs, key, q);
    }
  }

  // ----- the map object

  /** `TyraSortedMap`, written once by its constructor. */
  class SortedMap<K(!new), V> {
    const order: Order<K>
    const entries: array<(K, V)>

    constructor (order: Order<K>, entries: array<(K, V)>)
      ensures this.order == order && this.entries == entries
    {
      this.order, this.entries := order, entries;
    }

    ghost predicate Valid()
      reads entries
    {
      order.Lawful() && Ascending(order, entries[..])
    }

    ghost function Contents(): seq<(K, V)>
      reads entries
    {
      entries[..]
    }
  }

  method SortedMapNew<K(!new), V>(order: Order<K>) returns (m: SortedMap<K, V>)
    requires order.Lawful()
    ensures m.Valid() && m.order == order && m.Contents() == [] && fresh(m.entries)
  {
    var entries := new (K, V)[] [];
    m := new SortedMap(order, entries);
  }

  /** `tyra_sorted_map_insert`: the fresh array is the old prefix, the pair,
      and the old suffix. */
  method SortedMapInsert<K(!new), V>(m: SortedMap<K, V>, key: K, val: V) returns (r: SortedMap<K, V>)
    requires m.Valid()
    ensures r.Valid() && r.order == m.order && fresh(r.entries)
    ensures r.Contents() == SortedPut(m.order, m.Contents(), key, val)
    ensures Absent(m.order.Ops(), m.Contents(), key) ==>
      exists i: nat :: PutAt(m.order.Ops(), m.Contents(), r.Contents(), i, (key, val), true)
    ensures !Absent(m.order.Ops(), m.Contents(), key) ==>
      exists i: nat :: OverwrittenAt(m.order.Ops(), m.Contents(), r.Contents(), i, key, val)
  {
    hide Order.Lawful, Absent, PutAt, OverwrittenAt;
    ghost var pairs := m.Contents();
    SortedPutAt(m.order, pairs, key, val);
    PutAscends(m.order, pairs, key, val);
    var found, idx := BinarySearch(m.order, m.entries, key);
    var newEntries;
    if found {
      newEntries := CopyOver(m.entries, idx, val);
    } else {
      newEntries := CopyWith(m.entries, idx, (key, val));
    }
    r := new SortedMap(m.order, newEntries);
  }

  /** A fresh array with the value at `idx` overwritten. */
  method CopyOver<K, V>(entries: array<(K, V)>, idx: nat, val: V) returns (a: array<(K, V)>)
    requires idx < entries.Length
    ensures fresh(a) && a[..] == entries[..][idx := (entries[idx].0, val)]
  {
    var n := entries.Length;
    a := new (K, V)[n](j requires 0 <= j < n reads entries => entries[j]);
    a[idx] := (a[idx].0, val);
  }

  /** A fresh array with `pair` between the prefix and the suffix. */
  method CopyWith<K, V>(entries: array<(K, V)>, idx: nat, pair: (K, V)) returns (a: array<(K, V)>)
    requires idx <= entries.Length
    ensures fresh(a) && a[..] == entries[..idx] + [pair] + entries[idx..]
  {
    var n := entries.Length;
    a := new (K, V)[n + 1](j requires 0 <= j <= n reads entries =>
      if j < idx then entries[j] else if j == idx then pair else entries[j - 1]);
  }

  /** `tyra_sorted_map_remove`. An absent key shares the old array. */
  method SortedMapRemove<K(!new), V>(m: SortedMap<K, V>, key: K) returns (r: SortedMap<K, V>)
    requires m.Valid()
    ensures r.Valid() && r.order == m.order
    ensures r.Contents() == SortedCut(m.order, m.Contents(), key)
    ensures if Absent(m.order.Ops(), m.Contents(), key) then r.entries == m.entries
            else fresh(r.entries) && exists i: nat :: CutAt(m.order.Ops(), m.Contents(), r.Contents(), i, key)
  {
    hide Order.Lawful, CutAt;
    ghost var pairs := m.Contents();
    SortedCutAt(m.order, pairs, key);
    BoundSplits(m.order, pairs, key);
    SortedCutGet(m.order, pairs, key, key);
    var found, idx := BinarySearch(m.order, m.entries, key);
    if !found {
      r := new SortedMap(m.order, m.entries);
    } else {
      var newEntries := CopyWithout(m.entries, idx);
      r := new SortedMap(m.order, newEntries);
    }
  }

  /** Prefix and suffix around a removed slot, copied to a fresh array. */
  method CopyWithout<K, V>(entries: array<(K, V)>, idx: nat) returns (a: array<(K, V)>)
    requires idx < entries.Length
    ensures fresh(a) && a[..] == entries[..idx] + entries[idx + 1..]
  {
    var n := entries.Length;
    a := new (K, V)[n - 1](j requires 0 <= j < n - 1 reads entries =>
      if j < idx then entries[j] else entries[j + 1]);
  }

  /** `tyra_sorted_map_get`. */
  method SortedMapGet<K(!new), V>(m: SortedMap<K, V>, key: K) returns (r: Option<V>)
    requires m.Valid()
    ensures r == Get(m.order.Ops(), m.Contents(), key)
  {
    hide Order.Lawful, KeyOps.Lawful;
    ghost var ops := m.order.Ops();
    var found, idx := BinarySearch(m.order, m.entries, key);
    BoundSplits(m.order, m.Contents(), key);
    if found {
      r := Some(m.entries[idx].1);
      OpsLawful(m.order);
      AscendingDistinct(m.order, m.Contents());
      FindUnique(ops, m.Contents(), key, idx);
    } else {
      r := None;
      FindAbsent(ops, m.Contents(), key);
    }
  }

  /** `tyra_sorted_map_len`: the number of keys, no two of them equal. */
  method SortedMapLen<K(!new), V>(m: SortedMap<K, V>) returns (n: nat)
    requires m.Valid()
    ensures n == |m.Contents()| && Distinct(m.order.Ops(), m.Contents())
  {
    AscendingDistinct(m.order, m.Contents());
    n := m.entries.Length;
  }

  /** `tyra_sorted_map_for_each`: ascending, each key once. */
  method SortedMapForEach<K(!new), V>(m: SortedMap<K, V>) returns (visits: seq<(K, V)>)
    requires m.Valid()
    ensures visits == m.Contents() && Ascending(m.order, visits)
  {
    hide Order.Lawful;
    visits := [];
    for i := 0 to m.entries.Length
      invariant visits == m.entries[..i]
    {
      visits := visits + [m.entries[i]];
    }
  }
}
